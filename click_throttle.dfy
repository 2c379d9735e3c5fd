/**
 * The click throttle of `clickWithThrottle`: the listener remembers when
 * its action last ran and ignores a click that comes less than
 * ThrottleMillis after that.
 *
 * The handler reads the clock twice: once to decide (`now`) and once,
 * after the action, to record the time (`later`). Both reads are
 * parameters here.
 */
module ClickThrottle {

  /** Minimum time in milliseconds between two clicks whose action runs. */
  const ThrottleMillis: int := 1250

  /** One click, with the two clock readings its handler takes. */
  datatype Click = Click(now: int, later: int)

  /** What a click does: whether the action ran, and the recorded time afterwards. */
  datatype Response = Response(ran: bool, lastClickTime: int)

  /** The handler's rule on one click, from the recorded time of the last run. */
  function Respond(lastClickTime: int, c: Click): Response {
    if c.now - lastClickTime < ThrottleMillis then Response(false, lastClickTime)
    else Response(true, c.later)
  }

  /**
   * A click is suppressed exactly when it comes less than ThrottleMillis
   * after the recorded time, and a suppressed click leaves the recorded time
   * alone; a click that runs records the second clock reading.
   */
  lemma RespondRule(lastClickTime: int, c: Click)
    ensures var r := Respond(lastClickTime, c);
      (!r.ran <==> c.now - lastClickTime < ThrottleMillis) &&
      (r.ran ==> r.lastClickTime == c.later) &&
      (!r.ran ==> r.lastClickTime == lastClickTime)
  {
  }

  /** The listener starts with 0 recorded, so its first click runs exactly when the clock reads at least ThrottleMillis. */
  lemma FirstClickRule(c: Click)
    ensures Respond(0, c).ran <==> c.now >= ThrottleMillis
  {
  }

  /** The first clock readings of the clicks whose action ran, in order. */
  function Runs(lastClickTime: int, clicks: seq<Click>): seq<int>
    decreases |clicks|
  {
    if clicks == [] then []
    else
      var r := Respond(lastClickTime, clicks[0]);
      (if r.ran then [clicks[0].now] else []) + Runs(r.lastClickTime, clicks[1..])
  }

  /** Within each click the clock does not go back between the two readings. */
  ghost predicate RecordsAfterDeciding(clicks: seq<Click>) {
    forall i :: 0 <= i < |clicks| ==> clicks[i].now <= clicks[i].later
  }

  /**
   * When no click records a time before the reading it decided on, the
   * first action runs at least ThrottleMillis after the recorded time and
   * every later one at least ThrottleMillis after the one before. The
   * clock may go back between clicks.
   */
  lemma {:induction false} RunsAreSpaced(lastClickTime: int, clicks: seq<Click>)
    requires RecordsAfterDeciding(clicks)
    ensures var h := Runs(lastClickTime, clicks);
      (h != [] ==> h[0] - lastClickTime >= ThrottleMillis) &&
      forall i :: 0 < i < |h| ==> h[i] - h[i - 1] >= ThrottleMillis
    decreases |clicks|
  {
    if clicks != [] {
      var c := clicks[0];
      var r := Respond(lastClickTime, c);
      var tail := clicks[1..];
      assert RecordsAfterDeciding(tail) by {
        assert forall i :: 0 <= i < |tail| ==> tail[i] == clicks[i + 1];
      }
      var rest := Runs(r.lastClickTime, tail);
      RunsAreSpaced(r.lastClickTime, tail);
      if r.ran {
        var h := [c.now] + rest;
        assert c.now <= c.later;
        assert forall i :: 0 < i < |h| ==> h[i] == rest[i - 1];
      }
    }
  }

  /**
   * Among clicks that all come by `horizon`, the action runs at most
   * (horizon - lastClickTime) / ThrottleMillis times: each run costs a full
   * ThrottleMillis of clock.
   */
  lemma {:induction false} RunsWithinHorizon(lastClickTime: int, clicks: seq<Click>, horizon: int)
    requires RecordsAfterDeciding(clicks)
    requires forall i :: 0 <= i < |clicks| ==> clicks[i].now <= horizon
    ensures Runs(lastClickTime, clicks) != [] ==>
      |Runs(lastClickTime, clicks)| * ThrottleMillis <= horizon - lastClickTime
    decreases |clicks|
  {
    if clicks != [] {
      var c := clicks[0];
      var r := Respond(lastClickTime, c);
      var tail := clicks[1..];
      assert forall i :: 0 <= i < |tail| ==> tail[i] == clicks[i + 1];
      assert c.now <= c.later && c.now <= horizon;
      RunsWithinHorizon(r.lastClickTime, tail, horizon);
    }
  }

  /** Two clicks half a second apart after a quiet spell: only the first one runs. */
  lemma DoubleClickRunsOnce()
    ensures Runs(0, [Click(5000, 5001), Click(5500, 5500)]) == [5000]
  {
    assert Respond(0, Click(5000, 5001)) == Response(true, 5001);
    assert Respond(5001, Click(5500, 5500)) == Response(false, 5001);
  }

  /** The listener object of `clickWithThrottle`, holding the recorded time. */
  class ThrottledClickListener {
    var lastClickTime: int

    constructor ()
      ensures lastClickTime == 0
    {
      lastClickTime := 0;
    }

    /**
     * Handles one click: returns whether the action runs, which it does
     * unless the click comes less than ThrottleMillis after the recorded
     * time; a run records `later`, the clock read after the action.
     */
    method OnClick(now: int, later: int) returns (ran: bool)
      modifies this
      ensures Response(ran, lastClickTime) == Respond(old(lastClickTime), Click(now, later))
    {
      if now - lastClickTime < ThrottleMillis {
        return false;
      }
      ran := true;
      lastClickTime := later;
    }
  }
}
