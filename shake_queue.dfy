/**
 * The sample queue of the shake detector: Sample records linked through
 * `next`, a SamplePool free list that recycles them, and a SampleQueue that
 * keeps the live samples from `oldest` to `newest` with running counters.
 *
 * The Sample objects live in an arena owned by the pool: `samples[k]` holds
 * the fields of the k-th Sample ever allocated, a reference to a Sample is
 * its index, and `Nil` stands for a null reference. Each structure keeps a
 * ghost view of its indices in list order, and the pool keeps a ghost Slot
 * per sample that says whether it is free or live and gives it a rank (its
 * position, offset by the structure's base), so that no index occurs twice
 * and the free list and the live chain never share a sample.
 */
module ShakeQueue {
  import opened ShakeWindow

  /** The index that stands for a null reference. */
  const Nil: int := -1

  /** The fields of one Sample object; `next` is the index of the following one, or Nil. */
  datatype Sample = Sample(timestamp: int, accelerating: bool, next: int)

  /** Who holds a sample: the pool (pooled) or the queue, and at which rank. */
  datatype Slot = Slot(pooled: bool, rank: int)

  /** The first index of a list, or `tail` for an empty one. */
  function FirstOr(nodes: seq<int>, tail: int): int {
    if nodes == [] then tail else nodes[0]
  }

  /** The last index of a list, or `tail` for an empty one. */
  function LastOr(nodes: seq<int>, tail: int): int {
    if nodes == [] then tail else nodes[|nodes| - 1]
  }

  /** The index after position i of a list, or `tail` after the last one. */
  function After(nodes: seq<int>, i: int, tail: int): int
    requires 0 <= i < |nodes|
  {
    if i + 1 < |nodes| then nodes[i + 1] else tail
  }

  /**
   * The indices are in the arena, all pooled or all live, and their ranks
   * go down by one from `start` (pooled) or up by one from it (live), so
   * no index occurs twice.
   */
  ghost predicate Ranked(slots: seq<Slot>, nodes: seq<int>, pooled: bool, start: int) {
    forall i :: 0 <= i < |nodes| ==>
      0 <= nodes[i] < |slots| &&
      slots[nodes[i]] == Slot(pooled, if pooled then start - i else start + i)
  }

  /** Every index of the list is a sample of the arena. */
  ghost predicate InArena(arena: seq<Sample>, nodes: seq<int>) {
    forall i :: 0 <= i < |nodes| ==> 0 <= nodes[i] < |arena|
  }

  /** Each sample's `next` is the index after it in `nodes`, and the last one's is `tail`. */
  ghost predicate Links(arena: seq<Sample>, nodes: seq<int>, tail: int) {
    InArena(arena, nodes) &&
    forall i {:trigger arena[nodes[i]]} :: 0 <= i < |nodes| ==> arena[nodes[i]].next == After(nodes, i, tail)
  }

  /** The samples at `nodes` hold `values` in order. */
  ghost predicate Holds(arena: seq<Sample>, nodes: seq<int>, values: seq<SampleValue>) {
    |nodes| == |values| && InArena(arena, nodes) &&
    forall i {:trigger values[i]} :: 0 <= i < |nodes| ==>
      arena[nodes[i]].timestamp == values[i].timestamp &&
      arena[nodes[i]].accelerating == values[i].accelerating
  }

  /** `k` is not one of `nodes`. */
  ghost predicate Avoids(nodes: seq<int>, k: int) {
    forall i :: 0 <= i < |nodes| ==> nodes[i] != k
  }

  /** Dropping the first sample of a linked list leaves a linked list that the first one points to. */
  lemma LinksTail(arena: seq<Sample>, nodes: seq<int>, tail: int)
    requires Links(arena, nodes, tail) && nodes != []
    ensures Links(arena, nodes[1..], tail)
    ensures arena[nodes[0]].next == FirstOr(nodes[1..], tail)
  {
    assert forall i :: 0 <= i < |nodes| - 1 ==> nodes[1..][i] == nodes[i + 1];
  }

  /** A sample pointing at the head of a linked list can be put in front of it. */
  lemma LinksCons(arena: seq<Sample>, x: int, nodes: seq<int>, tail: int)
    requires Links(arena, nodes, tail) && 0 <= x < |arena| && arena[x].next == FirstOr(nodes, tail)
    ensures Links(arena, [x] + nodes, tail)
  {
    assert forall i :: 1 <= i <= |nodes| ==> ([x] + nodes)[i] == nodes[i - 1];
  }

  /** A linked list is its prefix, linked to its last sample, followed by that sample. */
  lemma LinksSplitLast(arena: seq<Sample>, nodes: seq<int>, tail: int)
    requires Links(arena, nodes, tail) && nodes != []
    ensures Links(arena, nodes[..|nodes| - 1], nodes[|nodes| - 1])
  {
    assert forall i :: 0 <= i < |nodes| - 1 ==> nodes[..|nodes| - 1][i] == nodes[i];
  }

  /** A sample pointing at `tail` can be put after a list linked to it. */
  lemma LinksSnoc(arena: seq<Sample>, nodes: seq<int>, x: int, tail: int)
    requires Links(arena, nodes, x) && 0 <= x < |arena| && arena[x].next == tail
    ensures Links(arena, nodes + [x], tail)
  {
    assert forall i :: 0 <= i < |nodes| ==> (nodes + [x])[i] == nodes[i];
  }

  /** Overwriting a sample that is not in a list leaves the list's links and contents as they were. */
  lemma ArenaUpdate(arena: seq<Sample>, nodes: seq<int>, tail: int, values: seq<SampleValue>, k: int, s: Sample)
    requires 0 <= k < |arena| && Avoids(nodes, k)
    ensures Links(arena, nodes, tail) ==> Links(arena[k := s], nodes, tail)
    ensures Holds(arena, nodes, values) ==> Holds(arena[k := s], nodes, values)
  {
    if Links(arena, nodes, tail) {
      forall i | 0 <= i < |nodes|
        ensures arena[k := s][nodes[i]] == arena[nodes[i]]
      {
      }
    }
    if Holds(arena, nodes, values) {
      forall i | 0 <= i < |nodes|
        ensures arena[k := s][nodes[i]] == arena[nodes[i]]
      {
        assert nodes[i] != k;
      }
    }
  }

  /** Allocating one more sample leaves every list's links and contents as they were. */
  lemma ArenaGrow(arena: seq<Sample>, nodes: seq<int>, tail: int, values: seq<SampleValue>, s: Sample)
    ensures Links(arena, nodes, tail) ==> Links(arena + [s], nodes, tail)
    ensures Holds(arena, nodes, values) ==> Holds(arena + [s], nodes, values)
  {
    if Links(arena, nodes, tail) {
      forall i | 0 <= i < |nodes|
        ensures (arena + [s])[nodes[i]] == arena[nodes[i]]
      {
      }
    }
  }

  /** Changing only a sample's `next` leaves what every list holds as it was. */
  lemma HoldsRelink(arena: seq<Sample>, nodes: seq<int>, values: seq<SampleValue>, k: int, x: int)
    requires Holds(arena, nodes, values) && 0 <= k < |arena|
    ensures Holds(arena[k := arena[k].(next := x)], nodes, values)
  {
    forall i | 0 <= i < |nodes|
      ensures arena[k := arena[k].(next := x)][nodes[i]].timestamp == arena[nodes[i]].timestamp
      ensures arena[k := arena[k].(next := x)][nodes[i]].accelerating == arena[nodes[i]].accelerating
    {
    }
  }

  /** A sample holding v can be put after a list holding `values`. */
  lemma HoldsSnoc(arena: seq<Sample>, nodes: seq<int>, values: seq<SampleValue>, x: int, v: SampleValue)
    requires Holds(arena, nodes, values) && 0 <= x < |arena|
    requires arena[x].timestamp == v.timestamp && arena[x].accelerating == v.accelerating
    ensures Holds(arena, nodes + [x], values + [v])
  {
    assert forall i :: 0 <= i < |nodes| ==> (nodes + [x])[i] == nodes[i] && (values + [v])[i] == values[i];
  }

  /**
   * Filling a sample that is in neither list with `s` and pointing the last
   * live sample at it puts it at the end of the live list, holding s's
   * values, and leaves the free list as it was.
   */
  lemma LinksAppend(arena: seq<Sample>, live: seq<int>, values: seq<SampleValue>, free: seq<int>, added: int, s: Sample)
    requires Links(arena, live, Nil) && Holds(arena, live, values) && Links(arena, free, Nil)
    requires 0 <= added < |arena| && Avoids(live, added) && Avoids(free, added) && s.next == Nil
    requires live != [] ==> Avoids(live[..|live| - 1], live[|live| - 1]) && Avoids(free, live[|live| - 1])
    ensures var filled := arena[added := s];
      var linked := if live == [] then filled else filled[live[|live| - 1] := filled[live[|live| - 1]].(next := added)];
      Links(linked, live + [added], Nil) && Links(linked, free, Nil) &&
      Holds(linked, live + [added], values + [SampleValue(s.timestamp, s.accelerating)])
  {
    var v := SampleValue(s.timestamp, s.accelerating);
    var filled := arena[added := s];
    ArenaUpdate(arena, live, Nil, values, added, s);
    ArenaUpdate(arena, free, Nil, [], added, s);
    if live == [] {
      LinksSnoc(filled, [], added, Nil);
      HoldsSnoc(filled, [], [], added, v);
    } else {
      var last, prefix := live[|live| - 1], live[..|live| - 1];
      var linked := filled[last := filled[last].(next := added)];
      LinksSplitLast(arena, live, Nil);
      ArenaUpdate(arena, prefix, last, [], added, s);
      ArenaUpdate(filled, prefix, last, [], last, linked[last]);
      ArenaUpdate(filled, free, Nil, [], last, linked[last]);
      assert live[|live| - 1] != added;
      LinksSnoc(linked, prefix, last, added);
      assert prefix + [last] == live;
      LinksSnoc(linked, live, added, Nil);
      HoldsRelink(filled, live, values, last, added);
      HoldsSnoc(linked, live, values, added, v);
    }
  }

  /** Reassigning a slot that is not in a list leaves the list's ranks as they were. */
  lemma RankedUpdate(slots: seq<Slot>, nodes: seq<int>, pooled: bool, start: int, k: int, s: Slot)
    requires Ranked(slots, nodes, pooled, start) && 0 <= k < |slots| && Avoids(nodes, k)
    ensures Ranked(slots[k := s], nodes, pooled, start)
  {
    forall i | 0 <= i < |nodes|
      ensures slots[k := s][nodes[i]] == slots[nodes[i]]
    {
      assert nodes[i] != k;
    }
  }

  /** A live sample with the next rank can be put at the end of the live list. */
  lemma RankedSnoc(slots: seq<Slot>, nodes: seq<int>, start: int, x: int)
    requires Ranked(slots, nodes, false, start) && 0 <= x < |slots| && slots[x] == Slot(false, start + |nodes|)
    ensures Ranked(slots, nodes + [x], false, start)
  {
    assert forall i :: 0 <= i < |nodes| ==> (nodes + [x])[i] == nodes[i];
  }

  /** The free list: linked through the arena, pooled, with ranks going down from `top`. */
  ghost predicate Pooled(samples: seq<Sample>, slots: seq<Slot>, free: seq<int>, top: int) {
    |slots| == |samples| && Links(samples, free, Nil) && Ranked(slots, free, true, top)
  }

  /** The live chain: linked through the arena, holding `contents`, live, with ranks going up from `base`. */
  ghost predicate Chained(samples: seq<Sample>, slots: seq<Slot>, chain: seq<int>, contents: seq<SampleValue>, base: int) {
    Links(samples, chain, Nil) && Holds(samples, chain, contents) && Ranked(slots, chain, false, base)
  }

  /**
   * Filling a sample that is in neither list and linking it after the last
   * live one (the arena `linked`) appends it to the chain with the next
   * rank, and leaves the free list intact.
   */
  lemma AppendKeepsLists(samples: seq<Sample>, slots: seq<Slot>, free: seq<int>, top: int,
                         chain: seq<int>, contents: seq<SampleValue>, base: int,
                         added: int, s: Sample, linked: seq<Sample>)
    requires Pooled(samples, slots, free, top) && Chained(samples, slots, chain, contents, base)
    requires 0 <= added < |samples| && Avoids(chain, added) && Avoids(free, added) && s.next == Nil
    requires linked == if chain == [] then samples[added := s]
      else samples[added := s][chain[|chain| - 1] := samples[added := s][chain[|chain| - 1]].(next := added)]
    ensures Pooled(linked, slots[added := Slot(false, base + |chain|)], free, top)
    ensures Chained(linked, slots[added := Slot(false, base + |chain|)], chain + [added],
                    contents + [SampleValue(s.timestamp, s.accelerating)], base)
  {
    var n := |chain|;
    if n > 0 {
      assert forall i :: 0 <= i < n - 1 ==> chain[..n - 1][i] == chain[i];
      assert Avoids(chain[..n - 1], chain[n - 1]) && Avoids(free, chain[n - 1]);
    }
    LinksAppend(samples, chain, contents, free, added, s);
    RankedUpdate(slots, chain, false, base, added, Slot(false, base + n));
    RankedUpdate(slots, free, true, top, added, Slot(false, base + n));
    RankedSnoc(slots[added := Slot(false, base + n)], chain, base, added);
  }

  /** A sequence in the opposite order. */
  ghost function Reversed<T>(s: seq<T>): (r: seq<T>)
    ensures |r| == |s|
  {
    if s == [] then [] else [s[|s| - 1]] + Reversed(s[..|s| - 1])
  }

  /**
   * Pushing the next element of `s` onto a stack that holds the first i
   * elements of `s`, reversed, on top of `stack` extends the reversed prefix.
   */
  lemma ReversedPrefixStep<T>(s: seq<T>, i: nat, stack: seq<T>)
    requires i < |s|
    ensures [s[i]] + (Reversed(s[..i]) + stack) == Reversed(s[..i + 1]) + stack
  {
    assert s[..i + 1][..i] == s[..i];
  }

  /** The prefix of `s` one longer is the prefix followed by the next element. */
  lemma PrefixStep<T>(s: seq<T>, i: nat)
    requires i < |s|
    ensures s[..i + 1] == s[..i] + [s[i]]
  {
  }

  /** A free list of samples, used as a stack: the last sample released is the first acquired. */
  class SamplePool {
    /** Every Sample allocated so far, by index. */
    var samples: seq<Sample>
    var head: int
    /** Which samples are free and which are live. */
    ghost var slots: seq<Slot>
    /** The free samples, from `head` along `next`. */
    ghost var free: seq<int>
    /** The rank of the sample at `head`; ranks decrease along the list. */
    ghost var top: int

    ghost predicate Valid()
      reads this
    {
      head == FirstOr(free, Nil) && Pooled(samples, slots, free, top)
    }

    constructor ()
      ensures Valid() && samples == [] && free == []
    {
      samples, head := [], Nil;
      slots, free, top := [], [], 0;
    }

    /** Takes the most recently released sample, or allocates a new one when the pool is empty. */
    method Acquire() returns (acquired: int)
      requires Valid()
      modifies this
      ensures Valid()
      ensures old(free) == [] ==>
        acquired == |old(samples)| && free == [] &&
        samples == old(samples) + [Sample(0, false, Nil)] && slots == old(slots) + [Slot(false, 0)]
      ensures old(free) != [] ==>
        acquired == old(free)[0] && free == old(free)[1..] &&
        samples == old(samples) && slots == old(slots)[acquired := Slot(false, 0)]
    {
      acquired := head;
      if acquired == Nil {
        acquired := |samples|;
        ArenaGrow(samples, free, Nil, [], Sample(0, false, Nil));
        samples, slots := samples + [Sample(0, false, Nil)], slots + [Slot(false, 0)];
      } else {
        ghost var rest := free[1..];
        LinksTail(samples, free, Nil);
        assert forall i :: 0 <= i < |rest| ==> rest[i] == free[i + 1];
        head := samples[acquired].next;
        slots, free, top := slots[acquired := Slot(false, 0)], rest, top - 1;
      }
    }

    /** Pushes a live sample onto the pool. */
    method Release(sample: int)
      requires Valid() && 0 <= sample < |samples| && !slots[sample].pooled
      modifies this
      ensures Valid()
      ensures free == [sample] + old(free)
      ensures samples == old(samples)[sample := old(samples)[sample].(next := old(head))]
      ensures slots == old(slots)[sample := Slot(true, old(top) + 1)]
    {
      ghost var updated := samples[sample := samples[sample].(next := head)];
      ArenaUpdate(samples, free, Nil, [], sample, updated[sample]);
      LinksCons(updated, sample, free, Nil);
      ghost var pushed := [sample] + free;
      assert forall i :: 1 <= i < |pushed| ==> pushed[i] == free[i - 1];
      samples := samples[sample := samples[sample].(next := head)];
      head := sample;
      slots, free, top := slots[sample := Slot(true, top + 1)], pushed, top + 1;
    }
  }

  /** Releasing a sample and acquiring right after gives that sample back and leaves the free list as it was. */
  method ReleaseThenAcquire(pool: SamplePool, sample: int) returns (acquired: int)
    requires pool.Valid() && 0 <= sample < |pool.samples| && !pool.slots[sample].pooled
    modifies pool
    ensures pool.Valid()
    ensures acquired == sample && pool.free == old(pool.free)
  {
    pool.Release(sample);
    acquired := pool.Acquire();
  }

  /** The sliding window of samples, oldest first, with running counters. */
  class SampleQueue {
    const pool: SamplePool
    var oldest: int
    var newest: int
    var sampleCount: int
    var acceleratingCount: int

    /** The live samples, from `oldest` along `next` to `newest`. */
    ghost var chain: seq<int>
    /** What the live samples hold, oldest first. */
    ghost var Contents: seq<SampleValue>
    /** The rank of the sample at `oldest`; ranks increase along the chain. */
    ghost var base: int

    /** The links of the queue, without the counters and `newest`. */
    ghost predicate Linkage()
      reads this, pool
    {
      pool.Valid() && oldest == FirstOr(chain, Nil) &&
      Chained(pool.samples, pool.slots, chain, Contents, base)
    }

    /** The links, the newest index and the two counters agree with the ghost window. */
    ghost predicate Tracked()
      reads this, pool
    {
      Linkage() && newest == LastOr(chain, Nil) &&
      sampleCount == |chain| &&
      acceleratingCount == CountAccelerating(Contents)
    }

    /**
     * The counter invariant, and every Sample ever allocated is either
     * live in the queue or back in the pool.
     */
    ghost predicate Valid()
      reads this, pool
      ensures Valid() ==> 0 <= acceleratingCount <= sampleCount == |Contents|
      ensures Valid() ==> |pool.samples| == |pool.free| + |Contents|
    {
      Tracked() && |pool.samples| == |pool.free| + |chain|
    }

    constructor ()
      ensures Valid() && fresh(pool)
      ensures Contents == [] && pool.free == []
    {
      pool := new SamplePool();
      oldest, newest := Nil, Nil;
      sampleCount, acceleratingCount := 0, 0;
      chain, Contents, base := [], [], 0;
    }

    /** Purges samples older than the cutoff, then appends (timestamp, accelerating) at the newest end. */
    method Add(timestamp: int, accelerating: bool)
      requires Valid()
      modifies this, pool
      ensures Valid()
      ensures Contents == AddSample(old(Contents), timestamp, accelerating)
      ensures |pool.samples| ==
        |old(pool.samples)| + (if old(pool.free) == [] && |Contents| == |old(Contents)| + 1 then 1 else 0)
    {
      Purge(timestamp - MaxWindowSize);
      Append(timestamp, accelerating);
    }

    /**
     * Takes a sample from the pool for the insertion step of add; the queue
     * is as it was, and the sample is in neither the chain nor the pool.
     */
    method TakeSample() returns (taken: int)
      requires Valid()
      modifies pool
      ensures Tracked() && unchanged(this) && |pool.samples| == |pool.free| + |chain| + 1
      ensures 0 <= taken < |pool.samples| && pool.slots[taken] == Slot(false, 0)
      ensures Avoids(chain, taken) && Avoids(pool.free, taken)
      ensures old(pool.free) == [] ==> taken == |old(pool.samples)| && pool.free == []
      ensures old(pool.free) != [] ==> taken == old(pool.free)[0] && pool.free == old(pool.free)[1..]
      ensures |pool.samples| == |old(pool.samples)| + (if old(pool.free) == [] then 1 else 0)
    {
      ArenaGrow(pool.samples, chain, Nil, Contents, Sample(0, false, Nil));
      taken := pool.Acquire();
      assert Avoids(chain, taken);
    }

    /**
     * The insertion step of add: takes a sample from the pool, fills it and
     * links it after the newest one.
     */
    method Append(timestamp: int, accelerating: bool)
      requires Valid()
      modifies this, pool
      ensures Valid()
      ensures Contents == old(Contents) + [SampleValue(timestamp, accelerating)]
      ensures |chain| == |old(chain)| + 1 && chain[..|old(chain)|] == old(chain)
      ensures old(pool.free) == [] ==> chain[|chain| - 1] == |old(pool.samples)| && pool.free == []
      ensures old(pool.free) != [] ==> chain[|chain| - 1] == old(pool.free)[0] && pool.free == old(pool.free)[1..]
      ensures |pool.samples| == |old(pool.samples)| + (if old(pool.free) == [] then 1 else 0)
    {
      var added := TakeSample();
      var v := SampleValue(timestamp, accelerating);
      var arena := pool.samples[added := Sample(timestamp, accelerating, Nil)];
      if newest != Nil {
        arena := arena[newest := arena[newest].(next := added)];
      }
      AppendKeepsLists(pool.samples, pool.slots, pool.free, pool.top, chain, Contents, base,
                       added, Sample(timestamp, accelerating, Nil), arena);
      pool.samples, pool.slots := arena, pool.slots[added := Slot(false, base + |chain|)];
      Record(added, v);
    }

    /**
     * The bookkeeping step of add, for a sample already linked after the
     * newest one: it becomes the newest (and the oldest of an empty queue)
     * and the counters take it in.
     */
    method Record(added: int, v: SampleValue)
      requires pool.Valid() && Chained(pool.samples, pool.slots, chain + [added], Contents + [v], base)
      requires oldest == FirstOr(chain, Nil) && newest == LastOr(chain, Nil)
      requires sampleCount == |chain| && acceleratingCount == CountAccelerating(Contents)
      requires |pool.samples| == |pool.free| + |chain| + 1
      modifies this
      ensures Valid()
      ensures chain == old(chain) + [added] && Contents == old(Contents) + [v]
    {
      CountAcceleratingAppend(Contents, v);
      newest := added;
      if oldest == Nil {
        oldest := added;
      }
      sampleCount := sampleCount + 1;
      if v.accelerating {
        acceleratingCount := acceleratingCount + 1;
      }
      chain, Contents := chain + [added], Contents + [v];
    }

    /**
     * The step shared by clear and purge: unlinks the oldest sample and
     * releases it to the pool. The counters and `newest` are left to the
     * caller.
     */
    method ReleaseOldest()
      requires Linkage() && oldest != Nil
      modifies this, pool
      ensures Linkage()
      ensures chain == old(chain)[1..] && Contents == old(Contents)[1..]
      ensures pool.free == [old(oldest)] + old(pool.free)
      ensures newest == old(newest) && sampleCount == old(sampleCount) && acceleratingCount == old(acceleratingCount)
      ensures |pool.samples| == |old(pool.samples)|
    {
      var removed := oldest;
      ghost var rest, restValues := chain[1..], Contents[1..];
      LinksTail(pool.samples, chain, Nil);
      assert forall i :: 0 <= i < |rest| ==> rest[i] == chain[i + 1] && restValues[i] == Contents[i + 1];
      assert Avoids(rest, removed);
      ArenaUpdate(pool.samples, rest, Nil, restValues, removed, pool.samples[removed].(next := pool.head));
      oldest := pool.samples[removed].next;
      pool.Release(removed);
      chain, Contents, base := rest, restValues, base + 1;
    }

    /** Empties the queue, pushing every live sample onto the pool from oldest to newest. */
    method Clear()
      requires Valid()
      modifies this, pool
      ensures Valid()
      ensures Contents == [] && chain == [] && oldest == Nil && newest == Nil
      ensures sampleCount == 0 && acceleratingCount == 0
      ensures pool.free == Reversed(old(chain)) + old(pool.free)
      ensures |pool.samples| == |old(pool.samples)|
    {
      ghost var live := chain;
      ghost var i := 0;
      while oldest != Nil
        invariant Linkage()
        invariant 0 <= i <= |live| && chain == live[i..]
        invariant pool.free == Reversed(live[..i]) + old(pool.free)
        invariant |pool.samples| == |old(pool.samples)| == |pool.free| + |chain|
        decreases |chain|
      {
        assert live[i..][1..] == live[i + 1..];
        ReleaseOldest();
        ReversedPrefixStep(live, i, old(pool.free));
        i := i + 1;
      }
      assert live[..i] == live;
      newest := Nil;
      sampleCount := 0;
      acceleratingCount := 0;
    }

    /**
     * One step of a purge: unlinks the oldest sample, takes it off the
     * counters and releases it to the pool.
     */
    method RemoveOldest()
      requires Valid() && oldest != Nil
      modifies this, pool
      ensures Valid()
      ensures chain == old(chain)[1..] && Contents == old(Contents)[1..]
      ensures pool.free == [old(oldest)] + old(pool.free)
      ensures |pool.samples| == |old(pool.samples)|
    {
      var removed := oldest;
      ghost var values := Contents;
      assert CountAccelerating(values) == (if values[0].accelerating then 1 else 0) + CountAccelerating(values[1..]);
      if pool.samples[removed].accelerating {
        acceleratingCount := acceleratingCount - 1;
      }
      sampleCount := sampleCount - 1;
      ReleaseOldest();
      if oldest == Nil {
        newest := Nil;
      }
    }

    /** The timestamp of the oldest live sample, which opens the window. */
    function OldestTimestamp(): (t: int)
      requires Valid() && oldest != Nil
      reads this, pool
      ensures Contents != [] && t == Contents[0].timestamp
    {
      pool.samples[oldest].timestamp
    }

    /** Removes the oldest sample while at least MinQueueSize remain and it is older than the cutoff. */
    method Purge(cutoff: int)
      requires Valid()
      modifies this, pool
      ensures Valid()
      ensures Contents == Purged(old(Contents), cutoff)
      ensures chain == old(chain)[|old(chain)| - |chain|..]
      ensures pool.free == Reversed(old(chain)[..|old(chain)| - |chain|]) + old(pool.free)
      ensures |pool.samples| == |old(pool.samples)|
    {
      ghost var live, values := chain, Contents;
      ghost var i := 0;
      while sampleCount >= MinQueueSize && oldest != Nil && cutoff - OldestTimestamp() > 0
        invariant PurgedFrom(live, values, old(pool.free), cutoff, i)
        invariant |pool.samples| == |old(pool.samples)|
        decreases |live| - i
      {
        PurgeStep(live, values, old(pool.free), cutoff, i);
        i := i + 1;
      }
      assert Purged(Contents, cutoff) == Contents;
      assert |live| - |chain| == i;
    }

    /**
     * Purge's loop invariant: the first i samples of the chain and window
     * the purge started from have gone to the pool, in front of its old
     * free list, and purging what is left gives what purging all of them
     * would.
     */
    ghost predicate PurgedFrom(live: seq<int>, values: seq<SampleValue>, free0: seq<int>, cutoff: int, i: int)
      reads this, pool
    {
      Valid() && 0 <= i <= |live| && i <= |values| &&
      chain == live[i..] && Contents == values[i..] &&
      Purged(values, cutoff) == Purged(Contents, cutoff) &&
      pool.free == Reversed(live[..i]) + free0
    }

    /** One turn of purge's loop: the i-th sample leaves the queue for the pool. */
    method PurgeStep(ghost live: seq<int>, ghost values: seq<SampleValue>, ghost free0: seq<int>, cutoff: int, ghost i: int)
      requires PurgedFrom(live, values, free0, cutoff, i)
      requires sampleCount >= MinQueueSize && oldest != Nil && cutoff - OldestTimestamp() > 0
      modifies this, pool
      ensures PurgedFrom(live, values, free0, cutoff, i + 1)
      ensures |pool.samples| == |old(pool.samples)|
    {
      assert live[i..][1..] == live[i + 1..] && values[i..][1..] == values[i + 1..];
      RemoveOldest();
      ReversedPrefixStep(live, i, free0);
    }

    /** The live samples, oldest first. */
    method AsList() returns (list: seq<Sample>)
      requires Valid()
      ensures |list| == |Contents|
      ensures forall i :: 0 <= i < |list| ==>
        list[i].timestamp == Contents[i].timestamp && list[i].accelerating == Contents[i].accelerating
    {
      list := [];
      var s := oldest;
      ghost var k := 0;
      while s != Nil
        invariant 0 <= k <= |chain| && |list| == k
        invariant forall j :: 0 <= j < k ==> list[j] == pool.samples[chain[j]]
        invariant s == if k < |chain| then chain[k] else Nil
        decreases |chain| - k
      {
        list := list + [pool.samples[s]];
        s := pool.samples[s].next;
        k := k + 1;
      }
    }

    /**
     * The shake test in constant time, from the end samples and the
     * counters; it agrees with Shaking over the whole window.
     */
    function IsShaking(): (shaking: bool)
      requires Valid()
      reads this, pool
      ensures shaking <==> Shaking(Contents)
    {
      newest != Nil && oldest != Nil &&
      pool.samples[newest].timestamp - pool.samples[oldest].timestamp >= MinWindowSize &&
      acceleratingCount >= sampleCount / 2 + sampleCount / 4
    }
  }

  /**
   * Once a queue has held samples, emptying it and adding as many readings
   * as it held reuses pooled samples: the arena does not grow. Up to
   * MinQueueSize readings are kept whatever their timestamps.
   */
  method ClearThenAddReusesSamples(q: SampleQueue, readings: seq<SampleValue>)
    requires q.Valid() && |readings| <= |q.Contents|
    modifies q, q.pool
    ensures q.Valid() && |q.pool.samples| == |old(q.pool.samples)|
    ensures |readings| <= MinQueueSize ==> q.Contents == readings
  {
    q.Clear();
    var i := 0;
    while i < |readings|
      invariant 0 <= i <= |readings|
      invariant q.Valid() && |q.pool.samples| == |old(q.pool.samples)|
      invariant |q.Contents| <= i
      invariant i <= MinQueueSize ==> q.Contents == readings[..i]
    {
      var r := readings[i];
      AddSampleShape(q.Contents, r.timestamp, r.accelerating);
      q.Add(r.timestamp, r.accelerating);
      PrefixStep(readings, i);
      i := i + 1;
    }
    assert readings[..i] == readings;
  }
}
