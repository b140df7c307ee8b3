/** One happens-before interface over the three kinds of stamp. */
module StampAdapters {
  import opened Words
  import VectorClock
  import HybridClock
  import opened PartialOrder
  import opened SortTheorem

  datatype Comparable =
    | LamportStamp(lamport: uint64)
    | HLCStamp(hlc: HybridClock.Timestamp)
    | VectorStamp(snap: VectorClock.Snapshot)

  /** Stamps of different kinds are unrelated. */
  predicate HappensBefore(a: Comparable, b: Comparable) {
    match (a, b)
    case (LamportStamp(x), LamportStamp(y)) => x < y
    case (HLCStamp(x), HLCStamp(y)) => HybridClock.Less(x, y)
    case (VectorStamp(x), VectorStamp(y)) => VectorClock.Relate(x.vec, y.vec) == VectorClock.Before
    case _ => false
  }

  predicate Concurrent(a: Comparable, b: Comparable) {
    match (a, b)
    case (LamportStamp(x), LamportStamp(y)) => x == y
    case (HLCStamp(x), HLCStamp(y)) => x == y
    case (VectorStamp(x), VectorStamp(y)) => VectorClock.Relate(x.vec, y.vec) == VectorClock.Concurrent
    case _ => false
  }

  /** The adapters share one strict partial order, across kinds too, and never call related stamps concurrent. */
  lemma AdaptersAreStrictlyOrdered(a: Comparable, b: Comparable, c: Comparable)
    ensures !HappensBefore(a, a)
    ensures HappensBefore(a, b) && HappensBefore(b, c) ==> HappensBefore(a, c)
    ensures Concurrent(a, b) ==> Concurrent(b, a) && !HappensBefore(a, b) && !HappensBefore(b, a)
  {
    if a.VectorStamp? && b.VectorStamp? && c.VectorStamp? {
      VectorClock.CompareIsAPartialOrder(a.snap.vec, b.snap.vec, c.snap.vec);
    }
  }

  /** Two stamps of one total kind stand in exactly one relation; vector stamps do, or they read the same everywhere. */
  lemma OneAnswerOfAKind(a: Comparable, b: Comparable)
    ensures var before, after, apart := HappensBefore(a, b), HappensBefore(b, a), Concurrent(a, b);
            && !(before && after) && !(before && apart) && !(after && apart)
            && ((a.LamportStamp? && b.LamportStamp?) || (a.HLCStamp? && b.HLCStamp?) ==> before || after || apart)
            && (a.VectorStamp? && b.VectorStamp? ==>
                  (!before && !after && !apart <==> VectorClock.Relate(a.snap.vec, b.snap.vec) == VectorClock.Equal))
  {
    if a.VectorStamp? && b.VectorStamp? { VectorClock.CompareIsAPartialOrder(a.snap.vec, b.snap.vec, a.snap.vec); }
  }

  /** The numbers that decide, with no adapter in between. */
  lemma AdaptersReadTheStamps(x: uint64, y: uint64, t: HybridClock.Timestamp, u: HybridClock.Timestamp)
    ensures HappensBefore(LamportStamp(x), LamportStamp(y)) <==> x < y
    ensures HappensBefore(HLCStamp(t), HLCStamp(u)) <==>
              t.wallTime < u.wallTime || (t.wallTime == u.wallTime && t.logical < u.logical)
    ensures Concurrent(LamportStamp(x), LamportStamp(y)) <==> x == y
    ensures Concurrent(HLCStamp(t), HLCStamp(u)) <==> t.wallTime == u.wallTime && t.logical == u.logical
  {
  }

  /** Stamps of different kinds are neither before each other nor concurrent. */
  lemma KindsAreUnrelated(a: Comparable, b: Comparable)
    requires HappensBefore(a, b) || Concurrent(a, b)
    ensures a.LamportStamp? == b.LamportStamp? && a.HLCStamp? == b.HLCStamp? && a.VectorStamp? == b.VectorStamp?
  {
  }

  lemma StampsAreStrictlyOrdered<D>(ev: seq<Event<Comparable, D>>)
    ensures StrictlyOrdered(ev, HappensBefore)
  {
    forall i: nat, j: nat, k: nat | i < |ev| && j < |ev| && k < |ev|
        && HappensBefore(ev[i].stamp, ev[j].stamp) && HappensBefore(ev[j].stamp, ev[k].stamp)
      ensures HappensBefore(ev[i].stamp, ev[k].stamp)
    {
      AdaptersAreStrictlyOrdered(ev[i].stamp, ev[j].stamp, ev[k].stamp);
    }
    forall i: nat | i < |ev| ensures !HappensBefore(ev[i].stamp, ev[i].stamp) {
      AdaptersAreStrictlyOrdered(ev[i].stamp, ev[i].stamp, ev[i].stamp);
    }
  }
}
