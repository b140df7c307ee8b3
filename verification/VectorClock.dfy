/** Vector clocks: the clock of one process, its immutable snapshots, and their comparison. */
module VectorClock {
  import opened Words
  import opened Counters

  datatype Snapshot = Snapshot(nodeID: NodeId, vec: Counters)

  datatype Relation = Before | After | Equal | Concurrent

  /** What `Compare` decides, said in terms of the pointwise order. */
  function Relate(a: Counters, b: Counters): Relation {
    if Leq(a, b) && Leq(b, a) then Equal
    else if Leq(a, b) then Before
    else if Leq(b, a) then After
    else Concurrent
  }

  /** The vector a process holds after receiving `remote`: merge, then count the receive itself. */
  function Received(vec: Counters, remote: Counters, self: NodeId): Counters {
    Bump(Merge(vec, remote), self)
  }

  /** Entry by entry: the larger of the two readings, one more for the receiver itself; a remote zero is not stored. */
  lemma ReceivedSpelledOut(vec: Counters, remote: Counters, self: NodeId, k: NodeId)
    ensures k in Received(vec, remote, self) <==> k == self || k in vec || (k in remote && remote[k] > 0)
    ensures k in Received(vec, remote, self) ==>
              var own: nat := if k in vec then vec[k] else 0;
              var other: nat := if k in remote then remote[k] else 0;
              var top := if own < other then other else own;
              Received(vec, remote, self)[k] == if k == self then (top + 1) % 0x1_0000_0000_0000_0000 else top
  {
  }

  class Clock {
    const nodeID: NodeId
    var vec: Counters

    constructor (nodeID: NodeId)
      ensures this.nodeID == nodeID && vec == map[]
    {
      this.nodeID := nodeID;
      vec := map[];
    }

    constructor FromMap(nodeID: NodeId, initial: Counters)
      ensures this.nodeID == nodeID && vec == initial
    {
      this.nodeID := nodeID;
      vec := initial;
    }

    method Tick() returns (s: Snapshot)
      modifies this
      ensures vec.Keys == old(vec).Keys + {nodeID}
      ensures var was: nat := if nodeID in old(vec) then old(vec)[nodeID] else 0;
              vec[nodeID] == (was + 1) % 0x1_0000_0000_0000_0000
      ensures forall k :: k in old(vec) && k != nodeID ==> vec[k] == old(vec)[k]
      ensures vec == Bump(old(vec), nodeID)
      ensures s == Snapshot(nodeID, vec)
    {
      vec := vec[nodeID := Inc64(Get(vec, nodeID))];
      s := SnapshotLocked();
    }

    method Send() returns (s: Snapshot)
      modifies this
      ensures vec.Keys == old(vec).Keys + {nodeID}
      ensures var was: nat := if nodeID in old(vec) then old(vec)[nodeID] else 0;
              vec[nodeID] == (was + 1) % 0x1_0000_0000_0000_0000
      ensures forall k :: k in old(vec) && k != nodeID ==> vec[k] == old(vec)[k]
      ensures vec == Bump(old(vec), nodeID)
      ensures s == Snapshot(nodeID, vec)
    {
      vec := vec[nodeID := Inc64(Get(vec, nodeID))];
      s := SnapshotLocked();
    }

    method Receive(remote: Snapshot) returns (s: Snapshot)
      modifies this
      ensures vec == Received(old(vec), remote.vec, nodeID)
      ensures s == Snapshot(nodeID, vec)
    {
      var todo := remote.vec.Keys;
      while todo != {}
        invariant todo <= remote.vec.Keys
        invariant forall k ::
          k in vec <==> k in old(vec) || (k in remote.vec && k !in todo && remote.vec[k] > 0)
        invariant forall k :: k in vec ==>
          vec[k] == (if k in todo then Get(old(vec), k) else Max(Get(old(vec), k), Get(remote.vec, k)))
      {
        var node :| node in todo;
        var rv := remote.vec[node];
        if rv > Get(vec, node) {
          vec := vec[node := rv];
        }
        todo := todo - {node};
      }
      assert vec == Merge(old(vec), remote.vec);
      vec := vec[nodeID := Inc64(Get(vec, nodeID))];
      s := SnapshotLocked();
    }

    method SnapshotLocked() returns (s: Snapshot)
      ensures s == Snapshot(nodeID, vec)
    {
      var cp: Counters := map[];
      var todo := vec.Keys;
      while todo != {}
        invariant todo <= vec.Keys && cp.Keys == vec.Keys - todo
        invariant forall k :: k in cp ==> cp[k] == vec[k]
      {
        var k :| k in todo;
        cp := cp[k := vec[k]];
        todo := todo - {k};
      }
      s := Snapshot(nodeID, cp);
    }
  }

  method Compare(a: Snapshot, b: Snapshot) returns (r: Relation)
    ensures r == Relate(a.vec, b.vec)
  {
    var aLessOrEq, bLessOrEq := true, true;
    var todo := a.vec.Keys;
    while todo != {}
      invariant todo <= a.vec.Keys
      invariant aLessOrEq <==> forall k :: k in a.vec && k !in todo ==> a.vec[k] <= Get(b.vec, k)
      invariant bLessOrEq <==> forall k :: k in a.vec && k !in todo ==> Get(b.vec, k) <= a.vec[k]
    {
      var k :| k in todo;
      var av, bv := a.vec[k], Get(b.vec, k);
      if av > bv { aLessOrEq := false; }
      if bv > av { bLessOrEq := false; }
      todo := todo - {k};
    }
    todo := b.vec.Keys;
    while todo != {}
      invariant todo <= b.vec.Keys
      invariant bLessOrEq <==>
        && (forall k :: k in a.vec ==> Get(b.vec, k) <= a.vec[k])
        && (forall k :: k in b.vec && k !in todo ==> b.vec[k] <= Get(a.vec, k))
    {
      var k :| k in todo;
      if k !in a.vec {
        if b.vec[k] > 0 { bLessOrEq := false; }
      }
      todo := todo - {k};
    }
    r := if aLessOrEq && bLessOrEq then Equal
         else if aLessOrEq then Before
         else if bLessOrEq then After
         else Concurrent;
  }

  method SnapshotEqual(s: Snapshot, other: Snapshot) returns (same: bool)
    ensures same == SameEntries(s.vec, other.vec)
    ensures same <==> (|s.vec| == |other.vec|
                       && forall k :: k in s.vec ==> s.vec[k] == if k in other.vec then other.vec[k] else 0)
  {
    if |s.vec| != |other.vec| { return false; }
    var todo := s.vec.Keys;
    while todo != {}
      invariant todo <= s.vec.Keys
      invariant forall k :: k in s.vec && k !in todo ==> Get(other.vec, k) == s.vec[k]
    {
      var k :| k in todo;
      if Get(other.vec, k) != s.vec[k] { return false; }
      todo := todo - {k};
    }
    return true;
  }

  /** Without stored zeros the two notions of equality are the same, and both mean the same map. */
  lemma EqualityAgreesWithoutZeros(a: Counters, b: Counters)
    requires NoZeros(a) && NoZeros(b)
    ensures SameEntries(a, b) <==> a == b
    ensures Relate(a, b) == Equal <==> a == b
  {
    SameEntriesWithoutZeros(a, b);
    if Relate(a, b) == Equal { LeqAntisymmetric(a, b); }
  }

  /** `Snapshot.Equal` means `Compare`'s `Equal`, against every other vector, exactly without a stored zero. */
  lemma EqualImpliesEqualIff(a: Counters)
    ensures (forall b :: SameEntries(a, b) ==> Relate(a, b) == Equal) <==> NoZeros(a)
  {
    EqualityTrustedIff(a);
    if b :| SameEntries(a, b) && Relate(a, b) != Equal { assert !(Leq(a, b) && Leq(b, a)); }
  }

  /** Conversely, `Compare`'s `Equal` is also `Snapshot.Equal` exactly when the two store equally many entries. */
  lemma EqualIsEqualSizeIff(a: Counters, b: Counters)
    requires Relate(a, b) == Equal
    ensures SameEntries(a, b) <==> |a| == |b|
  {
    EqualityIsSize(a, b);
  }

  /** With a stored zero they disagree in both directions, and `Snapshot.Equal` is not even symmetric. */
  lemma StoredZerosBreakEquality(x: NodeId, y: NodeId, z: NodeId)
    requires x != y && y != z && x != z
    ensures Relate(map[x := 0], map[]) == Equal && !SameEntries(map[x := 0], map[])
    ensures var a, b: Counters := map[x := 0, y := 1], map[y := 1, z := 1];
            SameEntries(a, b) && !SameEntries(b, a) && Relate(a, b) == Before
  {
    var a, b: Counters := map[x := 0, y := 1], map[y := 1, z := 1];
    assert |a| == 2 && |b| == 2 by {
      assert a.Keys == {x, y} && b.Keys == {y, z};
    }
    assert z in b && Get(a, z) == 0;
    assert |map[x := 0 as uint64]| == 1;
  }

  /** What the answers mean: a missing entry and a stored zero read alike, and every other difference counts. */
  lemma RelateSpelledOut(a: Counters, b: Counters)
    ensures var less := exists k :: k in b && b[k] > if k in a then a[k] else 0;
            var more := exists k :: k in a && a[k] > if k in b then b[k] else 0;
            Relate(a, b) == if less && more then Concurrent else if less then Before else if more then After else Equal
  {
  }

  /** `Compare` is a partial order up to `Equal`, and swapping its arguments mirrors the answer. */
  lemma CompareIsAPartialOrder(a: Counters, b: Counters, c: Counters)
    ensures Relate(a, a) == Equal
    ensures Relate(a, b) == Before <==> Relate(b, a) == After
    ensures Relate(a, b) == Concurrent <==> Relate(b, a) == Concurrent
    ensures Leq(a, b) && Leq(b, c) ==> Leq(a, c)
    ensures Relate(a, b) == Before && Relate(b, c) == Before ==> Relate(a, c) == Before
    ensures Relate(a, b) == Equal ==> Relate(a, c) == Relate(b, c) && Relate(c, a) == Relate(c, b)
  {
    if Leq(a, b) && Leq(b, c) { LeqTransitive(a, b, c); }
    if Leq(b, c) && Leq(c, a) { LeqTransitive(b, c, a); }
    if Leq(c, a) && Leq(a, b) { LeqTransitive(c, a, b); }
    if Leq(b, a) && Leq(a, c) { LeqTransitive(b, a, c); }
    if Leq(a, c) && Leq(c, b) { LeqTransitive(a, c, b); }
    if Leq(c, b) && Leq(b, a) { LeqTransitive(c, b, a); }
  }
}
