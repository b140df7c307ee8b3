/** The sparse counter maps that vector snapshots and dotted versions share: a missing key reads as zero. */
module Counters {
  import opened Words
  import Finite

  type Counters = map<NodeId, uint64>

  function Get(m: Counters, k: NodeId): uint64 { if k in m then m[k] else 0 }

  predicate NoZeros(m: Counters) { forall k :: k in m ==> m[k] > 0 }

  /** Pointwise order of the two maps read as total functions. */
  predicate Leq(a: Counters, b: Counters) { forall k :: k in a ==> a[k] <= Get(b, k) }

  /** `m[k]++` on a Go map. */
  function Bump(m: Counters, k: NodeId): Counters { m[k := Inc64(Get(m, k))] }

  /** Pointwise maximum; a zero of `b` is not copied over a missing key of `a`. */
  function Merge(a: Counters, b: Counters): Counters {
    map k | k in a.Keys + b.Keys && (k in a || b[k] > 0) :: if Get(a, k) < Get(b, k) then Get(b, k) else Get(a, k)
  }

  lemma LeqPointwise(a: Counters, b: Counters)
    ensures Leq(a, b) <==> forall k: NodeId :: Get(a, k) <= Get(b, k)
  {
    if forall k: NodeId :: Get(a, k) <= Get(b, k) {
      forall k | k in a ensures a[k] <= Get(b, k) { assert Get(a, k) <= Get(b, k); }
    }
  }

  lemma LeqTransitive(a: Counters, b: Counters, c: Counters)
    requires Leq(a, b) && Leq(b, c)
    ensures Leq(a, c)
  {
    forall k | k in a ensures a[k] <= Get(c, k) { assert a[k] <= Get(b, k); }
  }

  /** Reading a merge gives the larger of the two readings, at every key. */
  lemma MergeGet(a: Counters, b: Counters, k: NodeId)
    ensures Get(Merge(a, b), k) == Max(Get(a, k), Get(b, k))
  {
  }

  /** Without stored zeros, maps that read the same everywhere are the same map. */
  lemma LeqAntisymmetric(a: Counters, b: Counters)
    requires NoZeros(a) && NoZeros(b) && Leq(a, b) && Leq(b, a)
    ensures a == b
  {
    assert forall k :: k in a ==> k in b && a[k] == b[k];
    assert forall k :: k in b ==> k in a;
  }

  /** The equality test of snapshots and versions: same number of entries, and each entry of `a` read back from `b`. */
  predicate SameEntries(a: Counters, b: Counters) {
    |a| == |b| && forall k :: k in a ==> Get(b, k) == a[k]
  }

  lemma SameEntriesWithoutZeros(a: Counters, b: Counters)
    requires NoZeros(a)
    ensures SameEntries(a, b) <==> a == b
  {
    if SameEntries(a, b) {
      assert a.Keys <= b.Keys;
      Finite.SubsetSameSize(a.Keys, b.Keys);
    }
  }

  /** IDs are unbounded, so finitely many leave one unused. */
  lemma {:induction false} FreshId(ids: set<NodeId>) returns (n: nat)
    ensures forall k :: k in ids ==> |k| < n
  {
    if ids == {} {
      n := 0;
    } else {
      var k :| k in ids;
      n := FreshId(ids - {k});
      n := Max(n, |k| + 1);
    }
  }

  /** A positive answer of the equality test means equal readings, for every other operand, exactly without zeros. */
  lemma EqualityTrustedIff(a: Counters)
    ensures (forall b :: SameEntries(a, b) ==> Leq(a, b) && Leq(b, a)) <==> NoZeros(a)
  {
    if NoZeros(a) {
      forall b | SameEntries(a, b) ensures Leq(a, b) && Leq(b, a) { SameEntriesWithoutZeros(a, b); }
    } else {
      var k :| k in a && a[k] == 0;
      var n := FreshId(a.Keys);
      var y: NodeId := seq(n, _ => 0);
      var b := (a - {k})[y := 1];
      assert y !in a && b.Keys == a.Keys - {k} + {y};
      assert SameEntries(a, b) && b[y] > Get(a, y);
    }
  }

  /** Between maps that read the same, the equality test only compares the number of entries. */
  lemma EqualityIsSize(a: Counters, b: Counters)
    requires Leq(a, b) && Leq(b, a)
    ensures SameEntries(a, b) <==> |a| == |b|
  {
    forall k | k in a ensures Get(b, k) == a[k] {}
  }

  /** Merge is the least upper bound of the pointwise order. */
  lemma MergeIsLeastUpperBound(a: Counters, b: Counters, c: Counters)
    ensures Leq(a, Merge(a, b)) && Leq(b, Merge(a, b))
    ensures Leq(a, c) && Leq(b, c) <==> Leq(Merge(a, b), c)
  {
    var m := Merge(a, b);
    forall k | k in a ensures a[k] <= Get(m, k) { MergeGet(a, b, k); }
    forall k | k in b ensures b[k] <= Get(m, k) { MergeGet(a, b, k); }
    if Leq(m, c) {
      LeqTransitive(a, m, c);
      LeqTransitive(b, m, c);
    }
  }

  /** Sum of all entries, as an unbounded integer. */
  ghost function Sum(m: Counters): nat {
    if m == map[] then 0 else
      var k :| k in m;
      m[k] + Sum(m - {k})
  }

  /** The sum does not depend on which entry is taken out first. */
  lemma {:induction false} SumRemove(m: Counters, k: NodeId)
    requires k in m
    ensures Sum(m) == m[k] + Sum(m - {k})
    decreases |m|
  {
    var p :| p in m && Sum(m) == m[p] + Sum(m - {p});
    if p != k {
      SumRemove(m - {p}, k);
      SumRemove(m - {k}, p);
      assert m - {p} - {k} == m - {k} - {p};
    }
  }

  lemma SumSplits(m: Counters, k: NodeId)
    ensures Sum(m) == Get(m, k) + Sum(m - {k})
  {
    if k in m { SumRemove(m, k); } else { assert m - {k} == m; }
  }

  lemma LeqWithout(a: Counters, b: Counters, k: NodeId)
    requires Leq(a, b)
    ensures Leq(a - {k}, b - {k})
    ensures Get(a, k) == Get(b, k) && !Leq(b, a) ==> !Leq(b - {k}, a - {k})
  {
    forall q | q in a - {k} ensures (a - {k})[q] <= Get(b - {k}, q) { assert a[q] <= Get(b, q); }
    if !Leq(b, a) && Get(a, k) == Get(b, k) {
      var q :| q in b && b[q] > Get(a, q);
      assert q in b - {k};
    }
  }

  /** A pointwise larger map has a larger sum, strictly if some entry is strictly larger. */
  lemma {:induction false} SumMonotone(a: Counters, b: Counters)
    requires Leq(a, b)
    ensures Sum(a) <= Sum(b)
    ensures !Leq(b, a) ==> Sum(a) < Sum(b)
    decreases |a|
  {
    if a == map[] {
      if !Leq(b, a) {
        var k :| k in b && b[k] > 0;
        SumSplits(b, k);
      }
    } else {
      var k :| k in a;
      SumSplits(a, k);
      SumSplits(b, k);
      LeqWithout(a, b, k);
      SumMonotone(a - {k}, b - {k});
    }
  }
}
