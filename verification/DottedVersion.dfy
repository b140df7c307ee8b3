/** Dotted versions: causal histories of stored values, their comparison, and last-write-wins resolution. */
module DottedVersion {
  import opened Words
  import opened Counters
  import Finite

  datatype Version = Version(dots: Counters)

  method Increment(v: Version, actor: NodeId) returns (out: Version)
    ensures out.dots == Bump(v.dots, actor)
    ensures out.dots.Keys == v.dots.Keys + {actor}
    ensures var was: nat := if actor in v.dots then v.dots[actor] else 0;
            out.dots[actor] == (was + 1) % 0x1_0000_0000_0000_0000
    ensures forall k :: k in v.dots && k != actor ==> out.dots[k] == v.dots[k]
  {
    var dots := Dots(v);
    out := Version(dots[actor := Inc64(Get(dots, actor))]);
  }

  /** A fresh copy of the dots. */
  method Dots(v: Version) returns (dots: Counters)
    ensures dots == v.dots
  {
    dots := map[];
    var todo := v.dots.Keys;
    while todo != {}
      invariant todo <= v.dots.Keys && dots.Keys == v.dots.Keys - todo
      invariant forall k :: k in dots ==> dots[k] == v.dots[k]
    {
      var k :| k in todo;
      dots := dots[k := v.dots[k]];
      todo := todo - {k};
    }
  }

  method MergeVersions(v: Version, other: Version) returns (out: Version)
    ensures out.dots == Merge(v.dots, other.dots)
    ensures forall k :: k in out.dots <==> k in v.dots || (k in other.dots && other.dots[k] > 0)
    ensures forall k :: k in out.dots && k in v.dots ==> out.dots[k] >= v.dots[k]
    ensures forall k :: k in out.dots && k in other.dots ==> out.dots[k] >= other.dots[k]
    ensures forall k :: k in out.dots ==>
              (k in v.dots && out.dots[k] == v.dots[k]) || (k in other.dots && out.dots[k] == other.dots[k])
  {
    var dots := Dots(v);
    var todo := other.dots.Keys;
    while todo != {}
      invariant todo <= other.dots.Keys
      invariant forall k ::
        k in dots <==> k in v.dots || (k in other.dots && k !in todo && other.dots[k] > 0)
      invariant forall k :: k in dots ==>
        dots[k] == (if k in todo then Get(v.dots, k) else Max(Get(v.dots, k), Get(other.dots, k)))
    {
      var k :| k in todo;
      var c := other.dots[k];
      if c > Get(dots, k) {
        dots := dots[k := c];
      }
      todo := todo - {k};
    }
    out := Version(dots);
  }

  method Descends(v: Version, other: Version) returns (r: bool)
    ensures r <==> Leq(other.dots, v.dots)
    ensures r <==> forall k :: k in other.dots && other.dots[k] > 0 ==> k in v.dots && v.dots[k] >= other.dots[k]
  {
    var todo := other.dots.Keys;
    while todo != {}
      invariant todo <= other.dots.Keys
      invariant forall k :: k in other.dots && k !in todo ==> other.dots[k] <= Get(v.dots, k)
    {
      var k :| k in todo;
      if Get(v.dots, k) < other.dots[k] { return false; }
      todo := todo - {k};
    }
    return true;
  }

  /** What `Dominates` decides: it counts a key of `v` that `other` lacks as progress, whatever its counter. */
  predicate Over(v: Counters, other: Counters) {
    Leq(other, v) && ((exists k :: k in other && Get(v, k) > other[k]) || exists k :: k in v && k !in other)
  }

  method Dominates(v: Version, other: Version) returns (r: bool)
    ensures r <==> Over(v.dots, other.dots)
    ensures r <==>
              && (forall k :: k in other.dots && other.dots[k] > 0 ==> k in v.dots && v.dots[k] >= other.dots[k])
              && ((exists k :: k in other.dots && k in v.dots && v.dots[k] > other.dots[k])
                  || exists k :: k in v.dots && k !in other.dots)
  {
    var strictly := false;
    var todo := other.dots.Keys;
    while todo != {}
      invariant todo <= other.dots.Keys
      invariant forall k :: k in other.dots && k !in todo ==> other.dots[k] <= Get(v.dots, k)
      invariant strictly <==> exists k :: k in other.dots && k !in todo && Get(v.dots, k) > other.dots[k]
    {
      var k :| k in todo;
      var vc, c := Get(v.dots, k), other.dots[k];
      if vc < c { return false; }
      if vc > c { strictly := true; }
      todo := todo - {k};
    }
    if !strictly {
      todo := v.dots.Keys;
      while todo != {}
        invariant todo <= v.dots.Keys
        invariant forall k :: k in v.dots && k !in todo ==> k in other.dots
      {
        var k :| k in todo;
        if k !in other.dots { return true; }
        todo := todo - {k};
      }
    }
    return strictly;
  }

  method Equals(v: Version, other: Version) returns (r: bool)
    ensures r <==> SameEntries(v.dots, other.dots)
    ensures r <==> (|v.dots| == |other.dots|
                    && forall k :: k in v.dots ==> v.dots[k] == if k in other.dots then other.dots[k] else 0)
  {
    if |v.dots| != |other.dots| { return false; }
    var todo := v.dots.Keys;
    while todo != {}
      invariant todo <= v.dots.Keys
      invariant forall k :: k in v.dots && k !in todo ==> Get(other.dots, k) == v.dots[k]
    {
      var k :| k in todo;
      if Get(other.dots, k) != v.dots[k] { return false; }
      todo := todo - {k};
    }
    return true;
  }

  method Concurrent(v: Version, other: Version) returns (r: bool)
    ensures r <==> !Leq(v.dots, other.dots) && !Leq(other.dots, v.dots)
  {
    var d := Descends(v, other);
    var e := Descends(other, v);
    return !d && !e;
  }

  // ---------- Versions that can be built ----------

  /** How a version comes about: only by these three calls. */
  datatype Build = New | Inc(of: Build, actor: NodeId) | Join(left: Build, right: Build)

  function Eval(b: Build): Counters {
    match b
    case New => map[]
    case Inc(of, actor) => Bump(Eval(of), actor)
    case Join(left, right) => Merge(Eval(left), Eval(right))
  }

  /** The most increments on any path of the history. */
  function Depth(b: Build): nat {
    match b
    case New => 0
    case Inc(of, _) => Depth(of) + 1
    case Join(left, right) => Max(Depth(left), Depth(right))
  }

  /** No counter exceeds the increments behind it, so histories short of 2^64 never store a zero. */
  lemma {:induction false} BuiltHasNoZeros(b: Build)
    requires Depth(b) < TWO64
    ensures NoZeros(Eval(b)) && forall k :: Get(Eval(b), k) <= Depth(b)
  {
    match b {
      case New =>
      case Inc(of, actor) =>
        BuiltHasNoZeros(of);
        assert Get(Eval(of), actor) <= Depth(of);
        forall k ensures Get(Eval(b), k) <= Depth(b) { assert Get(Eval(of), k) <= Depth(of); }
      case Join(left, right) =>
        BuiltHasNoZeros(left);
        BuiltHasNoZeros(right);
        forall k ensures Get(Eval(b), k) <= Depth(b) {
          assert Get(Eval(left), k) <= Depth(left) && Get(Eval(right), k) <= Depth(right);
        }
    }
  }

  /** `m` after `n` increments of a counter that started from nothing. */
  function Raised(m: Counters, x: NodeId, n: nat): Counters { if n == 0 then m else m[x := n % TWO64] }

  lemma BumpRaises(m: Counters, x: NodeId, n: nat)
    requires x !in m
    ensures Bump(Raised(m, x, n), x) == Raised(m, x, n + 1)
  {
    assert Get(Raised(m, x, n), x) == n % TWO64;
  }

  lemma {:induction false} IncrementMany(b: Build, n: nat, x: NodeId) returns (c: Build)
    requires x !in Eval(b)
    ensures Depth(c) == Depth(b) + n && Eval(c) == Raised(Eval(b), x, n)
  {
    if n == 0 {
      c := b;
    } else {
      var d := IncrementMany(b, n - 1, x);
      BumpRaises(Eval(b), x, n - 1);
      c := Inc(d, x);
    }
  }

  lemma MergeOne(m: Counters, k: NodeId)
    requires k in m && m[k] > 0
    ensures Merge(m - {k}, Raised(map[], k, m[k])) == m
  {
    var one := Raised(map[], k, m[k]);
    assert one == map[k := m[k]];
  }

  lemma RaiseOne(m: Counters, k: NodeId)
    requires k in m
    ensures Raised(m - {k}, k, if m[k] == 0 then TWO64 else m[k]) == m
  {
  }

  /** Every zero-free version is built with fewer than 2^64 increments on any path. */
  lemma {:induction false} BuildZeroFree(m: Counters) returns (b: Build)
    requires NoZeros(m)
    ensures Depth(b) < TWO64 && Eval(b) == m
    decreases |m|
  {
    if m == map[] {
      b := New;
    } else {
      var k :| k in m;
      var rest := BuildZeroFree(m - {k});
      var one := IncrementMany(New, m[k], k);
      MergeOne(m, k);
      b := Join(rest, one);
    }
  }

  /** And, with more increments, every version whatever: a stored zero is a counter that has wrapped. */
  lemma {:induction false} BuildAny(m: Counters) returns (b: Build)
    ensures Eval(b) == m
    decreases |m|
  {
    if m == map[] {
      b := New;
    } else {
      var k :| k in m;
      var rest := BuildAny(m - {k});
      RaiseOne(m, k);
      b := IncrementMany(rest, if m[k] == 0 then TWO64 else m[k], k);
    }
  }

  /** The versions of histories short of 2^64 are exactly those that store no zero. */
  lemma ShortHistoriesIff(m: Counters)
    ensures (exists b :: Eval(b) == m && Depth(b) < TWO64) <==> NoZeros(m)
  {
    if b :| Eval(b) == m && Depth(b) < TWO64 { BuiltHasNoZeros(b); }
    if NoZeros(m) { var _ := BuildZeroFree(m); }
  }

  /** No longer limit on histories would keep zeros out. */
  lemma ZeroFreeDepthIff(n: nat)
    ensures (forall b :: Depth(b) <= n ==> NoZeros(Eval(b))) <==> n < TWO64
  {
    if n < TWO64 {
      forall b | Depth(b) <= n ensures NoZeros(Eval(b)) { BuiltHasNoZeros(b); }
    } else {
      var wrapped := IncrementMany(New, TWO64, []);
      assert [] in Eval(wrapped);
    }
  }

  /** Without stored zeros `Dominates` is "descends but is not descended from". */
  lemma OverIsStrict(a: Counters, b: Counters)
    requires NoZeros(a)
    ensures Over(a, b) <==> Leq(b, a) && !Leq(a, b)
  {
    if Leq(b, a) && !Leq(a, b) {
      var k :| k in a && a[k] > Get(b, k);
    }
  }

  /** In general it also fires when the two read the same and `v` merely stores a zero the other lacks. */
  lemma OverExactIff(a: Counters, b: Counters)
    ensures (Over(a, b) <==> Leq(b, a) && !Leq(a, b)) <==> !(Leq(a, b) && Leq(b, a) && !(a.Keys <= b.Keys))
  {
    if Leq(b, a) && !Leq(a, b) {
      var k :| k in a && a[k] > Get(b, k);
    }
    if Leq(a, b) {
      forall k | k in b ensures Get(a, k) <= b[k] {}
    }
  }

  ghost predicate ExactlyOne(p: bool, q: bool, r: bool, t: bool) {
    (p || q || r || t) && !(p && q) && !(p && r) && !(p && t) && !(q && r) && !(q && t) && !(r && t)
  }

  /** Of equal, newer, older and concurrent, exactly one is answered. */
  ghost predicate OneAnswer(a: Counters, b: Counters) {
    ExactlyOne(SameEntries(a, b), Over(a, b), Over(b, a), !Leq(a, b) && !Leq(b, a))
  }

  lemma FourWayExclusive(a: Counters, b: Counters)
    requires NoZeros(a)
    ensures OneAnswer(a, b)
  {
    SameEntriesWithoutZeros(a, b);
    OverExactIff(a, b);
    OverExactIff(b, a);
    if Leq(a, b) && Leq(b, a) {
      assert forall k :: k in a ==> k in b && a[k] == b[k];
      EqualityIsSize(a, b);
      if |a| == |b| { Finite.SubsetSameSize(a.Keys, b.Keys); }
      if b.Keys <= a.Keys { assert a.Keys == b.Keys; }
    }
  }

  /** Against every version exactly one of the four answers is given, exactly when this one stores no zero. */
  lemma FourWayIff(a: Counters)
    ensures (forall b :: OneAnswer(a, b)) <==> NoZeros(a)
  {
    if NoZeros(a) {
      forall b ensures OneAnswer(a, b) { FourWayExclusive(a, b); }
    } else {
      var k :| k in a && a[k] == 0;
      var n := FreshId(a.Keys);
      var y: NodeId := seq(n, _ => 0);
      var b := (a - {k})[y := 0];
      assert y !in a && k !in b;
      assert Leq(a, b) && Leq(b, a);
      assert Over(a, b) && Over(b, a);
      assert !OneAnswer(a, b);
    }
  }

  /** `Descends` is a partial order, up to `Equals` on built versions; in general up to stored zeros. */
  lemma DescendsIsAPartialOrder(a: Counters, b: Counters, c: Counters)
    ensures Leq(a, a)
    ensures Leq(a, b) && Leq(b, c) ==> Leq(a, c)
    ensures NoZeros(a) && NoZeros(b) ==> (Leq(a, b) && Leq(b, a) <==> SameEntries(a, b))
    ensures Leq(a, b) && Leq(b, a) ==> (SameEntries(a, b) <==> |a| == |b|)
  {
    if NoZeros(a) { SameEntriesWithoutZeros(a, b); }
    if Leq(a, b) && Leq(b, a) {
      EqualityIsSize(a, b);
      if NoZeros(a) && NoZeros(b) { LeqAntisymmetric(a, b); }
    }
    if Leq(a, b) && Leq(b, c) { LeqTransitive(a, b, c); }
  }

  /** Every key that `a` stores as zero is a key of `b`. */
  predicate ZerosIn(a: Counters, b: Counters) { forall k :: k in a && a[k] == 0 ==> k in b }

  /** `Merge` is commutative exactly when each side has the keys the other stores as zero; on built versions, always. */
  lemma MergeCommutesIff(a: Counters, b: Counters)
    ensures Merge(a, b) == Merge(b, a) <==> ZerosIn(a, b) && ZerosIn(b, a)
    ensures NoZeros(a) && NoZeros(b) ==> Merge(a, b) == Merge(b, a)
  {
    var m, w := Merge(a, b), Merge(b, a);
    if m == w {
      forall k | k in a && a[k] == 0 ensures k in b { assert k in m; }
      forall k | k in b && b[k] == 0 ensures k in a { assert k in w; }
    }
    if ZerosIn(a, b) && ZerosIn(b, a) {
      assert m.Keys == w.Keys;
      assert forall k :: k in m ==> m[k] == w[k];
    }
  }

  /** A merge gives back its second operand exactly when that descends from the first, up to keys stored as zero. */
  lemma MergeAbsorbsIff(a: Counters, b: Counters)
    ensures Merge(a, b) == b <==> Leq(a, b) && ZerosIn(a, b) && ZerosIn(b, a)
    ensures NoZeros(a) && NoZeros(b) ==> (Merge(a, b) == b <==> Leq(a, b))
    ensures Merge(a, a) == a
  {
    var m := Merge(a, b);
    MergeIsLeastUpperBound(a, b, b);
    if m == b {
      forall k | k in a && a[k] == 0 ensures k in b { assert k in m; }
      forall k | k in b && b[k] == 0 ensures k in a { assert k in m; }
    }
    if Leq(a, b) && ZerosIn(a, b) && ZerosIn(b, a) {
      assert m.Keys == b.Keys;
      assert forall k :: k in m ==> m[k] == b[k];
    }
  }

  /** What a merge of three holds at one key, however it is bracketed. */
  lemma MergeThree(a: Counters, b: Counters, c: Counters, k: NodeId)
    ensures var l, r, most := Merge(Merge(a, b), c), Merge(a, Merge(b, c)), Max(Get(a, k), Max(Get(b, k), Get(c, k)));
            && (k in l <==> k in a || Get(b, k) > 0 || Get(c, k) > 0)
            && (k in r <==> k in a || Get(b, k) > 0 || Get(c, k) > 0)
            && Get(l, k) == most == Get(r, k)
  {
    MergeGet(a, b, k);
    MergeGet(b, c, k);
    MergeGet(Merge(a, b), c, k);
    MergeGet(a, Merge(b, c), k);
  }

  lemma SameMap(l: Counters, r: Counters)
    requires forall k :: (k in l <==> k in r) && Get(l, k) == Get(r, k)
    ensures l == r
  {
    forall k | k in l ensures k in r && l[k] == r[k] { assert Get(l, k) == Get(r, k); }
  }

  /** `Merge` is associative on all versions. */
  lemma MergeAssociates(a: Counters, b: Counters, c: Counters)
    ensures Merge(Merge(a, b), c) == Merge(a, Merge(b, c))
  {
    var l, r := Merge(Merge(a, b), c), Merge(a, Merge(b, c));
    forall k ensures (k in l <==> k in r) && Get(l, k) == Get(r, k) { MergeThree(a, b, c, k); }
    SameMap(l, r);
  }

  /** A counter wrapped after 2^64 increments is a stored zero: merging stops commuting, and `Dominates` overclaims. */
  lemma StoredZeroBreaksMerge(x: NodeId) returns (wrapped: Build)
    ensures Depth(wrapped) == TWO64 && Eval(wrapped) == map[x := 0]
    ensures Merge(Eval(wrapped), Eval(New)) != Merge(Eval(New), Eval(wrapped))
    ensures Over(Eval(wrapped), Eval(New)) && Leq(Eval(wrapped), Eval(New))
  {
    wrapped := IncrementMany(New, TWO64, x);
    assert x in Merge(Eval(wrapped), Eval(New)) && x in Eval(wrapped) && x !in Eval(New);
  }

  /** A write dominates what it read, exactly unless its actor's counter wraps. */
  lemma IncrementDominatesIff(v: Counters, actor: NodeId)
    ensures Over(Bump(v, actor), v) <==> Get(v, actor) < TWO64 - 1
  {
    var w := Bump(v, actor);
    if Get(v, actor) < TWO64 - 1 {
      assert if actor in v then Get(w, actor) > v[actor] else actor in w;
    } else {
      assert v[actor] > Get(w, actor);
    }
  }

  /** Two actors writing from the same version leave siblings exactly unless just one of their counters wraps. */
  lemma ForksAreConcurrentIff(v: Counters, x: NodeId, y: NodeId)
    requires x != y
    ensures !Leq(Bump(v, x), Bump(v, y)) && !Leq(Bump(v, y), Bump(v, x))
            <==> (Get(v, x) < TWO64 - 1 <==> Get(v, y) < TWO64 - 1)
  {
    var a, b := Bump(v, x), Bump(v, y);
    assert forall k :: k != x && k != y ==> Get(a, k) == Get(b, k) == Get(v, k);
    LeqPointwise(a, b);
    LeqPointwise(b, a);
    assert Get(b, x) == Get(v, x) && Get(a, y) == Get(v, y);
  }

  // ---------- Last write wins ----------

  datatype Sibling<T> = Sibling(version: Version, value: T)

  /** What `dotSum` computes, in any iteration order: the sum of the counters modulo 2^64. */
  ghost function WrappedSum(v: Version): uint64 { Sum(v.dots) % TWO64 }

  method DotSum(v: Version) returns (sum: uint64)
    ensures sum == WrappedSum(v)
  {
    sum := 0;
    var todo := v.dots.Keys;
    assert v.dots - todo == map[];
    while todo != {}
      invariant todo <= v.dots.Keys
      invariant sum == Sum(v.dots - todo) % TWO64
    {
      var k :| k in todo;
      var c := v.dots[k];
      ghost var seen := v.dots - (todo - {k});
      SumRemove(seen, k);
      assert seen - {k} == v.dots - todo;
      sum := (sum + c) % TWO64;
      todo := todo - {k};
    }
    assert v.dots - todo == v.dots;
  }

  /** Position `i` holds the first of the siblings with the largest sum. */
  ghost predicate IsFirstLargest<T>(siblings: seq<Sibling<T>>, i: nat) {
    && i < |siblings|
    && (forall j :: 0 <= j < |siblings| ==> WrappedSum(siblings[j].version) <= WrappedSum(siblings[i].version))
    && (forall j :: 0 <= j < i ==> WrappedSum(siblings[j].version) < WrappedSum(siblings[i].version))
  }

  /** `None` stands for the panic on an empty slice. */
  method ResolveLatestWriteWins<T>(siblings: seq<Sibling<T>>) returns (r: Option<Sibling<T>>)
    ensures r == None <==> siblings == []
    ensures r.Some? ==>
              exists i: nat :: i < |siblings| && siblings[i] == r.value && forall j: nat :: j < |siblings| ==>
                var mine, its := Sum(r.value.version.dots) % TWO64, Sum(siblings[j].version.dots) % TWO64;
                its <= mine && (its == mine ==> i <= j)
    ensures r.Some? ==> exists i: nat :: IsFirstLargest(siblings, i) && siblings[i] == r.value
  {
    if |siblings| == 0 { return None; }
    var bestIdx: nat := 0;
    var bestSum := DotSum(siblings[0].version);
    for i := 0 to |siblings|
      invariant bestIdx < |siblings| && (bestIdx < i || bestIdx == 0)
      invariant bestSum == WrappedSum(siblings[bestIdx].version)
      invariant forall j :: 0 <= j < i ==> WrappedSum(siblings[j].version) <= bestSum
      invariant forall j :: 0 <= j < bestIdx ==> WrappedSum(siblings[j].version) < bestSum
    {
      var s := DotSum(siblings[i].version);
      if s > bestSum {
        bestSum := s;
        bestIdx := i;
      }
    }
    assert IsFirstLargest(siblings, bestIdx);
    return Some(siblings[bestIdx]);
  }

  /** While sums fit, domination raises the sum, so no sibling dominates the winner. */
  lemma WinnerIsUndominated<T>(siblings: seq<Sibling<T>>, i: nat, j: nat)
    requires IsFirstLargest(siblings, i) && j < |siblings|
    requires NoZeros(siblings[j].version.dots) && Sum(siblings[j].version.dots) < TWO64
    ensures !Over(siblings[j].version.dots, siblings[i].version.dots)
  {
    var a, b := siblings[j].version.dots, siblings[i].version.dots;
    OverIsStrict(a, b);
    assert WrappedSum(siblings[j].version) == Sum(a);
    assert Sum(b) < TWO64 ==> WrappedSum(siblings[i].version) == Sum(b);
    if Leq(b, a) { SumMonotone(b, a); }
  }

  /** Siblings that store no zero and whose sums do not pass the limit. */
  ghost predicate SumsWithin<T>(siblings: seq<Sibling<T>>, limit: nat) {
    forall j :: 0 <= j < |siblings| ==>
      NoZeros(siblings[j].version.dots) && Sum(siblings[j].version.dots) <= limit
  }

  ghost predicate Undominated<T>(siblings: seq<Sibling<T>>, i: nat)
    requires i < |siblings|
  {
    forall j :: 0 <= j < |siblings| ==> !Over(siblings[j].version.dots, siblings[i].version.dots)
  }

  /** A limit on the sums keeps the winner undominated, whatever the siblings, exactly when it fits a `uint64`. */
  lemma WinnerUndominatedIff<T(!new)>(limit: nat, t: T)
    ensures (forall siblings: seq<Sibling<T>>, i: nat ::
              SumsWithin(siblings, limit) && IsFirstLargest(siblings, i) ==> Undominated(siblings, i))
            <==> limit < TWO64
  {
    if limit < TWO64 {
      forall siblings: seq<Sibling<T>>, i: nat | SumsWithin(siblings, limit) && IsFirstLargest(siblings, i)
        ensures Undominated(siblings, i)
      {
        forall j | 0 <= j < |siblings| ensures !Over(siblings[j].version.dots, siblings[i].version.dots) {
          WinnerIsUndominated(siblings, i, j);
        }
      }
    } else {
      var _, _, siblings := WrappedSumPicksDominated([], [0], t);
      assert SumsWithin(siblings, limit);
      assert Over(siblings[0].version.dots, siblings[1].version.dots) && !Undominated(siblings, 1);
    }
  }

  lemma TwoCounters(x: NodeId, y: NodeId, n: uint64)
    requires x != y
    ensures var a, b: Counters := map[x := n, y := 1], map[y := 1];
            Sum(b) == 1 && Sum(a) == n + 1 && (n > 0 ==> NoZeros(a) && Over(a, b))
  {
    var a, b: Counters := map[x := n, y := 1], map[y := 1];
    assert x in a && x !in b;
    SumRemove(a, x);
    assert a - {x} == b;
    SumRemove(b, y);
    assert b - {y} == map[];
  }

  lemma WrappedSumLoses<T>(a: Counters, b: Counters, t: T)
    requires NoZeros(a) && NoZeros(b) && Sum(a) == TWO64 && 0 < Sum(b) < TWO64
    ensures var siblings := [Sibling(Version(a), t), Sibling(Version(b), t)];
            SumsWithin(siblings, TWO64) && IsFirstLargest(siblings, 1)
  {
    var siblings := [Sibling(Version(a), t), Sibling(Version(b), t)];
    assert WrappedSum(siblings[0].version) == 0 && WrappedSum(siblings[1].version) == Sum(b);
  }

  /** When a sum wraps, the winner can be a version that the other sibling dominates, though no counter has wrapped. */
  lemma WrappedSumPicksDominated<T>(x: NodeId, y: NodeId, t: T)
      returns (a: Build, b: Build, siblings: seq<Sibling<T>>)
    requires x != y
    ensures Depth(a) < TWO64 && Depth(b) < TWO64
    ensures siblings == [Sibling(Version(Eval(a)), t), Sibling(Version(Eval(b)), t)]
    ensures SumsWithin(siblings, TWO64) && Over(Eval(a), Eval(b)) && IsFirstLargest(siblings, 1)
  {
    var more, less: Counters := map[x := 0xffff_ffff_ffff_ffff, y := 1], map[y := 1];
    TwoCounters(x, y, 0xffff_ffff_ffff_ffff);
    a := BuildZeroFree(more);
    b := BuildZeroFree(less);
    WrappedSumLoses(more, less, t);
    siblings := [Sibling(Version(Eval(a)), t), Sibling(Version(Eval(b)), t)];
  }
}
