/** The histories behind dotted versions: when comparing counters is comparing sets of increments. */
module DottedHistory {
  import opened Words
  import opened Counters

  /** How each version of a store comes about, from versions named by their positions. */
  datatype Op = Fresh | Increment(of: nat, actor: NodeId) | Join(left: nat, right: nat)

  /** Versions are made of earlier ones. */
  predicate WellFormed(ops: seq<Op>) {
    forall k :: 0 <= k < |ops| ==>
      match ops[k]
      case Fresh => true
      case Increment(of, _) => of < k
      case Join(left, right) => left < k && right < k
  }

  function Version(ops: seq<Op>, k: nat): Counters
    requires WellFormed(ops) && k < |ops|
  {
    match ops[k]
    case Fresh => map[]
    case Increment(of, actor) => Bump(Version(ops, of), actor)
    case Join(left, right) => Merge(Version(ops, left), Version(ops, right))
  }

  /** The increments behind a version, each known by its position: no two are the same event. */
  function History(ops: seq<Op>, k: nat): (h: set<nat>)
    requires WellFormed(ops) && k < |ops|
    ensures forall e :: e in h ==> e <= k && ops[e].Increment?
  {
    match ops[k]
    case Fresh => {}
    case Increment(of, _) => History(ops, of) + {k}
    case Join(left, right) => History(ops, left) + History(ops, right)
  }

  predicate By(ops: seq<Op>, e: nat, actor: NodeId) {
    e < |ops| && ops[e].Increment? && ops[e].actor == actor
  }

  /** The number of increments by `actor` among the first `n` operations. */
  function CountOf(ops: seq<Op>, n: nat, actor: NodeId): (c: nat)
    requires n <= |ops|
    ensures c <= n
  {
    if n == 0 then 0 else CountOf(ops, n - 1, actor) + if By(ops, n - 1, actor) then 1 else 0
  }

  /** The place of an increment among those of its actor, from 1. */
  function Rank(ops: seq<Op>, e: nat): nat
    requires e < |ops| && ops[e].Increment?
  {
    CountOf(ops, e + 1, ops[e].actor)
  }

  /** No counter has to wrap. */
  ghost predicate Counted(ops: seq<Op>) {
    forall e: nat :: e < |ops| && ops[e].Increment? ==> Rank(ops, e) < TWO64
  }

  /** Each actor increments only versions that contain all it has written before. */
  ghost predicate Disciplined(ops: seq<Op>)
    requires WellFormed(ops)
  {
    forall e: nat, k: nat :: e < k < |ops| && ops[k].Increment? && By(ops, e, ops[k].actor) ==>
      e in History(ops, ops[k].of)
  }

  lemma {:induction false} CountMonotone(ops: seq<Op>, m: nat, n: nat, actor: NodeId)
    requires m <= n <= |ops|
    ensures CountOf(ops, m, actor) <= CountOf(ops, n, actor)
  {
    if m < n { CountMonotone(ops, m, n - 1, actor); }
  }

  lemma RankOrders(ops: seq<Op>, d: nat, e: nat)
    requires e < |ops| && ops[e].Increment? && By(ops, d, ops[e].actor)
    ensures Rank(ops, d) <= Rank(ops, e) <==> d <= e
  {
    if d < e {
      CountMonotone(ops, d + 1, e, ops[e].actor);
    } else if e < d {
      CountMonotone(ops, e + 1, d, ops[e].actor);
    }
  }

  // ---------- A version knows its history ----------

  /** The entry for `actor` is the rank of an increment in `h`. */
  ghost predicate Witnessed(ops: seq<Op>, h: set<nat>, actor: NodeId, rank: nat) {
    exists e :: e in h && By(ops, e, actor) && Rank(ops, e) == rank
  }

  /** `v` stands for `h`: of each actor's increments, the first `v[actor]`, the last of them being in `h`. */
  ghost predicate Knows(ops: seq<Op>, v: Counters, h: set<nat>) {
    && (forall e: nat :: e < |ops| && ops[e].Increment? ==> (e in h <==> Rank(ops, e) <= Get(v, ops[e].actor)))
    && (forall q :: q in v ==> Witnessed(ops, h, q, v[q]))
  }

  lemma WitnessMonotone(ops: seq<Op>, h: set<nat>, g: set<nat>, actor: NodeId, rank: nat)
    requires h <= g && Witnessed(ops, h, actor, rank)
    ensures Witnessed(ops, g, actor, rank)
  {
    var e :| e in h && By(ops, e, actor) && Rank(ops, e) == rank;
    assert e in g;
  }

  lemma MergeKnows(ops: seq<Op>, a: Counters, h: set<nat>, b: Counters, g: set<nat>)
    requires Knows(ops, a, h) && Knows(ops, b, g)
    ensures Knows(ops, Merge(a, b), h + g)
  {
    var m := Merge(a, b);
    forall e: nat | e < |ops| && ops[e].Increment?
      ensures e in h + g <==> Rank(ops, e) <= Get(m, ops[e].actor)
    {
      MergeGet(a, b, ops[e].actor);
    }
    forall q | q in m ensures Witnessed(ops, h + g, q, m[q]) {
      if q in a && m[q] == a[q] {
        WitnessMonotone(ops, h, h + g, q, a[q]);
      } else {
        WitnessMonotone(ops, g, h + g, q, b[q]);
      }
    }
  }

  lemma {:induction false} LastBy(ops: seq<Op>, n: nat, actor: NodeId) returns (e: nat)
    requires n <= |ops| && CountOf(ops, n, actor) > 0
    ensures e < n && By(ops, e, actor) && Rank(ops, e) == CountOf(ops, n, actor)
  {
    if By(ops, n - 1, actor) { e := n - 1; } else { e := LastBy(ops, n - 1, actor); }
  }

  /** The entry a disciplined actor increments counts all it has written. */
  lemma OwnEntry(ops: seq<Op>, v: Counters, h: set<nat>, k: nat)
    requires k < |ops| && ops[k].Increment? && Knows(ops, v, h) && forall e :: e in h ==> e < k
    requires forall e: nat :: e < k && By(ops, e, ops[k].actor) ==> e in h
    ensures Get(v, ops[k].actor) == CountOf(ops, k, ops[k].actor)
  {
    var x := ops[k].actor;
    if x in v {
      assert Witnessed(ops, h, x, v[x]);
      var e :| e in h && By(ops, e, x) && Rank(ops, e) == v[x];
      CountMonotone(ops, e + 1, k, x);
    }
    if CountOf(ops, k, x) > 0 {
      var e := LastBy(ops, k, x);
      assert e in h;
    }
  }

  lemma BumpKnows(ops: seq<Op>, v: Counters, h: set<nat>, k: nat)
    requires k < |ops| && ops[k].Increment? && Knows(ops, v, h) && forall e :: e in h ==> e < k
    requires forall e: nat :: e < k && By(ops, e, ops[k].actor) ==> e in h
    requires Rank(ops, k) < TWO64
    ensures Knows(ops, Bump(v, ops[k].actor), h + {k})
  {
    var x := ops[k].actor;
    var w := Bump(v, x);
    OwnEntry(ops, v, h, k);
    assert Get(w, x) == Rank(ops, k);
    forall e: nat | e < |ops| && ops[e].Increment?
      ensures e in h + {k} <==> Rank(ops, e) <= Get(w, ops[e].actor)
    {
      if ops[e].actor == x { RankOrders(ops, e, k); }
    }
    forall q | q in w ensures Witnessed(ops, h + {k}, q, w[q]) {
      if q == x {
        assert k in h + {k} && By(ops, k, x);
      } else {
        WitnessMonotone(ops, h, h + {k}, q, v[q]);
      }
    }
  }

  lemma {:induction false} VersionKnows(ops: seq<Op>, k: nat)
    requires WellFormed(ops) && Disciplined(ops) && Counted(ops) && k < |ops|
    ensures Knows(ops, Version(ops, k), History(ops, k))
  {
    match ops[k] {
      case Fresh =>
      case Increment(of, actor) =>
        VersionKnows(ops, of);
        BumpKnows(ops, Version(ops, of), History(ops, of), k);
      case Join(left, right) =>
        VersionKnows(ops, left);
        VersionKnows(ops, right);
        MergeKnows(ops, Version(ops, left), History(ops, left), Version(ops, right), History(ops, right));
    }
  }

  // ---------- Descends is inclusion ----------

  /** What `Descends` promises: it compares the histories of any two versions. */
  ghost predicate Telling(ops: seq<Op>)
    requires WellFormed(ops)
  {
    forall i: nat, j: nat :: i < |ops| && j < |ops| ==>
      (Leq(Version(ops, i), Version(ops, j)) <==> History(ops, i) <= History(ops, j))
  }

  lemma LeqIsInclusion(ops: seq<Op>, a: Counters, h: set<nat>, b: Counters, g: set<nat>)
    requires Knows(ops, a, h) && Knows(ops, b, g)
    requires forall e :: e in h ==> e < |ops| && ops[e].Increment?
    ensures Leq(a, b) <==> h <= g
  {
    if h <= g {
      forall q | q in a ensures a[q] <= Get(b, q) {
        WitnessMonotone(ops, h, g, q, a[q]);
        var e :| e in g && By(ops, e, q) && Rank(ops, e) == a[q];
      }
    }
    if Leq(a, b) {
      forall e | e in h ensures e in g {
        var x := ops[e].actor;
        assert Rank(ops, e) <= Get(a, x) <= Get(b, x);
      }
    }
  }

  /** While every actor is disciplined, `Descends` is exactly inclusion of histories. */
  lemma DisciplinedIsTelling(ops: seq<Op>)
    requires WellFormed(ops) && Disciplined(ops) && Counted(ops)
    ensures Telling(ops)
  {
    forall i: nat, j: nat | i < |ops| && j < |ops|
      ensures Leq(Version(ops, i), Version(ops, j)) <==> History(ops, i) <= History(ops, j)
    {
      VersionKnows(ops, i);
      VersionKnows(ops, j);
      LeqIsInclusion(ops, Version(ops, i), History(ops, i), Version(ops, j), History(ops, j));
    }
  }

  // ---------- And only then ----------

  lemma {:induction false} PrefixAgrees(ops: seq<Op>, n: nat, k: nat)
    requires WellFormed(ops) && k < n <= |ops|
    ensures WellFormed(ops[..n])
    ensures Version(ops[..n], k) == Version(ops, k) && History(ops[..n], k) == History(ops, k)
  {
    match ops[k] {
      case Fresh =>
      case Increment(of, _) => PrefixAgrees(ops, n, of);
      case Join(left, right) =>
        PrefixAgrees(ops, n, left);
        PrefixAgrees(ops, n, right);
    }
  }

  lemma {:induction false} PrefixCounts(ops: seq<Op>, n: nat, m: nat, actor: NodeId)
    requires m <= n <= |ops|
    ensures CountOf(ops[..n], m, actor) == CountOf(ops, m, actor)
  {
    if m > 0 { PrefixCounts(ops, n, m - 1, actor); }
  }

  /** A lapse: an actor writes on a version that lacks something it wrote before. */
  ghost predicate Lapse(ops: seq<Op>, e: nat, k: nat)
    requires WellFormed(ops)
  {
    && e < k < |ops| && ops[k].Increment? && By(ops, e, ops[k].actor)
    && e !in History(ops, ops[k].of)
  }

  lemma UndisciplinedLapses(ops: seq<Op>) returns (e: nat, k: nat)
    requires WellFormed(ops) && !Disciplined(ops)
    ensures Lapse(ops, e, k)
  {
    e, k :| e < k < |ops| && ops[k].Increment? && By(ops, e, ops[k].actor) && e !in History(ops, ops[k].of);
  }

  lemma PrefixDisciplined(ops: seq<Op>, n: nat)
    requires WellFormed(ops) && n <= |ops| && forall e: nat, k: nat :: k < n ==> !Lapse(ops, e, k)
    ensures WellFormed(ops[..n]) && Disciplined(ops[..n])
  {
    var pre := ops[..n];
    forall e: nat, k: nat | e < k < n && pre[k].Increment? && By(pre, e, pre[k].actor)
      ensures e in History(pre, pre[k].of)
    {
      assert !Lapse(ops, e, k);
      PrefixAgrees(ops, n, pre[k].of);
    }
  }

  lemma PrefixCounted(ops: seq<Op>, n: nat)
    requires Counted(ops) && n <= |ops|
    ensures Counted(ops[..n])
  {
    forall e: nat | e < n && ops[e].Increment? ensures Rank(ops[..n], e) < TWO64 {
      PrefixCounts(ops, n, e + 1, ops[e].actor);
    }
  }

  lemma {:induction false} FirstLapse(ops: seq<Op>, n: nat) returns (e: nat, k: nat)
    requires WellFormed(ops) && n <= |ops| && exists e: nat, k: nat :: k < n && Lapse(ops, e, k)
    ensures k < n && Lapse(ops, e, k) && forall d: nat, m: nat :: m < k ==> !Lapse(ops, d, m)
  {
    if d: nat, m: nat :| m < n - 1 && Lapse(ops, d, m) {
      e, k := FirstLapse(ops, n - 1);
    } else {
      e, k :| k < n && Lapse(ops, e, k);
    }
  }

  lemma BumpBelow(v: Counters, w: Counters, x: NodeId)
    requires Get(v, x) < Get(w, x)
    ensures Leq(Bump(v, x), Merge(v, w))
  {
    forall q | q in Bump(v, x) ensures Bump(v, x)[q] <= Get(Merge(v, w), q) { MergeGet(v, w, q); }
  }

  /** After the first lapse, merging what it missed hides it: the merge descends from a write it does not contain. */
  lemma LapseIsHidden(ops: seq<Op>, e: nat, k: nat)
    requires WellFormed(ops) && Counted(ops) && Lapse(ops, e, k)
    requires forall d: nat, m: nat :: m < k ==> !Lapse(ops, d, m)
    ensures Leq(Version(ops, k), Merge(Version(ops, ops[k].of), Version(ops, e)))
    ensures k in History(ops, k) && k !in History(ops, ops[k].of) + History(ops, e)
  {
    var pre, of, x := ops[..k], ops[k].of, ops[k].actor;
    PrefixDisciplined(ops, k);
    PrefixCounted(ops, k);
    PrefixAgrees(ops, k, of);
    PrefixAgrees(ops, k, e);
    VersionKnows(pre, of);
    VersionKnows(pre, e);
    var v, w := Version(ops, of), Version(ops, e);
    assert Rank(pre, e) > Get(v, x);
    assert e in History(pre, e) && Rank(pre, e) <= Get(w, x);
    BumpBelow(v, w, x);
  }

  lemma JoinAdded(ops: seq<Op>, l: nat, r: nat)
    requires WellFormed(ops) && l < |ops| && r < |ops|
    ensures var more := ops + [Join(l, r)];
            && WellFormed(more)
            && (Counted(ops) ==> Counted(more)) && (Disciplined(ops) ==> Disciplined(more))
            && Version(more, |ops|) == Merge(Version(ops, l), Version(ops, r))
            && History(more, |ops|) == History(ops, l) + History(ops, r)
            && forall k: nat :: k < |ops| ==> Version(more, k) == Version(ops, k) && History(more, k) == History(ops, k)
  {
    var more := ops + [Join(l, r)];
    assert more[..|ops|] == ops;
    forall k: nat | k < |ops| ensures Version(more, k) == Version(ops, k) && History(more, k) == History(ops, k) {
      PrefixAgrees(more, |ops|, k);
    }
    forall e: nat | e < |ops| && ops[e].Increment? ensures Rank(more, e) == Rank(ops, e) {
      PrefixCounts(more, |ops|, e + 1, ops[e].actor);
    }
  }

  /**
   * `Descends` compares the histories of the versions there are, and of any two of them merged, exactly when every
   * actor increments only versions that contain all it has written.
   */
  lemma TellingIff(ops: seq<Op>)
    requires WellFormed(ops) && Counted(ops)
    ensures (forall l: nat, r: nat | l < |ops| && r < |ops| ::
              WellFormed(ops + [Join(l, r)]) && Telling(ops + [Join(l, r)]))
            <==> Disciplined(ops)
  {
    if Disciplined(ops) {
      forall l: nat, r: nat | l < |ops| && r < |ops|
        ensures WellFormed(ops + [Join(l, r)]) && Telling(ops + [Join(l, r)])
      {
        JoinAdded(ops, l, r);
        DisciplinedIsTelling(ops + [Join(l, r)]);
      }
    } else {
      var d, m := UndisciplinedLapses(ops);
      var e, k := FirstLapse(ops, |ops|);
      LapseIsHidden(ops, e, k);
      JoinAdded(ops, ops[k].of, e);
      var more := ops + [Join(ops[k].of, e)];
      assert Leq(Version(more, k), Version(more, |ops|)) && !(History(more, k) <= History(more, |ops|));
    }
  }

  /** Two increments by one actor of the same version are equal versions: one of the two writes is lost. */
  lemma LostWrite(x: NodeId)
    ensures var ops := [Fresh, Increment(0, x), Increment(0, x)];
            && WellFormed(ops) && Version(ops, 1) == Version(ops, 2)
            && !(History(ops, 1) <= History(ops, 2)) && !(History(ops, 2) <= History(ops, 1))
  {
    var ops := [Fresh, Increment(0, x), Increment(0, x)];
    assert History(ops, 0) == {};
    assert 1 in History(ops, 1) && 2 in History(ops, 2);
  }
}
