/** What the topological sort guarantees, for any relation and in particular for partial orders. */
module SortTheorem {
  import opened Words
  import opened PartialOrder
  import opened Finite

  // ---------- The greedy characterisation ----------

  /** `c` is the first of the ready positions in the tie-break order. */
  ghost predicate LeastReady<T, D>(ev: seq<Event<T, D>>, hb: (T, T) -> bool, done: seq<nat>, c: nat) {
    && Ready(ev, hb, done, c)
    && forall i: nat :: Ready(ev, hb, done, i) ==> i == c || TieLess(ev, c, i)
  }

  ghost predicate Greedy<T, D>(ev: seq<Event<T, D>>, hb: (T, T) -> bool, s: seq<nat>) {
    InRange(ev, s) && forall k :: 0 <= k < |s| ==> LeastReady(ev, hb, s[..k], s[k])
  }

  ghost predicate Stuck<T, D>(ev: seq<Event<T, D>>, hb: (T, T) -> bool, s: seq<nat>) {
    forall i: nat :: !Ready(ev, hb, s, i)
  }

  lemma {:induction false} NextIsFirst<T, D>(ev: seq<Event<T, D>>, hb: (T, T) -> bool, done: seq<nat>, order: seq<nat>)
    requires ScanSorted(ev, order)
    ensures var r := Next(ev, hb, done, order);
            && (r == None ==> forall i :: i in order ==> !Ready(ev, hb, done, i))
            && (r.Some? ==> forall i :: i in order && Ready(ev, hb, done, i) ==>
                  i == r.value || TieLess(ev, r.value, i))
  {
    if order != [] {
      NextIsFirst(ev, hb, done, order[1..]);
      assert forall i :: i in order <==> i == order[0] || i in order[1..];
      forall i | i in order[1..] ensures TieLess(ev, order[0], i) {
        var q :| 1 <= q < |order| && order[q] == i;
      }
    }
  }

  lemma NextIsLeastReady<T, D>(ev: seq<Event<T, D>>, hb: (T, T) -> bool, done: seq<nat>)
    ensures var r := Next(ev, hb, done, ScanOrder(ev, 0));
            && (r == None ==> Stuck(ev, hb, done))
            && (r.Some? ==> LeastReady(ev, hb, done, r.value))
  {
    ScanOrderSorted(ev, 0);
    NextIsFirst(ev, hb, done, ScanOrder(ev, 0));
    forall i: nat | Ready(ev, hb, done, i) ensures i in ScanOrder(ev, 0) {}
  }

  lemma GreedyIsDistinct<T, D>(ev: seq<Event<T, D>>, hb: (T, T) -> bool, s: seq<nat>)
    requires Greedy(ev, hb, s)
    ensures Distinct(s) && |s| <= |ev|
    ensures |s| == |ev| ==> forall i: nat :: i < |ev| ==> i in s
  {
    forall a, b | 0 <= a < b < |s| ensures s[a] != s[b] {
      assert LeastReady(ev, hb, s[..b], s[b]);
      assert s[a] in s[..b];
    }
    DistinctIndices(s, |ev|);
  }

  /** The loop emits the least ready event each time, and stops only when nothing is ready. */
  lemma {:induction false} KahnIsGreedy<T, D>(ev: seq<Event<T, D>>, hb: (T, T) -> bool, done: seq<nat>)
    requires Greedy(ev, hb, done)
    ensures Greedy(ev, hb, Kahn(ev, hb, done)) && Stuck(ev, hb, Kahn(ev, hb, done))
    decreases |ev| - |done|
  {
    GreedyIsDistinct(ev, hb, done);
    if |done| < |ev| {
      NextIsLeastReady(ev, hb, done);
      var r := Next(ev, hb, done, ScanOrder(ev, 0));
      if r.Some? {
        var next := done + [r.value];
        forall k | 0 <= k < |next| ensures LeastReady(ev, hb, next[..k], next[k]) {
          assert next[..k] == done[..k];
          assert done[..|done|] == done;
        }
        KahnIsGreedy(ev, hb, next);
      }
    }
  }

  /** For every relation at all, the output never puts an event before one of its predecessors. */
  lemma SortRespects<T, D>(ev: seq<Event<T, D>>, hb: (T, T) -> bool, i: nat, b: nat)
    requires i < |ev| && b < |Kahn(ev, hb, [])| && Prec(ev, hb, i, Kahn(ev, hb, [])[b])
    ensures i in Kahn(ev, hb, [])[..b]
  {
    KahnIsGreedy(ev, hb, []);
    assert LeastReady(ev, hb, Kahn(ev, hb, [])[..b], Kahn(ev, hb, [])[b]);
  }

  // ---------- Getting stuck ----------

  /** A nonempty sequence of positions each preceding the next. */
  ghost predicate Path<T, D>(ev: seq<Event<T, D>>, hb: (T, T) -> bool, c: seq<nat>) {
    c != [] && InRange(ev, c) && forall k :: 0 < k < |c| ==> Prec(ev, hb, c[k - 1], c[k])
  }

  /** A path whose last position precedes its first. */
  ghost predicate Cycle<T, D>(ev: seq<Event<T, D>>, hb: (T, T) -> bool, c: seq<nat>) {
    Path(ev, hb, c) && Prec(ev, hb, c[|c| - 1], c[0])
  }

  /** From any position left over, predecessors lead back forever among those left over. */
  lemma {:induction false} WalkBack<T, D>(ev: seq<Event<T, D>>, hb: (T, T) -> bool, done: seq<nat>, start: nat, m: nat)
      returns (w: seq<nat>)
    requires Stuck(ev, hb, done) && start < |ev| && start !in done
    ensures |w| == m + 1 && InRange(ev, w) && forall k :: 0 <= k <= m ==> w[k] !in done
    ensures forall k :: 0 < k <= m ==> Prec(ev, hb, w[k], w[k - 1])
  {
    if m == 0 {
      w := [start];
    } else {
      var v := WalkBack(ev, hb, done, start, m - 1);
      var last := v[m - 1];
      assert !Ready(ev, hb, done, last);
      var p: nat :| p < |ev| && Prec(ev, hb, p, last) && p !in done;
      w := v + [p];
    }
  }

  lemma StuckHasCycle<T, D>(ev: seq<Event<T, D>>, hb: (T, T) -> bool, done: seq<nat>, start: nat) returns (c: seq<nat>)
    requires Stuck(ev, hb, done) && start < |ev| && start !in done
    ensures Cycle(ev, hb, c) && forall k :: 0 <= k < |c| ==> c[k] !in done
  {
    var w := WalkBack(ev, hb, done, start, |ev|);
    var a, b := Repeats(w, |ev|);
    c := seq(b - a, k requires 0 <= k < b - a => w[b - k]);
  }

  /** The sort drops events exactly when HappensBefore has a cycle among them. */
  lemma SortCompleteIff<T, D>(ev: seq<Event<T, D>>, hb: (T, T) -> bool)
    ensures |Kahn(ev, hb, [])| == |ev| <==> forall c :: !Cycle(ev, hb, c)
  {
    var K := Kahn(ev, hb, []);
    KahnIsGreedy(ev, hb, []);
    GreedyIsDistinct(ev, hb, K);
    if |K| < |ev| {
      if forall i: nat :: i < |ev| ==> i in K {
        DistinctSize(K);
        SubsetCardinality(Below(|ev|), Elements(K));
      }
      var start: nat :| start < |ev| && start !in K;
      var c := StuckHasCycle(ev, hb, K, start);
    } else {
      forall c | Path(ev, hb, c) ensures !Prec(ev, hb, c[|c| - 1], c[0]) { CompleteIsAcyclic(ev, hb, K, c); }
    }
  }

  /** A position of a value. */
  ghost function At(s: seq<nat>, x: nat): (p: nat)
    requires x in s
    ensures p < |s| && s[p] == x
  {
    var p :| 0 <= p < |s| && s[p] == x; p
  }

  lemma PrecIncreases<T, D>(ev: seq<Event<T, D>>, hb: (T, T) -> bool, K: seq<nat>, i: nat, j: nat)
    requires Greedy(ev, hb, K) && i < |ev| && j < |ev| && i in K && j in K
    ensures Prec(ev, hb, i, j) ==> At(K, i) < At(K, j)
  {
    GreedyIsDistinct(ev, hb, K);
    assert LeastReady(ev, hb, K[..At(K, j)], j);
    if Prec(ev, hb, i, j) {
      var q :| 0 <= q < At(K, j) && K[q] == i;
    }
  }

  /** Places in a complete output increase along a path, so its last position cannot precede its first. */
  lemma {:induction false} PathIncreases<T, D>(ev: seq<Event<T, D>>, hb: (T, T) -> bool, K: seq<nat>, c: seq<nat>)
    requires Greedy(ev, hb, K) && Path(ev, hb, c) && forall i: nat :: i < |ev| ==> i in K
    ensures At(K, c[0]) <= At(K, c[|c| - 1])
  {
    if |c| > 1 {
      PathIncreases(ev, hb, K, c[..|c| - 1]);
      PrecIncreases(ev, hb, K, c[|c| - 2], c[|c| - 1]);
    }
  }

  lemma CompleteIsAcyclic<T, D>(ev: seq<Event<T, D>>, hb: (T, T) -> bool, K: seq<nat>, c: seq<nat>)
    requires Greedy(ev, hb, K) && |K| == |ev| && Path(ev, hb, c)
    ensures !Prec(ev, hb, c[|c| - 1], c[0])
  {
    GreedyIsDistinct(ev, hb, K);
    PathIncreases(ev, hb, K, c);
    PrecIncreases(ev, hb, K, c[|c| - 1], c[0]);
  }

  /** The stamps in play are strictly partially ordered. */
  ghost predicate StrictlyOrdered<T, D>(ev: seq<Event<T, D>>, hb: (T, T) -> bool) {
    && (forall i: nat :: i < |ev| ==> !hb(ev[i].stamp, ev[i].stamp))
    && (forall i: nat, j: nat, k: nat | i < |ev| && j < |ev| && k < |ev| ::
          hb(ev[i].stamp, ev[j].stamp) && hb(ev[j].stamp, ev[k].stamp) ==> hb(ev[i].stamp, ev[k].stamp))
  }

  lemma {:induction false} PathCloses<T, D>(ev: seq<Event<T, D>>, hb: (T, T) -> bool, c: seq<nat>)
    requires StrictlyOrdered(ev, hb) && Path(ev, hb, c)
    ensures |c| > 1 ==> hb(ev[c[0]].stamp, ev[c[|c| - 1]].stamp)
    ensures !Prec(ev, hb, c[|c| - 1], c[0])
  {
    if |c| > 1 {
      PathCloses(ev, hb, c[..|c| - 1]);
      assert Prec(ev, hb, c[|c| - 2], c[|c| - 1]);
    }
  }

  /** So under a strict partial order nothing is ever dropped: the stuck branch is dead. */
  lemma StrictOrderNeverStuck<T, D>(ev: seq<Event<T, D>>, hb: (T, T) -> bool)
    requires StrictlyOrdered(ev, hb)
    ensures |Kahn(ev, hb, [])| == |ev|
    ensures Distinct(Kahn(ev, hb, [])) && forall i: nat :: i < |ev| ==> i in Kahn(ev, hb, [])
  {
    forall c | Path(ev, hb, c) ensures !Prec(ev, hb, c[|c| - 1], c[0]) { PathCloses(ev, hb, c); }
    SortCompleteIff(ev, hb);
    KahnIsGreedy(ev, hb, []);
    GreedyIsDistinct(ev, hb, Kahn(ev, hb, []));
  }

  // ---------- The output as a sequence of events ----------

  ghost function Sorted<T, D>(ev: seq<Event<T, D>>, hb: (T, T) -> bool): seq<Event<T, D>> {
    Select(ev, Kahn(ev, hb, []))
  }

  ghost predicate DistinctIds<T, D>(ev: seq<Event<T, D>>) {
    forall a, b :: 0 <= a < b < |ev| ==> ev[a].id != ev[b].id
  }

  /** No event stands before one that happens before it. */
  ghost predicate LinearExtension<T, D>(L: seq<Event<T, D>>, hb: (T, T) -> bool) {
    forall a, b :: 0 <= a < b < |L| ==> !hb(L[b].stamp, L[a].stamp)
  }

  function Without(idx: seq<nat>, p: nat): (r: seq<nat>)
    requires p < |idx|
  {
    idx[..p] + idx[p + 1..]
  }

  lemma WithoutLast(idx: seq<nat>, p: nat, n: nat)
    requires p < |idx| == n + 1 && idx[p] == n && Distinct(idx) && forall k :: 0 <= k < |idx| ==> idx[k] <= n
    ensures Distinct(Without(idx, p)) && forall k :: 0 <= k < n ==> Without(idx, p)[k] < n
  {
    var rest := Without(idx, p);
    forall a, b | 0 <= a < b < |rest| ensures rest[a] != rest[b] {
      assert rest[a] == idx[if a < p then a else a + 1] && rest[b] == idx[if b < p then b else b + 1];
    }
    forall k | 0 <= k < n ensures rest[k] < n {
      assert rest[k] == idx[if k < p then k else k + 1];
    }
  }

  lemma SelectWithout<T, D>(ev: seq<Event<T, D>>, idx: seq<nat>, p: nat, n: nat)
    requires p < |idx| && n + 1 == |ev| && idx[p] == n && InRange(ev, idx)
    requires forall k :: 0 <= k < |Without(idx, p)| ==> Without(idx, p)[k] < n
    ensures multiset(Select(ev, idx)) == multiset(Select(ev[..n], Without(idx, p))) + multiset{ev[n]}
  {
    var out := Select(ev, idx);
    assert Select(ev[..n], Without(idx, p)) == out[..p] + out[p + 1..];
    assert out == out[..p] + [ev[n]] + out[p + 1..];
  }

  /** Distinct positions, as many as there are, pick out the whole input. */
  lemma {:induction false} SelectAll<T, D>(ev: seq<Event<T, D>>, idx: seq<nat>)
    requires InRange(ev, idx) && Distinct(idx) && |idx| == |ev|
    ensures multiset(Select(ev, idx)) == multiset(ev)
  {
    if ev != [] {
      var n := |ev| - 1;
      DistinctIndices(idx, |ev|);
      assert n in idx;
      var p: nat :| p < |idx| && idx[p] == n;
      var rest, front := Without(idx, p), ev[..n];
      WithoutLast(idx, p, n);
      SelectWithout(ev, idx, p, n);
      assert InRange(front, rest) && |rest| == |front|;
      SelectAll(front, rest);
      assert ev == front + [ev[n]];
    }
  }

  /** Under a strict partial order the output is a permutation of the input and a linear extension of the order. */
  lemma SortIsLinearExtension<T, D>(ev: seq<Event<T, D>>, hb: (T, T) -> bool)
    requires StrictlyOrdered(ev, hb)
    ensures multiset(Sorted(ev, hb)) == multiset(ev)
    ensures LinearExtension(Sorted(ev, hb), hb)
  {
    var K := Kahn(ev, hb, []);
    StrictOrderNeverStuck(ev, hb);
    SelectAll(ev, K);
    forall a, b | 0 <= a < b < |K| ensures !hb(ev[K[b]].stamp, ev[K[a]].stamp) {
      if Prec(ev, hb, K[b], K[a]) {
        SortRespects(ev, hb, K[b], a);
      }
    }
  }

  // ---------- The same greedy choice, seen on events ----------

  /** `e` may come next after `out`, among the events `E`. */
  ghost predicate Available<T, D>(E: set<Event<T, D>>, hb: (T, T) -> bool, out: seq<Event<T, D>>, e: Event<T, D>) {
    e in E && e !in out && forall f :: f in E && f != e && hb(f.stamp, e.stamp) ==> f in out
  }

  ghost predicate Chosen<T, D>(E: set<Event<T, D>>, hb: (T, T) -> bool, out: seq<Event<T, D>>, e: Event<T, D>) {
    Available(E, hb, out, e) && forall f :: f in E && Available(E, hb, out, f) && f != e ==> LexLess(e.id, f.id)
  }

  /** The greedy sequences of events, which the next lemma shows to be unique. */
  ghost predicate GreedyEvents<T, D>(E: set<Event<T, D>>, hb: (T, T) -> bool, out: seq<Event<T, D>>) {
    && (forall k {:trigger Chosen(E, hb, out[..k], out[k])} :: 0 <= k < |out| ==> Chosen(E, hb, out[..k], out[k]))
    && (forall e {:trigger Available(E, hb, out, e)} :: e in E ==> !Available(E, hb, out, e))
  }

  lemma DistinctEvents<T, D>(ev: seq<Event<T, D>>, i: nat, j: nat)
    requires DistinctIds(ev) && i < |ev| && j < |ev|
    ensures ev[i] == ev[j] <==> i == j
    ensures ev[i].id == ev[j].id <==> i == j
  {
  }

  lemma AvailableIsReady<T, D>(ev: seq<Event<T, D>>, hb: (T, T) -> bool, done: seq<nat>, i: nat)
    requires DistinctIds(ev) && InRange(ev, done) && i < |ev|
    ensures Available(Elements(ev), hb, Select(ev, done), ev[i]) <==> Ready(ev, hb, done, i)
  {
    var out := Select(ev, done);
    forall j: nat | j < |ev| ensures ev[j] in out <==> j in done {
      if ev[j] in out {
        var k :| 0 <= k < |out| && out[k] == ev[j];
        DistinctEvents(ev, done[k], j);
      }
      if j in done {
        var k :| 0 <= k < |done| && done[k] == j;
        assert out[k] == ev[j];
      }
    }
    if Available(Elements(ev), hb, out, ev[i]) {
      forall j: nat | j < |ev| && Prec(ev, hb, j, i) ensures j in done {
        DistinctEvents(ev, i, j);
        assert ev[j] in Elements(ev);
      }
    }
  }

  lemma SortIsGreedyEvents<T, D>(ev: seq<Event<T, D>>, hb: (T, T) -> bool)
    requires DistinctIds(ev)
    ensures GreedyEvents(Elements(ev), hb, Sorted(ev, hb))
  {
    var K, out, E := Kahn(ev, hb, []), Sorted(ev, hb), Elements(ev);
    KahnIsGreedy(ev, hb, []);
    forall k | 0 <= k < |out| ensures Chosen(E, hb, out[..k], out[k]) {
      assert LeastReady(ev, hb, K[..k], K[k]);
      assert Select(ev, K[..k]) == out[..k];
      AvailableIsReady(ev, hb, K[..k], K[k]);
      forall f | f in E && Available(E, hb, out[..k], f) && f != out[k] ensures LexLess(out[k].id, f.id) {
        var i: nat :| i < |ev| && ev[i] == f;
        AvailableIsReady(ev, hb, K[..k], i);
        DistinctEvents(ev, i, K[k]);
      }
    }
    forall e | e in E ensures !Available(E, hb, out, e) {
      var i: nat :| i < |ev| && ev[i] == e;
      AvailableIsReady(ev, hb, K, i);
    }
  }

  /** At most one event can be chosen next. */
  lemma ChosenUnique<T, D>(E: set<Event<T, D>>, hb: (T, T) -> bool, out: seq<Event<T, D>>,
                           e: Event<T, D>, f: Event<T, D>)
    requires Chosen(E, hb, out, e) && Chosen(E, hb, out, f)
    ensures e == f
  {
    if e != f { LexAsymmetric(e.id, f.id); }
  }

  /** Two greedy sequences that agree so far agree on what comes next. */
  lemma GreedyStep<T, D>(E: set<Event<T, D>>, hb: (T, T) -> bool, a: seq<Event<T, D>>, b: seq<Event<T, D>>, k: nat)
    requires GreedyEvents(E, hb, a) && GreedyEvents(E, hb, b) && k < |a| && k <= |b| && a[..k] == b[..k]
    ensures k < |b| && b[k] == a[k]
  {
    assert Chosen(E, hb, a[..k], a[k]);
    assert b[..|b|] == b;
    if k < |b| { ChosenUnique(E, hb, b[..k], b[k], a[k]); }
  }

  /** So there is only one of them. */
  lemma GreedyUnique<T, D>(E: set<Event<T, D>>, hb: (T, T) -> bool, a: seq<Event<T, D>>, b: seq<Event<T, D>>)
    requires GreedyEvents(E, hb, a) && GreedyEvents(E, hb, b)
    ensures a == b
  {
    var k := FirstDifference(a, b);
    if k < |a| {
      GreedyStep(E, hb, a, b, k);
    } else if k < |b| {
      GreedyStep(E, hb, b, a, k);
    }
  }

  /** With distinct IDs the output does not depend on the order of the input, cycles or not. */
  lemma SortIgnoresInputOrder<T, D>(xs: seq<Event<T, D>>, ys: seq<Event<T, D>>, hb: (T, T) -> bool)
    requires DistinctIds(xs) && DistinctIds(ys) && forall e :: e in xs <==> e in ys
    ensures Sorted(xs, hb) == Sorted(ys, hb)
  {
    SortIsGreedyEvents(xs, hb);
    SortIsGreedyEvents(ys, hb);
    assert Elements(xs) == Elements(ys);
    GreedyUnique(Elements(xs), hb, Sorted(xs, hb), Sorted(ys, hb));
  }

  /** The IDs of `a` are the same as those of `b`, or smaller at the first difference. */
  ghost predicate IdsLexLeq<T, D>(a: seq<Event<T, D>>, b: seq<Event<T, D>>) {
    a == b || exists k :: 0 <= k < |a| && k < |b| && a[..k] == b[..k] && LexLess(a[k].id, b[k].id)
  }

  /** Among all linear extensions of the input the output has the lexicographically least IDs. */
  lemma SortIsLeast<T, D>(ev: seq<Event<T, D>>, hb: (T, T) -> bool, L: seq<Event<T, D>>)
    requires DistinctIds(ev) && DistinctIds(L) && (forall e :: e in L <==> e in ev) && LinearExtension(L, hb)
    ensures IdsLexLeq(Sorted(ev, hb), L)
  {
    var out, E := Sorted(ev, hb), Elements(ev);
    SortIsGreedyEvents(ev, hb);
    var k := FirstDifference(out, L);
    assert L[..|L|] == L && out[..|out|] == out;
    assert k < |out| ==> Chosen(E, hb, out[..k], out[k]);
    if k < |L| {
      NextOfExtensionIsAvailable(E, hb, L, k);
    }
  }

  /** The same with the order of IDs spelled out: byte by byte, a strict prefix first. */
  lemma SortIsLeastByBytes<T, D>(ev: seq<Event<T, D>>, hb: (T, T) -> bool, L: seq<Event<T, D>>)
    requires DistinctIds(ev) && DistinctIds(L) && (forall e :: e in L <==> e in ev) && LinearExtension(L, hb)
    ensures Sorted(ev, hb) == L || exists k: nat, d: nat ::
              && k < |Sorted(ev, hb)| && k < |L| && Sorted(ev, hb)[..k] == L[..k]
              && var a, b := Sorted(ev, hb)[k].id, L[k].id;
                 && d <= |a| && d <= |b| && a[..d] == b[..d]
                 && (d == |a| < |b| || (d < |a| && d < |b| && a[d] < b[d]))
  {
    var out := Sorted(ev, hb);
    SortIsLeast(ev, hb, L);
    if out != L {
      var k: nat :| k < |out| && k < |L| && out[..k] == L[..k] && LexLess(out[k].id, L[k].id);
      LexLessIff(out[k].id, L[k].id);
    }
  }

  /** What the sort emits, said of positions: each time the least ID that is ready, and of equal IDs the first. */
  lemma SortSpelledOut<T, D>(ev: seq<Event<T, D>>, hb: (T, T) -> bool, k: nat, i: nat)
    requires k <= |Kahn(ev, hb, [])| && i < |ev| && i !in Kahn(ev, hb, [])[..k]
    requires forall j: nat :: j < |ev| && j != i && hb(ev[j].stamp, ev[i].stamp) ==> j in Kahn(ev, hb, [])[..k]
    ensures k < |Kahn(ev, hb, [])|
    ensures var c := Kahn(ev, hb, [])[k];
            && c < |ev| && c !in Kahn(ev, hb, [])[..k]
            && (forall j: nat :: j < |ev| && j != c && hb(ev[j].stamp, ev[c].stamp) ==> j in Kahn(ev, hb, [])[..k])
            && (i == c || LexLess(ev[c].id, ev[i].id) || (ev[c].id == ev[i].id && c < i))
  {
    var K := Kahn(ev, hb, []);
    KahnIsGreedy(ev, hb, []);
    assert K[..|K|] == K;
    assert Ready(ev, hb, K[..k], i);
    if k < |K| {
      assert LeastReady(ev, hb, K[..k], K[k]);
      forall j: nat | j < |ev| && j != K[k] && hb(ev[j].stamp, ev[K[k]].stamp) ensures j in K[..k] {
        assert Prec(ev, hb, j, K[k]);
      }
    }
  }

  lemma NextOfExtensionIsAvailable<T, D>(E: set<Event<T, D>>, hb: (T, T) -> bool, L: seq<Event<T, D>>, k: nat)
    requires DistinctIds(L) && E == Elements(L) && LinearExtension(L, hb) && k < |L|
    ensures Available(E, hb, L[..k], L[k])
  {
    forall f | f in E && f != L[k] && hb(f.stamp, L[k].stamp) ensures f in L[..k] {
      var p :| 0 <= p < |L| && L[p] == f;
      assert p < k;
    }
  }

  lemma FirstDifference<T>(a: seq<T>, b: seq<T>) returns (k: nat)
    ensures k <= |a| && k <= |b| && a[..k] == b[..k]
    ensures k == |a| || k == |b| || a[k] != b[k]
  {
    k := 0;
    while k < |a| && k < |b| && a[k] == b[k]
      invariant k <= |a| && k <= |b| && a[..k] == b[..k]
    {
      k := k + 1;
    }
  }
}
