/** The vector stamps of a run decide happens-before exactly. */
module VectorTheorem {
  import opened Words
  import opened Counters
  import opened Causality
  import opened ClockRun
  import opened VectorClock

  /** Number of events of process `p` among the first `n`. */
  function CountOf(es: seq<Occurrence>, n: nat, p: NodeId): (c: nat)
    requires n <= |es|
    ensures c <= n
  {
    if n == 0 then 0 else CountOf(es, n - 1, p) + if es[n - 1].proc == p then 1 else 0
  }

  /** The position of event `i` among the events of its process, from 1. */
  function Rank(es: seq<Occurrence>, i: nat): (r: nat)
    requires i < |es|
    ensures r >= 1
  {
    CountOf(es, i + 1, es[i].proc)
  }

  lemma {:induction false} CountMonotone(es: seq<Occurrence>, m: nat, n: nat, p: NodeId)
    requires m <= n <= |es|
    ensures CountOf(es, m, p) <= CountOf(es, n, p)
  {
    if m < n { CountMonotone(es, m, n - 1, p); }
  }

  lemma {:induction false} CountAtLast(es: seq<Occurrence>, n: nat, p: NodeId)
    requires n <= |es|
    ensures var l := LastOf(es, n, p);
            CountOf(es, n, p) == if l < 0 then 0 else Rank(es, l)
  {
    if n > 0 && es[n - 1].proc != p { CountAtLast(es, n - 1, p); }
  }

  /** Within a process, rank orders the events as the run does. */
  lemma RankOrders(es: seq<Occurrence>, i: nat, j: nat)
    requires i < |es| && j < |es| && es[i].proc == es[j].proc
    ensures Rank(es, i) <= Rank(es, j) <==> i <= j
  {
    if i < j {
      CountMonotone(es, i + 1, j, es[i].proc);
    } else if j < i {
      CountMonotone(es, j + 1, i, es[i].proc);
    }
  }

  ghost function Past(es: seq<Occurrence>, j: nat): set<nat> {
    set i: nat | i <= j && InPast(es, i, j)
  }

  /** `v` knows exactly the events in `P`: of each process the first `v[process]` ones, the last of which is in `P`. */
  ghost predicate Knows(es: seq<Occurrence>, v: Counters, P: set<nat>) {
    && (forall i :: i in P ==> i < |es|)
    && (forall i: nat :: i < |es| ==> (i in P <==> Rank(es, i) <= Get(v, es[i].proc)))
    && (forall q :: q in v ==> Witnessed(es, P, q, v[q]))
  }

  /** Entry `q` of `v` is witnessed by an event of `P`. */
  ghost predicate Witnessed(es: seq<Occurrence>, P: set<nat>, q: NodeId, rank: nat) {
    exists i :: i in P && i < |es| && es[i].proc == q && Rank(es, i) == rank
  }

  lemma WitnessMonotone(es: seq<Occurrence>, P: set<nat>, Q: set<nat>, q: NodeId, rank: nat)
    requires P <= Q && Witnessed(es, P, q, rank)
    ensures Witnessed(es, Q, q, rank)
  {
    var i :| i in P && i < |es| && es[i].proc == q && Rank(es, i) == rank;
    assert i in Q;
  }

  lemma MergeKnows(es: seq<Occurrence>, a: Counters, P: set<nat>, b: Counters, Q: set<nat>)
    requires Knows(es, a, P) && Knows(es, b, Q)
    ensures Knows(es, Merge(a, b), P + Q)
  {
    var m := Merge(a, b);
    forall q | q in m ensures Witnessed(es, P + Q, q, m[q]) {
      if q in a && m[q] == a[q] {
        WitnessMonotone(es, P, P + Q, q, m[q]);
      } else {
        WitnessMonotone(es, Q, P + Q, q, m[q]);
      }
    }
    forall i: nat | i < |es| ensures i in P + Q <==> Rank(es, i) <= Get(m, es[i].proc) {
      MergeGet(a, b, es[i].proc);
    }
  }

  /** A clock that knows all earlier events of its own process has its own entry equal to their number. */
  lemma KnownEvent(es: seq<Occurrence>, v: Counters, P: set<nat>, i: nat)
    requires Knows(es, v, P)
    ensures i in P <==> i < |es| && Rank(es, i) <= Get(v, es[i].proc)
  {
  }

  /** An entry of a vector that knows `P` is at most the number of events of that process before the end of `P`. */
  lemma KnownEntryFits(es: seq<Occurrence>, v: Counters, P: set<nat>, j: nat, q: NodeId)
    requires Knows(es, v, P) && j <= |es| && forall i :: i in P ==> i < j
    ensures Get(v, q) <= CountOf(es, j, q)
  {
    if q in v {
      assert Witnessed(es, P, q, v[q]);
      var i :| i in P && i < |es| && es[i].proc == q && Rank(es, i) == v[q];
      CountMonotone(es, i + 1, j, q);
    }
  }

  lemma OwnEntry(es: seq<Occurrence>, v: Counters, P: set<nat>, j: nat, p: NodeId)
    requires j <= |es| && Knows(es, v, P)
    requires forall i :: i in P ==> i < j
    requires forall i: nat :: i < j && es[i].proc == p ==> i in P
    ensures Get(v, p) == CountOf(es, j, p)
  {
    CountAtLast(es, j, p);
    KnownEntryFits(es, v, P, j, p);
    var l := LastOf(es, j, p);
    if l >= 0 { KnownEvent(es, v, P, l); }
  }

  lemma BumpKnows(es: seq<Occurrence>, v: Counters, P: set<nat>, j: nat)
    requires j < |es| && Knows(es, v, P)
    requires forall i :: i in P ==> i < j
    requires forall i: nat :: i < j && es[i].proc == es[j].proc ==> i in P
    requires Rank(es, j) < TWO64
    ensures Knows(es, Bump(v, es[j].proc), P + {j})
  {
    var p := es[j].proc;
    var w := Bump(v, p);
    OwnEntry(es, v, P, j, p);
    assert Get(w, p) == Rank(es, j);
    forall i: nat | i < |es| ensures i in P + {j} <==> Rank(es, i) <= Get(w, es[i].proc) {
      if es[i].proc == p { RankOrders(es, i, j); }
    }
    forall q | q in w ensures Witnessed(es, P + {j}, q, w[q]) {
      if q == p {
        assert j in P + {j};
      } else {
        WitnessMonotone(es, P, P + {j}, q, v[q]);
      }
    }
  }

  /** What is known at `j` before `j` itself is counted. */
  ghost function PastBefore(es: seq<Occurrence>, j: nat): set<nat>
    requires j < |es|
  {
    (if Prev(es, j) < 0 then {} else Past(es, Prev(es, j))) +
    (if es[j].kind.Receive? && es[j].kind.msg < j then Past(es, es[j].kind.msg) else {})
  }

  lemma PastSplits(es: seq<Occurrence>, j: nat)
    requires j < |es|
    ensures Past(es, j) == PastBefore(es, j) + {j}
    ensures forall i :: i in PastBefore(es, j) ==> i < j
    ensures forall i: nat :: i < j && es[i].proc == es[j].proc ==> i in PastBefore(es, j)
  {
    forall i: nat ensures i in Past(es, j) <==> i in PastBefore(es, j) + {j} {
      PastDecomposes(es, i, j);
      PastIsEarlier(es, i, j);
    }
    forall i: nat | i < j && es[i].proc == es[j].proc ensures i in PastBefore(es, j) {
      EdgeIsHappensBefore(es, i, j);
      assert i in Past(es, j);
    }
  }

  lemma PastIsEarlier(es: seq<Occurrence>, i: nat, j: nat)
    requires j < |es|
    ensures Prev(es, j) >= 0 && InPast(es, i, Prev(es, j)) ==> i <= Prev(es, j)
    ensures es[j].kind.Receive? && es[j].kind.msg < j && InPast(es, i, es[j].kind.msg) ==> i <= es[j].kind.msg
  {
    if Prev(es, j) >= 0 { PastDecomposes(es, i, Prev(es, j)); }
    if es[j].kind.Receive? && es[j].kind.msg < j { PastDecomposes(es, i, es[j].kind.msg); }
  }

  /** No event up to `j` is the 2^64-th of its process or later. */
  ghost predicate Counted(es: seq<Occurrence>, n: nat)
    requires n <= |es|
  {
    forall i: nat :: i < n ==> Rank(es, i) < TWO64
  }

  /** The vector of `j`'s process just before `j` itself is counted. */
  function Held(es: seq<Occurrence>, st: seq<Node>, j: nat): Counters
    requires j < |es| == |st|
  {
    var found, k := Found(es, st, j).vec, es[j].kind;
    if k.Receive? && k.msg < j then Merge(found, st[k.msg].vec) else found
  }

  /** That vector knows the events strictly before `j`. */
  lemma HeldKnows(es: seq<Occurrence>, st: seq<Node>, j: nat)
    requires Stamped(es, st) && j < |es| && Counted(es, j)
    ensures Knows(es, Held(es, st, j), PastBefore(es, j)) && st[j].vec == Bump(Held(es, st, j), es[j].proc)
    decreases j, 0
  {
    VectorPart(es, st, j);
    var found, p := Found(es, st, j).vec, Prev(es, j);
    var P := if p < 0 then {} else Past(es, p);
    if p >= 0 { StampKnowsPast(es, st, p); }
    assert Knows(es, found, P);
    if es[j].kind.Receive? {
      StampKnowsPast(es, st, es[j].kind.msg);
      MergeKnows(es, found, P, st[es[j].kind.msg].vec, Past(es, es[j].kind.msg));
    } else {
      assert PastBefore(es, j) == P;
    }
  }

  /** The stamp of an event knows exactly the event's causal past. */
  lemma {:induction false} StampKnowsPast(es: seq<Occurrence>, st: seq<Node>, j: nat)
    requires Stamped(es, st) && j < |es| && Counted(es, j + 1)
    ensures Knows(es, st[j].vec, Past(es, j))
    decreases j, 1
  {
    HeldKnows(es, st, j);
    PastSplits(es, j);
    BumpKnows(es, Held(es, st, j), PastBefore(es, j), j);
  }

  lemma PastIsTransitive(es: seq<Occurrence>, i: nat, j: nat)
    requires j < |es| && InPast(es, i, j)
    ensures Past(es, i) <= Past(es, j)
  {
    PastDecomposes(es, i, j);
    forall k | k in Past(es, i) ensures k in Past(es, j) {
      HappensBeforeIsAStrictPartialOrder(es, k, i, j);
    }
  }

  /** A stamp is below another exactly when its event is in the other's causal past. */
  lemma LeqIsInPast(es: seq<Occurrence>, st: seq<Node>, i: nat, j: nat)
    requires Stamped(es, st) && i < |es| && j < |es| && Counted(es, |es|)
    ensures Leq(st[i].vec, st[j].vec) <==> InPast(es, i, j)
  {
    StampKnowsPast(es, st, i);
    StampKnowsPast(es, st, j);
    PastDecomposes(es, i, j);
    var v, w := st[i].vec, st[j].vec;
    if InPast(es, i, j) {
      PastIsTransitive(es, i, j);
      forall q | q in v ensures v[q] <= Get(w, q) {
        var e :| e in Past(es, i) && e < |es| && es[e].proc == q && Rank(es, e) == v[q];
        assert e in Past(es, j);
      }
    }
    if Leq(v, w) {
      assert i in Past(es, i);
      assert Rank(es, i) <= Get(v, es[i].proc) <= Get(w, es[i].proc);
      assert i in Past(es, j);
    }
  }

  /** What the vector clocks promise for two events. */
  ghost predicate DecidesHappensBefore(es: seq<Occurrence>, st: seq<Node>, i: nat, j: nat)
    requires i < |es| == |st| && j < |es|
  {
    && (Relate(st[i].vec, st[j].vec) == Before <==> HappensBefore(es, i, j))
    && (Relate(st[i].vec, st[j].vec) == After <==> HappensBefore(es, j, i))
    && (Relate(st[i].vec, st[j].vec) == Concurrent <==> !HappensBefore(es, i, j) && !HappensBefore(es, j, i))
  }

  /** In every run, `Compare` on the stamps of two distinct events decides happens-before, and is never `Equal`. */
  lemma VectorDecidesHappensBefore(es: seq<Occurrence>, st: seq<Node>, i: nat, j: nat)
    requires Stamped(es, st) && i < |es| && j < |es| && i != j && Counted(es, |es|)
    ensures DecidesHappensBefore(es, st, i, j)
    ensures Relate(st[i].vec, st[j].vec) != Equal
  {
    LeqIsInPast(es, st, i, j);
    LeqIsInPast(es, st, j, i);
    PastDecomposes(es, i, j);
    PastDecomposes(es, j, i);
  }

  /** The promise is kept on a whole run exactly when no process has 2^64 events. */
  lemma VectorExactIff(es: seq<Occurrence>, st: seq<Node>)
    requires Stamped(es, st)
    ensures (forall i: nat, j: nat :: i < |es| && j < |es| && i != j ==> DecidesHappensBefore(es, st, i, j))
            <==> Counted(es, |es|)
  {
    if Counted(es, |es|) {
      forall i: nat, j: nat | i < |es| && j < |es| && i != j ensures DecidesHappensBefore(es, st, i, j) {
        VectorDecidesHappensBefore(es, st, i, j);
      }
    } else {
      var i, x := WrapBreaksVector(es, st);
      assert !DecidesHappensBefore(es, st, i, x);
    }
  }

  /** Any execution of fewer than 2^64 attempted events keeps the promise. */
  lemma EveryShortRunIsDecided(drift: map<NodeId, int64>, acts: seq<Occurrence>, i: nat, j: nat)
    requires |acts| < TWO64
    requires i < |Exec(drift, acts).events| && j < |Exec(drift, acts).events| && i != j
    ensures var s := Exec(drift, acts);
            && DecidesHappensBefore(s.events, s.stamps, i, j)
            && Relate(s.stamps[i].vec, s.stamps[j].vec) != Equal
  {
    var s := Exec(drift, acts);
    ReachableIsStamped(drift, acts);
    assert Counted(s.events, |s.events|);
    VectorDecidesHappensBefore(s.events, s.stamps, i, j);
  }

  lemma {:induction false} FirstUncounted(es: seq<Occurrence>, n: nat) returns (x: nat)
    requires n <= |es| && !Counted(es, n)
    ensures x < n && Counted(es, x) && Rank(es, x) >= TWO64
  {
    if Counted(es, n - 1) { x := n - 1; } else { x := FirstUncounted(es, n - 1); }
  }

  /** At the 2^64-th event of a process its own entry wraps to zero. */
  lemma OwnEntryWraps(es: seq<Occurrence>, st: seq<Node>, x: nat)
    requires Stamped(es, st) && x < |es| && Counted(es, x) && Rank(es, x) >= TWO64
    ensures Get(st[x].vec, es[x].proc) == 0
    ensures Prev(es, x) >= 0
  {
    var p := es[x].proc;
    HeldKnows(es, st, x);
    PastSplits(es, x);
    OwnEntry(es, Held(es, st, x), PastBefore(es, x), x, p);
    CountAtLast(es, x, p);
  }

  /** That event no longer looks later than the one before it. */
  lemma WrapBreaksVector(es: seq<Occurrence>, st: seq<Node>) returns (i: nat, x: nat)
    requires Stamped(es, st) && !Counted(es, |es|)
    ensures i < x < |es| && HappensBefore(es, i, x) && Relate(st[i].vec, st[x].vec) != Before
  {
    x := FirstUncounted(es, |es|);
    OwnEntryWraps(es, st, x);
    i := Prev(es, x);
    EdgeIsHappensBefore(es, i, x);
    StampKnowsPast(es, st, i);
    assert i in Past(es, i);
    assert Get(st[i].vec, es[x].proc) > 0;
    LeqPointwise(st[i].vec, st[x].vec);
  }

  /** The events of process `q` among the first `n` that have rank at most `v`. */
  ghost function FirstOf(es: seq<Occurrence>, n: nat, q: NodeId, v: nat): set<nat>
    requires n <= |es|
  {
    set i: nat | i < n && es[i].proc == q && Rank(es, i) <= v
  }

  /** Counting in one more event of `q` as the last allowed rank. */
  lemma FirstOfStep(es: seq<Occurrence>, n: nat, q: NodeId)
    requires n < |es| && es[n].proc == q
    ensures var v := CountOf(es, n, q); FirstOf(es, n + 1, q, v + 1) == FirstOf(es, n, q, v) + {n}
  {
    var v := CountOf(es, n, q);
    assert Rank(es, n) == v + 1;
    forall i: nat | i < n && es[i].proc == q ensures Rank(es, i) <= v { RankOrders(es, n, i); }
  }

  lemma FirstOfSame(es: seq<Occurrence>, n: nat, q: NodeId, v: nat)
    requires n < |es| && (es[n].proc == q ==> v <= CountOf(es, n, q))
    ensures FirstOf(es, n + 1, q, v) == FirstOf(es, n, q, v)
  {
    assert es[n].proc == q ==> Rank(es, n) == CountOf(es, n, q) + 1;
  }

  lemma {:induction false} FirstOfCount(es: seq<Occurrence>, n: nat, q: NodeId, v: nat)
    requires n <= |es| && v <= CountOf(es, n, q)
    ensures |FirstOf(es, n, q, v)| == v
  {
    if n == 0 {
    } else if es[n - 1].proc == q && v == CountOf(es, n, q) {
      FirstOfCount(es, n - 1, q, v - 1);
      FirstOfStep(es, n - 1, q);
    } else {
      FirstOfCount(es, n - 1, q, v);
      FirstOfSame(es, n - 1, q, v);
    }
  }

  /** A vector that knows `P` picks, of each process, the first so many events out of the run. */
  lemma KnownEventsAreFirst(es: seq<Occurrence>, v: Counters, P: set<nat>, q: NodeId)
    requires Knows(es, v, P)
    ensures (forall i :: i in P ==> i < |es|) && (set i | i in P && es[i].proc == q) == FirstOf(es, |es|, q, Get(v, q))
  {
    var Q, F := (set i | i in P && es[i].proc == q), FirstOf(es, |es|, q, Get(v, q));
    forall i: nat ensures i in Q <==> i in F { KnownEvent(es, v, P, i); }
  }

  /** Entry `q` of an event's stamp is the number of events of process `q` in its causal past. */
  lemma EntryCountsPast(es: seq<Occurrence>, st: seq<Node>, j: nat, q: NodeId)
    requires Stamped(es, st) && j < |es| && Counted(es, |es|)
    ensures Get(st[j].vec, q) == |set i | i in Past(es, j) && es[i].proc == q|
  {
    StampKnowsPast(es, st, j);
    KnownEntryFits(es, st[j].vec, Past(es, j), |es|, q);
    KnownEventsAreFirst(es, st[j].vec, Past(es, j), q);
    FirstOfCount(es, |es|, q, Get(st[j].vec, q));
  }

  lemma EntryPresent(es: seq<Occurrence>, v: Counters, P: set<nat>, i: nat)
    requires forall k :: k in P ==> k < |es|
    requires forall q :: Get(v, q) == |set k | k in P && es[k].proc == q|
    requires i in P
    ensures Get(v, es[i].proc) > 0
  {
    var q := es[i].proc;
    var Q := set k | k in P && es[k].proc == q;
    assert i in Q && Get(v, q) == |Q|;
  }

  lemma {:induction false} SumIsSize(es: seq<Occurrence>, v: Counters, P: set<nat>)
    requires forall i :: i in P ==> i < |es|
    requires forall q :: Get(v, q) == |set i | i in P && es[i].proc == q|
    ensures Sum(v) == |P|
    decreases |v|
  {
    if v == map[] {
      forall i | i in P ensures Get(v, es[i].proc) > 0 { EntryPresent(es, v, P, i); }
    } else {
      var q :| q in v && Sum(v) == v[q] + Sum(v - {q});
      var Q := set i | i in P && es[i].proc == q;
      forall r ensures Get(v - {q}, r) == |set i | i in P - Q && es[i].proc == r| {
        if r == q {
          assert (set i | i in P - Q && es[i].proc == r) == {};
        } else {
          assert (set i | i in P - Q && es[i].proc == r) == set i | i in P && es[i].proc == r;
          assert Get(v, r) == |set i | i in P && es[i].proc == r|;
        }
      }
      SumIsSize(es, v - {q}, P - Q);
      assert Get(v, q) == |Q|;
    }
  }

  /** The entries of a stamp add up to the size of the event's causal past, and none of them is zero. */
  lemma EntriesSumToPast(es: seq<Occurrence>, st: seq<Node>, j: nat)
    requires Stamped(es, st) && j < |es| && Counted(es, |es|)
    ensures Sum(st[j].vec) == |Past(es, j)| && NoZeros(st[j].vec)
  {
    forall q ensures Get(st[j].vec, q) == |set i | i in Past(es, j) && es[i].proc == q| {
      EntryCountsPast(es, st, j, q);
    }
    StampKnowsPast(es, st, j);
    SumIsSize(es, st[j].vec, Past(es, j));
  }
}
