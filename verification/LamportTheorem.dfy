/** The Lamport stamp of an event is the length of the longest causal chain that ends at it. */
module LamportTheorem {
  import opened Words
  import opened Counters
  import opened Causality
  import opened ClockRun
  import VectorTheorem
  import Finite

  /** No causal chain is as long as a `uint64` can count. */
  ghost predicate ChainsFit(es: seq<Occurrence>) {
    forall c :: Chain(es, c) ==> |c| < TWO64
  }

  ghost predicate EndsAt(es: seq<Occurrence>, c: seq<nat>, j: nat) {
    Chain(es, c) && c[|c| - 1] == j
  }

  /** A chain as long as the stamp of `j`; extending the longer of two such chains is what a receive does. */
  lemma {:induction false} ChainOfStampLength(es: seq<Occurrence>, st: seq<Node>, j: nat) returns (c: seq<nat>)
    requires Stamped(es, st) && j < |es| && ChainsFit(es)
    ensures EndsAt(es, c, j) && |c| == st[j].lamport
    ensures st[j].lamport > Found(es, st, j).lamport
    ensures es[j].kind.Receive? ==> es[j].kind.msg < j && st[j].lamport > st[es[j].kind.msg].lamport
  {
    LamportPart(es, st, j);
    var p, k := Prev(es, j), es[j].kind;
    if k.Receive? && (p < 0 || st[p].lamport < st[k.msg].lamport) {
      c := ChainOfStampLength(es, st, k.msg);
      c := Extended(es, c, j);
    } else if p >= 0 {
      c := ChainOfStampLength(es, st, p);
      c := Extended(es, c, j);
    } else {
      c := [j];
    }
  }

  lemma Extended(es: seq<Occurrence>, c: seq<nat>, j: nat) returns (d: seq<nat>)
    requires Chain(es, c) && j < |es| && Edge(es, c[|c| - 1], j) && ChainsFit(es)
    ensures EndsAt(es, d, j) && |d| == |c| + 1 < TWO64
  {
    d := c + [j];
    ChainAppend(es, c, j);
  }

  /** Every edge raises the stamp. */
  lemma {:induction false} EdgeRaisesStamp(es: seq<Occurrence>, st: seq<Node>, i: nat, j: nat)
    requires Stamped(es, st) && j < |es| && ChainsFit(es) && Edge(es, i, j)
    ensures st[i].lamport < st[j].lamport
    decreases j
  {
    var _ := ChainOfStampLength(es, st, j);
    if es[i].proc == es[j].proc && i < Prev(es, j) {
      EdgeRaisesStamp(es, st, i, Prev(es, j));
    }
  }

  lemma {:induction false} ChainRaisesStamp(es: seq<Occurrence>, st: seq<Node>, c: seq<nat>)
    requires Stamped(es, st) && Chain(es, c)
    requires forall i: nat, j: nat :: j < |es| && Edge(es, i, j) ==> st[i].lamport < st[j].lamport
    ensures st[c[|c| - 1]].lamport >= st[c[0]].lamport + |c| - 1
  {
    if |c| > 1 {
      ChainRaisesStamp(es, st, c[..|c| - 1]);
      assert Edge(es, c[|c| - 2], c[|c| - 1]);
    }
  }

  /** The stamp is the maximum length of a chain ending at `j`: attained, and never exceeded. */
  lemma LamportIsChainHeight(es: seq<Occurrence>, st: seq<Node>, j: nat)
    requires Stamped(es, st) && j < |es| && ChainsFit(es)
    ensures exists c :: EndsAt(es, c, j) && |c| == st[j].lamport
    ensures forall c :: EndsAt(es, c, j) ==> |c| <= st[j].lamport
  {
    var w := ChainOfStampLength(es, st, j);
    assert EndsAt(es, w, j);
    EdgesRaiseStamps(es, st);
    forall c | EndsAt(es, c, j) ensures |c| <= st[j].lamport {
      var first := ChainOfStampLength(es, st, c[0]);
      ChainRaisesStamp(es, st, c);
    }
  }

  lemma EdgesRaiseStamps(es: seq<Occurrence>, st: seq<Node>)
    requires Stamped(es, st) && ChainsFit(es)
    ensures forall i: nat, j: nat :: j < |es| && Edge(es, i, j) ==> st[i].lamport < st[j].lamport
  {
    forall i: nat, j: nat | j < |es| && Edge(es, i, j) ensures st[i].lamport < st[j].lamport {
      EdgeRaisesStamp(es, st, i, j);
    }
  }

  /** The clock condition on a whole run. */
  ghost predicate ClockCondition(es: seq<Occurrence>, st: seq<Node>)
    requires |es| == |st|
  {
    forall i: nat, j: nat :: i < |es| && j < |es| && HappensBefore(es, i, j) ==> st[i].lamport < st[j].lamport
  }

  /** A stamp of zero can only come from a wrap, and a wrap breaks the clock condition. */
  lemma ConditionForbidsZero(es: seq<Occurrence>, st: seq<Node>, j: nat)
    requires Stamped(es, st) && j < |es| && ClockCondition(es, st)
    ensures st[j].lamport >= 1
  {
    LamportPart(es, st, j);
    if Prev(es, j) >= 0 { EdgeIsHappensBefore(es, Prev(es, j), j); }
    if es[j].kind.Receive? { EdgeIsHappensBefore(es, es[j].kind.msg, j); }
  }

  /** Happens-before implies a smaller stamp, throughout a run, exactly when no causal chain has 2^64 events. */
  lemma ClockConditionIff(es: seq<Occurrence>, st: seq<Node>)
    requires Stamped(es, st)
    ensures ClockCondition(es, st) <==> ChainsFit(es)
  {
    if ClockCondition(es, st) {
      forall i: nat, j: nat | j < |es| && Edge(es, i, j) ensures st[i].lamport < st[j].lamport {
        EdgeIsHappensBefore(es, i, j);
      }
      forall c | Chain(es, c) ensures |c| < TWO64 {
        ConditionForbidsZero(es, st, c[0]);
        ChainRaisesStamp(es, st, c);
      }
    }
    if ChainsFit(es) {
      EdgesRaiseStamps(es, st);
      forall i: nat, j: nat | i < |es| && j < |es| && HappensBefore(es, i, j) ensures st[i].lamport < st[j].lamport {
        var c :| Chain(es, c) && |c| >= 2 && c[0] == i && c[|c| - 1] == j;
        ChainRaisesStamp(es, st, c);
      }
    }
  }

  /** Any execution of fewer than 2^64 attempted events meets the clock condition. */
  lemma EveryShortRunMeetsCondition(drift: map<NodeId, int64>, acts: seq<Occurrence>)
    requires |acts| < TWO64
    ensures ClockCondition(Exec(drift, acts).events, Exec(drift, acts).stamps)
  {
    var s := Exec(drift, acts);
    ReachableIsStamped(drift, acts);
    forall c | Chain(s.events, c) ensures |c| < TWO64 { ChainLength(s.events, c); }
    ClockConditionIff(s.events, s.stamps);
  }

  lemma ChainIsDistinct(es: seq<Occurrence>, c: seq<nat>)
    requires Chain(es, c)
    ensures Finite.Distinct(c)
  {
    forall a, b | 0 <= a < b < |c| ensures c[a] != c[b] {
      assert Chain(es, c[..b + 1]);
      ChainIncreases(es, c[..b + 1]);
    }
  }

  lemma {:induction false} ChainIsInPast(es: seq<Occurrence>, c: seq<nat>, k: nat)
    requires Chain(es, c) && k < |c|
    ensures InPast(es, c[k], c[|c| - 1])
    decreases |c|
  {
    if k < |c| - 1 {
      ChainIsInPast(es, c[..|c| - 1], k);
      HappensBeforeEdge(es, c[k], c[|c| - 2], c[|c| - 1]);
    }
  }

  /** The Lamport stamp never exceeds the sum of the entries of the vector stamp of the same event. */
  lemma LamportAtMostVectorSum(es: seq<Occurrence>, st: seq<Node>, j: nat)
    requires Stamped(es, st) && j < |es| && ChainsFit(es) && VectorTheorem.Counted(es, |es|)
    ensures st[j].lamport <= Sum(st[j].vec)
  {
    var c := ChainOfStampLength(es, st, j);
    ChainIsDistinct(es, c);
    Finite.DistinctSize(c);
    forall i | i in Finite.Elements(c) ensures i in VectorTheorem.Past(es, j) {
      var k :| 0 <= k < |c| && c[k] == i;
      ChainIsInPast(es, c, k);
      PastDecomposes(es, i, j);
    }
    VectorTheorem.EntriesSumToPast(es, st, j);
    Finite.SubsetCardinality(Finite.Elements(c), VectorTheorem.Past(es, j));
  }
}
