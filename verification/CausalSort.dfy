/** Sorting the events of a run by any of the three stamps gives an order that true causality allows. */
module CausalSort {
  import opened Words
  import opened Finite
  import opened Causality
  import opened ClockRun
  import opened PartialOrder
  import opened SortTheorem
  import StampAdapters
  import VectorClock
  import VectorTheorem
  import LamportTheorem
  import HybridTheorem

  datatype Clock = Lamport | Hybrid | Vector

  function StampOf(k: Clock, o: Occurrence, n: Node): StampAdapters.Comparable {
    match k
    case Lamport => StampAdapters.LamportStamp(n.lamport)
    case Hybrid => StampAdapters.HLCStamp(n.hlc)
    case Vector => StampAdapters.VectorStamp(VectorClock.Snapshot(o.proc, n.vec))
  }

  /** The exact condition under which the counters of the clock do not wrap in this run. */
  ghost predicate Fits(k: Clock, es: seq<Occurrence>) {
    match k
    case Lamport => LamportTheorem.ChainsFit(es)
    case Hybrid => HybridTheorem.ReadingsFit(es)
    case Vector => VectorTheorem.Counted(es, |es|)
  }

  /** Adapters never miss a cause, never call cause and effect concurrent, and the vector adapter is exact. */
  lemma AdaptersFollowCausality(k: Clock, es: seq<Occurrence>, st: seq<Node>, i: nat, j: nat)
    requires Stamped(es, st) && i < |es| && j < |es| && i != j && Fits(k, es)
    ensures var a, b := StampOf(k, es[i], st[i]), StampOf(k, es[j], st[j]);
            && (HappensBefore(es, i, j) ==> StampAdapters.HappensBefore(a, b))
            && (StampAdapters.Concurrent(a, b) ==> !HappensBefore(es, i, j) && !HappensBefore(es, j, i))
            && (k == Vector ==>
                  && (StampAdapters.HappensBefore(a, b) <==> HappensBefore(es, i, j))
                  && (StampAdapters.Concurrent(a, b) <==> !HappensBefore(es, i, j) && !HappensBefore(es, j, i)))
  {
    match k {
      case Lamport => LamportTheorem.ClockConditionIff(es, st);
      case Hybrid => HybridTheorem.CausalIff(es, st);
      case Vector => VectorTheorem.VectorDecidesHappensBefore(es, st, i, j);
    }
  }

  /** The events of a run as input to the sort, with any IDs and payloads. */
  function Tagged<D>(k: Clock, es: seq<Occurrence>, st: seq<Node>, ids: seq<NodeId>, data: seq<D>)
      : (ev: seq<Event<StampAdapters.Comparable, D>>)
    requires |es| == |st| == |ids| == |data|
    ensures |ev| == |es| && forall i :: 0 <= i < |es| ==> ev[i] == Event(ids[i], StampOf(k, es[i], st[i]), data[i])
  {
    seq(|es|, i requires 0 <= i < |es| => Event(ids[i], StampOf(k, es[i], st[i]), data[i]))
  }

  /** The sort keeps every event of the run and puts each after everything that happens before it. */
  lemma SortedRunIsCausal<D>(k: Clock, es: seq<Occurrence>, st: seq<Node>, ids: seq<NodeId>, data: seq<D>)
    requires Stamped(es, st) && |es| == |ids| == |data| && Fits(k, es)
    ensures var K := Kahn(Tagged(k, es, st, ids, data), StampAdapters.HappensBefore, []);
            && |K| == |es| && Distinct(K)
            && (forall i: nat :: i < |es| ==> i in K)
            && (forall i: nat, j: nat :: i < |es| && j < |es| && HappensBefore(es, i, j) ==> At(K, i) < At(K, j))
  {
    var ev := Tagged(k, es, st, ids, data);
    var K := Kahn(ev, StampAdapters.HappensBefore, []);
    StampAdapters.StampsAreStrictlyOrdered(ev);
    StrictOrderNeverStuck(ev, StampAdapters.HappensBefore);
    KahnIsGreedy(ev, StampAdapters.HappensBefore, []);
    forall i: nat, j: nat | i < |es| && j < |es| && HappensBefore(es, i, j) ensures At(K, i) < At(K, j) {
      PastDecomposes(es, i, j);
      AdaptersFollowCausality(k, es, st, i, j);
      PrecIncreases(ev, StampAdapters.HappensBefore, K, i, j);
    }
  }
}
