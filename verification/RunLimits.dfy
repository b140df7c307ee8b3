/** The limits on run length are tight: runs of nothing but local events that reach them break each clock. */
module RunLimits {
  import opened Words
  import opened Causality
  import opened ClockRun
  import VectorTheorem
  import LamportTheorem
  import HybridTheorem

  /** `n` internal events of one process whose wall clock stands still at zero. */
  function Ticks(p: NodeId, n: nat): (acts: seq<Occurrence>)
    ensures |acts| == n && forall k :: 0 <= k < n ==> acts[k] == Occurrence(p, Tick, 0)
  {
    seq(n, _ => Occurrence(p, Tick, 0))
  }

  lemma {:induction false} AllHappen(p: NodeId, n: nat)
    ensures Exec(map[], Ticks(p, n)).events == Ticks(p, n)
  {
    if n > 0 {
      AllHappen(p, n - 1);
      assert Ticks(p, n)[..n - 1] == Ticks(p, n - 1);
      assert Ticks(p, n) == Ticks(p, n - 1) + [Occurrence(p, Tick, 0)];
    }
  }

  function Upto(n: nat): (c: seq<nat>)
    ensures |c| == n && forall k :: 0 <= k < n ==> c[k] == k
  {
    seq(n, k => k)
  }

  lemma {:induction false} EventsOf(p: NodeId, n: nat, m: nat)
    requires m <= n
    ensures VectorTheorem.CountOf(Ticks(p, n), m, p) == m
  {
    if m > 0 { EventsOf(p, n, m - 1); }
  }

  /** 2^32 events with the wall clock stopped: the hybrid clock is no longer causal. */
  lemma IdleRunBreaksHybrid(p: NodeId)
    ensures var s := Exec(map[], Ticks(p, TWO32)); !HybridTheorem.Causal(s.events, s.stamps)
  {
    var s, c := Exec(map[], Ticks(p, TWO32)), Upto(TWO32);
    AllHappen(p, TWO32);
    ReachableIsStamped(map[], Ticks(p, TWO32));
    assert Chain(s.events, c) && HybridTheorem.ShareReading(s.events, c, 0);
    HybridTheorem.CausalIff(s.events, s.stamps);
  }

  /** 2^64 events at one process: neither the Lamport nor the vector clock keeps its promise. */
  lemma LongRunBreaksCounters(p: NodeId)
    ensures var s := Exec(map[], Ticks(p, TWO64));
            && !LamportTheorem.ClockCondition(s.events, s.stamps)
            && exists i: nat, j: nat :: i < |s.events| && j < |s.events| && i != j
                 && !VectorTheorem.DecidesHappensBefore(s.events, s.stamps, i, j)
  {
    var s, c := Exec(map[], Ticks(p, TWO64)), Upto(TWO64);
    AllHappen(p, TWO64);
    ReachableIsStamped(map[], Ticks(p, TWO64));
    assert Chain(s.events, c);
    LamportTheorem.ClockConditionIff(s.events, s.stamps);
    EventsOf(p, TWO64, TWO64);
    assert VectorTheorem.Rank(s.events, TWO64 - 1) == TWO64;
    VectorTheorem.VectorExactIff(s.events, s.stamps);
  }
}
