/** A system of processes, each owning a Lamport, a vector and a hybrid clock, exchanging stamped messages. */
module ClockRun {
  import opened Words
  import opened Counters
  import opened Causality
  import LamportClock
  import VectorClock
  import HybridClock

  /** The three clocks of one process; also the stamp of an event, which is the state it leaves behind. */
  datatype Node = Node(lamport: uint64, vec: Counters, hlc: HybridClock.Timestamp)

  const FRESH := Node(0, map[], HybridClock.ZERO)

  /** What the three clocks do on one event; a receive is handed the stamps of the send. */
  function Apply(n: Node, o: Occurrence, stamps: seq<Node>): Node
    requires o.kind.Receive? ==> o.kind.msg < |stamps|
  {
    if o.kind.Receive? then
      var remote := stamps[o.kind.msg];
      Node(LamportClock.Received(n.lamport, remote.lamport),
           VectorClock.Received(n.vec, remote.vec, o.proc),
           HybridClock.Merged(n.hlc, remote.hlc, o.wall))
    else
      Node(Inc64(n.lamport), Bump(n.vec, o.proc), HybridClock.Advance(n.hlc, o.wall))
  }

  datatype System = System(nodes: map<NodeId, Node>, events: seq<Occurrence>, stamps: seq<Node>)

  function NodeOf(s: System, p: NodeId): Node { if p in s.nodes then s.nodes[p] else FRESH }

  /** An attempted event. There is nothing to receive before a send; a receive past the drift limit leaves no trace. */
  function Step(drift: map<NodeId, int64>, s: System, o: Occurrence): System
    requires |s.events| == |s.stamps|
  {
    if !Deliverable(s.events, o.kind) then s
    else if
      o.kind.Receive? && o.proc in drift && HybridClock.Rejects(drift[o.proc], s.stamps[o.kind.msg].hlc, o.wall)
    then s
    else
      var n := Apply(NodeOf(s, o.proc), o, s.stamps);
      System(s.nodes[o.proc := n], s.events + [o], s.stamps + [n])
  }

  /** Any interleaving of attempts, from fresh clocks. `drift` holds the limits of the processes that set one. */
  function Exec(drift: map<NodeId, int64>, acts: seq<Occurrence>): (s: System)
    ensures |s.events| == |s.stamps| <= |acts|
  {
    if acts == [] then System(map[], [], [])
    else Step(drift, Exec(drift, acts[..|acts| - 1]), acts[|acts| - 1])
  }

  /** The state in which event `j` found its process. */
  function Found(es: seq<Occurrence>, st: seq<Node>, j: nat): Node
    requires j < |es| == |st|
  {
    if Prev(es, j) < 0 then FRESH else st[Prev(es, j)]
  }

  /** Each stamp is what the clocks make of the previous stamp of the process and the stamp of the message. */
  ghost predicate Stamped(es: seq<Occurrence>, st: seq<Node>) {
    |es| == |st| && forall j :: 0 <= j < |es| ==> StampedAt(es, st, j)
  }

  ghost predicate StampedAt(es: seq<Occurrence>, st: seq<Node>, j: nat)
    requires j < |es| == |st|
  {
    && Deliverable(es[..j], es[j].kind)
    && st[j] == Apply(Found(es, st, j), es[j], st)
  }

  lemma LamportPart(es: seq<Occurrence>, st: seq<Node>, j: nat)
    requires Stamped(es, st) && j < |es|
    ensures es[j].kind.Receive? ==> es[j].kind.msg < j && Edge(es, es[j].kind.msg, j)
    ensures st[j].lamport ==
            if es[j].kind.Receive? then LamportClock.Received(Found(es, st, j).lamport, st[es[j].kind.msg].lamport)
            else Inc64(Found(es, st, j).lamport)
  {
    assert StampedAt(es, st, j);
  }

  lemma VectorPart(es: seq<Occurrence>, st: seq<Node>, j: nat)
    requires Stamped(es, st) && j < |es|
    ensures es[j].kind.Receive? ==> es[j].kind.msg < j && Edge(es, es[j].kind.msg, j)
    ensures st[j].vec ==
            if es[j].kind.Receive? then VectorClock.Received(Found(es, st, j).vec, st[es[j].kind.msg].vec, es[j].proc)
            else Bump(Found(es, st, j).vec, es[j].proc)
  {
    assert StampedAt(es, st, j);
  }

  /** A receive moves the hybrid clock from the later of the local and the received stamp. */
  lemma HybridPart(es: seq<Occurrence>, st: seq<Node>, j: nat)
    requires Stamped(es, st) && j < |es|
    ensures es[j].kind.Receive? ==> es[j].kind.msg < j && Edge(es, es[j].kind.msg, j)
    ensures var found := Found(es, st, j).hlc;
            var top := if es[j].kind.Receive? then HybridClock.Later(found, st[es[j].kind.msg].hlc) else found;
            st[j].hlc == HybridClock.Advance(top, es[j].wall)
  {
    assert StampedAt(es, st, j);
    if es[j].kind.Receive? {
      HybridClock.ReceiveIsNowFromTheLater(Found(es, st, j).hlc, st[es[j].kind.msg].hlc, es[j].wall);
    }
  }

  lemma {:induction false} LastOfPrefix(es: seq<Occurrence>, m: nat, n: nat, p: NodeId)
    requires n <= m <= |es|
    ensures LastOf(es[..m], n, p) == LastOf(es, n, p)
  {
    if n > 0 { LastOfPrefix(es, m, n - 1, p); }
  }

  lemma StampedPrefix(es: seq<Occurrence>, st: seq<Node>, m: nat, j: nat)
    requires j < m <= |es| == |st|
    ensures StampedAt(es[..m], st[..m], j) <==> StampedAt(es, st, j)
  {
    LastOfPrefix(es, m, j, es[j].proc);
    assert es[..m][..j] == es[..j];
  }

  /** The stamp of the last event of `p`, which is where its clocks stand. */
  function Standing(es: seq<Occurrence>, st: seq<Node>, p: NodeId): Node
    requires |es| == |st|
  {
    if LastOf(es, |es|, p) < 0 then FRESH else st[LastOf(es, |es|, p)]
  }

  lemma StampedAppend(es: seq<Occurrence>, st: seq<Node>, o: Occurrence, n: Node)
    requires |es| == |st| && Deliverable(es, o.kind)
    ensures Stamped(es + [o], st + [n]) <==> Stamped(es, st) && n == Apply(Standing(es, st, o.proc), o, st)
  {
    var es', st', m := es + [o], st + [n], |es|;
    assert es'[..m] == es && st'[..m] == st;
    LastOfPrefix(es', m, m, o.proc);
    forall j: nat | j < m ensures StampedAt(es', st', j) <==> StampedAt(es, st, j) {
      StampedPrefix(es', st', m, j);
    }
    assert StampedAt(es', st', m) <==> n == Apply(Standing(es, st, o.proc), o, st);
  }

  lemma StandingAppend(es: seq<Occurrence>, st: seq<Node>, o: Occurrence, n: Node, p: NodeId)
    requires |es| == |st|
    ensures Standing(es + [o], st + [n], p) == if p == o.proc then n else Standing(es, st, p)
  {
    LastOfPrefix(es + [o], |es|, |es|, p);
    assert (es + [o])[..|es|] == es;
  }

  ghost predicate Invariant(s: System) {
    && |s.events| == |s.stamps|
    && Stamped(s.events, s.stamps)
    && forall p :: NodeOf(s, p) == Standing(s.events, s.stamps, p)
  }

  lemma StepKeepsInvariant(drift: map<NodeId, int64>, s: System, o: Occurrence)
    requires Invariant(s)
    ensures Invariant(Step(drift, s, o))
  {
    var t := Step(drift, s, o);
    if t != s {
      assert Deliverable(s.events, o.kind);
      var n := Apply(NodeOf(s, o.proc), o, s.stamps);
      assert t == System(s.nodes[o.proc := n], s.events + [o], s.stamps + [n]);
      assert NodeOf(s, o.proc) == Standing(s.events, s.stamps, o.proc);
      StampedAppend(s.events, s.stamps, o, n);
      forall p ensures NodeOf(t, p) == Standing(t.events, t.stamps, p) {
        StandingAppend(s.events, s.stamps, o, n, p);
        assert NodeOf(t, p) == if p == o.proc then n else NodeOf(s, p);
      }
    }
  }

  /** Every reachable log is stamped, and each process's clocks stand at the stamp of its last event. */
  lemma {:induction false} ReachableIsStamped(drift: map<NodeId, int64>, acts: seq<Occurrence>)
    ensures Invariant(Exec(drift, acts))
  {
    if acts != [] {
      ReachableIsStamped(drift, acts[..|acts| - 1]);
      StepKeepsInvariant(drift, Exec(drift, acts[..|acts| - 1]), acts[|acts| - 1]);
    }
  }

  /** Conversely every stamped log is reached when no process sets a drift limit: `Stamped` describes all runs. */
  lemma {:induction false} StampedIsReachable(es: seq<Occurrence>, st: seq<Node>)
    requires Stamped(es, st)
    ensures Exec(map[], es).events == es && Exec(map[], es).stamps == st
  {
    if es != [] {
      var n := |es| - 1;
      assert es == es[..n] + [es[n]] && st == st[..n] + [st[n]];
      assert StampedAt(es, st, n);
      StampedAppend(es[..n], st[..n], es[n], st[n]);
      StampedIsReachable(es[..n], st[..n]);
      ReachableIsStamped(map[], es[..n]);
    }
  }
}
