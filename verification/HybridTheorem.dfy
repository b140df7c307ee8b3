/** The hybrid stamps of a run: wall time is the best reading of the causal past, the logical part counts a plateau. */
module HybridTheorem {
  import opened Words
  import opened Causality
  import opened ClockRun
  import opened HybridClock

  /** `w` is the maximum of zero and every wall reading in the causal past of `j`. */
  ghost predicate IsBestReading(es: seq<Occurrence>, j: nat, w: int) {
    && w >= 0
    && (forall i: nat :: i < |es| && InPast(es, i, j) ==> es[i].wall <= w)
    && (w == 0 || exists i: nat :: i < |es| && InPast(es, i, j) && es[i].wall == w)
  }

  /** The stamp a step starts from: the later of the process's own and the received one. */
  function Top(es: seq<Occurrence>, st: seq<Node>, j: nat): Timestamp
    requires j < |es| == |st| && (es[j].kind.Receive? ==> es[j].kind.msg < j)
  {
    var found := Found(es, st, j).hlc;
    if es[j].kind.Receive? then Later(found, st[es[j].kind.msg].hlc) else found
  }

  /** Whatever the wall clocks do, and however stamps wrap, the wall time is the best reading of the causal past. */
  lemma {:induction false} WallTimeIsBestReading(es: seq<Occurrence>, st: seq<Node>, j: nat)
    requires Stamped(es, st) && j < |es|
    ensures IsBestReading(es, j, st[j].hlc.wallTime)
  {
    HybridPart(es, st, j);
    var w, p, k := st[j].hlc.wallTime, Prev(es, j), es[j].kind;
    if p >= 0 { WallTimeIsBestReading(es, st, p); }
    if k.Receive? { WallTimeIsBestReading(es, st, k.msg); }
    forall i: nat | i < |es| && InPast(es, i, j) ensures es[i].wall <= w {
      PastDecomposes(es, i, j);
    }
    if w != 0 && w != es[j].wall {
      var e := if p >= 0 && st[p].hlc.wallTime == w then p else k.msg;
      var i: nat :| i < |es| && InPast(es, i, e) && es[i].wall == w;
      PastDecomposes(es, i, j);
    }
  }

  /** If every reading is within `eps` of true time, so is every stamp, even across backward wall steps. */
  lemma WallTimeNearTrueTime(es: seq<Occurrence>, st: seq<Node>, truth: seq<int>, eps: int, j: nat)
    requires Stamped(es, st) && j < |es| == |truth|
    requires forall i :: 0 <= i < |es| ==> truth[i] >= 0 && truth[i] - eps <= es[i].wall <= truth[i] + eps
    requires forall i: nat, k: nat :: i < |es| && k < |es| && HappensBefore(es, i, k) ==> truth[i] <= truth[k]
    ensures truth[j] - eps <= st[j].hlc.wallTime <= truth[j] + eps
  {
    WallTimeIsBestReading(es, st, j);
    var w := st[j].hlc.wallTime;
    assert InPast(es, j, j);
    if w != 0 {
      var i: nat :| i < |es| && InPast(es, i, j) && es[i].wall == w;
      assert truth[i] <= truth[j];
    }
  }

  /** A causal chain whose events all carry the same wall time. */
  ghost predicate Plateau(es: seq<Occurrence>, st: seq<Node>, c: seq<nat>)
    requires |es| == |st|
  {
    Chain(es, c) && forall k :: 0 <= k < |c| ==> st[c[k]].hlc.wallTime == st[c[|c| - 1]].hlc.wallTime
  }

  /** Fresh clocks stand at wall time zero, so counting starts at one there and at zero on any later wall time. */
  function Offset(wall: int): int { if wall > 0 then 1 else 0 }

  ghost predicate PlateausFit(es: seq<Occurrence>, st: seq<Node>)
    requires |es| == |st|
  {
    forall c :: Plateau(es, st, c) ==> |c| < TWO32 + Offset(st[c[|c| - 1]].hlc.wallTime)
  }

  /** The same said of the run alone: no chain of events with one best reading outgrows the `uint32`. */
  ghost predicate ReadingsFit(es: seq<Occurrence>) {
    forall c, w :: Chain(es, c) && ShareReading(es, c, w) ==> |c| < TWO32 + Offset(w)
  }

  ghost predicate ShareReading(es: seq<Occurrence>, c: seq<nat>, w: int) {
    forall k :: 0 <= k < |c| ==> IsBestReading(es, c[k], w)
  }

  lemma BestReadingUnique(es: seq<Occurrence>, j: nat, v: int, w: int)
    requires IsBestReading(es, j, v) && IsBestReading(es, j, w)
    ensures v == w
  {
  }

  /** By the theorem on wall times, plateaus of the stamps are chains that share a best reading. */
  lemma PlateauIsSharedReading(es: seq<Occurrence>, st: seq<Node>, c: seq<nat>, w: int)
    requires Stamped(es, st) && Chain(es, c)
    ensures ShareReading(es, c, w) <==> forall k :: 0 <= k < |c| ==> st[c[k]].hlc.wallTime == w
  {
    forall k | 0 <= k < |c| ensures IsBestReading(es, c[k], w) <==> st[c[k]].hlc.wallTime == w {
      WallTimeIsBestReading(es, st, c[k]);
      if IsBestReading(es, c[k], w) { BestReadingUnique(es, c[k], w, st[c[k]].hlc.wallTime); }
    }
  }

  lemma ReadingsFitIff(es: seq<Occurrence>, st: seq<Node>)
    requires Stamped(es, st)
    ensures ReadingsFit(es) <==> PlateausFit(es, st)
  {
    if ReadingsFit(es) {
      forall c | Plateau(es, st, c) ensures |c| < TWO32 + Offset(st[c[|c| - 1]].hlc.wallTime) {
        PlateauIsSharedReading(es, st, c, st[c[|c| - 1]].hlc.wallTime);
      }
    }
    if PlateausFit(es, st) {
      forall c, w | Chain(es, c) && ShareReading(es, c, w) ensures |c| < TWO32 + Offset(w) {
        PlateauIsSharedReading(es, st, c, w);
        assert Plateau(es, st, c);
      }
    }
  }

  ghost predicate PlateauTo(es: seq<Occurrence>, st: seq<Node>, c: seq<nat>, j: nat)
    requires |es| == |st|
  {
    Plateau(es, st, c) && c[|c| - 1] == j
  }

  lemma PlateauExtended(es: seq<Occurrence>, st: seq<Node>, c: seq<nat>, k: nat, j: nat) returns (d: seq<nat>)
    requires |es| == |st| && k < j < |es| && PlateauTo(es, st, c, k) && Edge(es, k, j)
    requires st[k].hlc.wallTime == st[j].hlc.wallTime && PlateausFit(es, st)
    ensures PlateauTo(es, st, d, j) && |d| == |c| + 1 < TWO32 + Offset(st[j].hlc.wallTime)
  {
    d := c + [j];
    ChainAppend(es, c, j);
  }

  /** The event whose stamp is `Top`, or -1 when that is the fresh clock. */
  lemma TopEvent(es: seq<Occurrence>, st: seq<Node>, j: nat) returns (k: int)
    requires Stamped(es, st) && j < |es|
    ensures es[j].kind.Receive? ==> es[j].kind.msg < j
    ensures -1 <= k < j
    ensures k < 0 ==> Top(es, st, j) == ZERO
    ensures k >= 0 ==> Edge(es, k, j) && Top(es, st, j) == st[k].hlc
    ensures st[j].hlc == Advance(Top(es, st, j), es[j].wall)
    ensures Top(es, st, j).wallTime >= 0
  {
    HybridPart(es, st, j);
    var kind := es[j].kind;
    k := if kind.Receive? && Less(Found(es, st, j).hlc, st[kind.msg].hlc) then kind.msg else Prev(es, j);
    if k >= 0 { WallTimeIsBestReading(es, st, k); }
  }

  /** A plateau whose length is what the logical part says; running out of it is the only way to wrap. */
  lemma {:induction false} PlateauOfLogical(es: seq<Occurrence>, st: seq<Node>, j: nat) returns (c: seq<nat>)
    requires Stamped(es, st) && j < |es| && PlateausFit(es, st)
    ensures PlateauTo(es, st, c, j) && |c| == st[j].hlc.logical + Offset(st[j].hlc.wallTime)
    ensures es[j].kind.Receive? ==> es[j].kind.msg < j
    ensures Less(Top(es, st, j), st[j].hlc)
  {
    var k := TopEvent(es, st, j);
    if k >= 0 && st[k].hlc.wallTime == st[j].hlc.wallTime {
      c := PlateauOfLogical(es, st, k);
      c := PlateauExtended(es, st, c, k, j);
    } else {
      c := [j];
    }
  }

  lemma {:induction false} EdgeRaisesStamp(es: seq<Occurrence>, st: seq<Node>, i: nat, j: nat)
    requires Stamped(es, st) && j < |es| && PlateausFit(es, st) && Edge(es, i, j)
    ensures Less(st[i].hlc, st[j].hlc)
    decreases j
  {
    var _ := PlateauOfLogical(es, st, j);
    if es[i].proc == es[j].proc && i < Prev(es, j) {
      EdgeRaisesStamp(es, st, i, Prev(es, j));
    }
  }

  ghost predicate EdgesRaise(es: seq<Occurrence>, st: seq<Node>)
    requires |es| == |st|
  {
    forall i: nat, j: nat :: j < |es| && Edge(es, i, j) ==> Less(st[i].hlc, st[j].hlc)
  }

  lemma {:induction false} PlateauCounts(es: seq<Occurrence>, st: seq<Node>, c: seq<nat>)
    requires Stamped(es, st) && Plateau(es, st, c) && EdgesRaise(es, st)
    ensures st[c[|c| - 1]].hlc.logical >= st[c[0]].hlc.logical + |c| - 1
  {
    if |c| > 1 {
      PlateauCounts(es, st, c[..|c| - 1]);
      assert Edge(es, c[|c| - 2], c[|c| - 1]);
    }
  }

  /** The logical part is exactly the length of the longest plateau ending at the event, less one off wall time zero. */
  lemma LogicalIsPlateauHeight(es: seq<Occurrence>, st: seq<Node>, j: nat)
    requires Stamped(es, st) && j < |es| && ReadingsFit(es)
    ensures var n := st[j].hlc.logical + Offset(st[j].hlc.wallTime);
            && (exists c :: PlateauTo(es, st, c, j) && |c| == n)
            && (forall c :: PlateauTo(es, st, c, j) ==> |c| <= n)
  {
    ReadingsFitIff(es, st);
    var w := PlateauOfLogical(es, st, j);
    assert PlateauTo(es, st, w, j);
    forall i: nat, k: nat | k < |es| && Edge(es, i, k) ensures Less(st[i].hlc, st[k].hlc) {
      EdgeRaisesStamp(es, st, i, k);
    }
    forall c | PlateauTo(es, st, c, j) ensures |c| <= |w| {
      var first := PlateauOfLogical(es, st, c[0]);
      PlateauCounts(es, st, c);
    }
  }

  /** Even when stamps wrap, logical `k` ends a chain of at least `k` events that share its wall time. */
  lemma {:induction false} LogicalNeedsPlateau(es: seq<Occurrence>, st: seq<Node>, j: nat) returns (c: seq<nat>)
    requires Stamped(es, st) && j < |es|
    ensures PlateauTo(es, st, c, j) && |c| >= st[j].hlc.logical
  {
    var k := TopEvent(es, st, j);
    if k >= 0 && st[k].hlc.wallTime == st[j].hlc.wallTime {
      c := LogicalNeedsPlateau(es, st, k);
      ChainAppend(es, c, j);
      c := c + [j];
    } else {
      c := [j];
    }
  }

  /** What hybrid stamps promise: causes carry smaller timestamps. */
  ghost predicate Causal(es: seq<Occurrence>, st: seq<Node>)
    requires |es| == |st|
  {
    forall i: nat, j: nat :: i < |es| && j < |es| && HappensBefore(es, i, j) ==> Less(st[i].hlc, st[j].hlc)
  }

  lemma CausalForbidsZero(es: seq<Occurrence>, st: seq<Node>, j: nat)
    requires Stamped(es, st) && j < |es| && Causal(es, st)
    ensures st[j].hlc.logical + Offset(st[j].hlc.wallTime) >= 1
  {
    var k := TopEvent(es, st, j);
    if k >= 0 { EdgeIsHappensBefore(es, k, j); }
  }

  lemma {:induction false} ChainRaises(es: seq<Occurrence>, st: seq<Node>, c: seq<nat>)
    requires Stamped(es, st) && Chain(es, c) && EdgesRaise(es, st)
    ensures |c| >= 2 ==> Less(st[c[0]].hlc, st[c[|c| - 1]].hlc)
  {
    if |c| >= 2 {
      ChainRaises(es, st, c[..|c| - 1]);
      assert Edge(es, c[|c| - 2], c[|c| - 1]);
    }
  }

  lemma CausalIffPlateausFit(es: seq<Occurrence>, st: seq<Node>)
    requires Stamped(es, st)
    ensures Causal(es, st) <==> PlateausFit(es, st)
  {
    if Causal(es, st) {
      forall i: nat, j: nat | j < |es| && Edge(es, i, j) ensures Less(st[i].hlc, st[j].hlc) {
        EdgeIsHappensBefore(es, i, j);
      }
      forall c | Plateau(es, st, c) ensures |c| < TWO32 + Offset(st[c[|c| - 1]].hlc.wallTime) {
        CausalForbidsZero(es, st, c[0]);
        PlateauCounts(es, st, c);
      }
    }
    if PlateausFit(es, st) {
      forall i: nat, k: nat | k < |es| && Edge(es, i, k) ensures Less(st[i].hlc, st[k].hlc) {
        EdgeRaisesStamp(es, st, i, k);
      }
      forall i: nat, j: nat | i < |es| && j < |es| && HappensBefore(es, i, j) ensures Less(st[i].hlc, st[j].hlc) {
        var c :| Chain(es, c) && |c| >= 2 && c[0] == i && c[|c| - 1] == j;
        ChainRaises(es, st, c);
      }
    }
  }

  /** Happens-before implies `Less` in a whole run exactly when no chain with one best reading outgrows a `uint32`. */
  lemma CausalIff(es: seq<Occurrence>, st: seq<Node>)
    requires Stamped(es, st)
    ensures Causal(es, st) <==> ReadingsFit(es)
  {
    ReadingsFitIff(es, st);
    CausalIffPlateausFit(es, st);
  }

  /** Any execution of fewer than 2^32 attempted events, under any drift limits, is causal. */
  lemma EveryShortRunIsCausal(drift: map<NodeId, int64>, acts: seq<Occurrence>)
    requires |acts| < TWO32
    ensures Causal(Exec(drift, acts).events, Exec(drift, acts).stamps)
  {
    var s := Exec(drift, acts);
    ReachableIsStamped(drift, acts);
    forall c, w | Chain(s.events, c) && ShareReading(s.events, c, w) ensures |c| < TWO32 + Offset(w) {
      ChainLength(s.events, c);
    }
    CausalIff(s.events, s.stamps);
  }
}
