/** Kahn's topological sort with an ID tie-break, and the two frontiers of a set of stamped events. */
module PartialOrder {
  import opened Words
  import Finite

  datatype Event<T, D> = Event(id: NodeId, stamp: T, data: D)

  /** `i` must come before `j`: the stamp type's HappensBefore between two different positions. */
  predicate Prec<T, D>(ev: seq<Event<T, D>>, hb: (T, T) -> bool, i: nat, j: nat)
    requires i < |ev| && j < |ev|
  {
    i != j && hb(ev[i].stamp, ev[j].stamp)
  }

  function Select<T, D>(ev: seq<Event<T, D>>, idx: seq<nat>): (out: seq<Event<T, D>>)
    requires forall k :: 0 <= k < |idx| ==> idx[k] < |ev|
    ensures |out| == |idx|
    ensures forall k :: 0 <= k < |idx| ==> out[k] == ev[idx[k]]
  {
    seq(|idx|, k requires 0 <= k < |idx| => ev[idx[k]])
  }

  // ---------- The order in which candidates are scanned ----------

  /** Smaller ID first, earlier position first among equal IDs. */
  predicate TieLess<T, D>(ev: seq<Event<T, D>>, i: nat, j: nat)
    requires i < |ev| && j < |ev|
  {
    LexLess(ev[i].id, ev[j].id) || (ev[i].id == ev[j].id && i < j)
  }

  ghost predicate InRange<T, D>(ev: seq<Event<T, D>>, s: seq<nat>) {
    forall k :: 0 <= k < |s| ==> s[k] < |ev|
  }

  ghost predicate ScanSorted<T, D>(ev: seq<Event<T, D>>, s: seq<nat>) {
    InRange(ev, s) && forall a, b :: 0 <= a < b < |s| ==> TieLess(ev, s[a], s[b])
  }

  /** One step of a stable insertion sort, inserting a position smaller than all present ones. */
  function Insert<T, D>(ev: seq<Event<T, D>>, i: nat, s: seq<nat>): (r: seq<nat>)
    requires i < |ev| && forall k :: 0 <= k < |s| ==> i < s[k] < |ev|
    ensures forall x :: x in r <==> x == i || x in s
  {
    if s == [] || !LexLess(ev[s[0]].id, ev[i].id) then [i] + s
    else [s[0]] + Insert(ev, i, s[1..])
  }

  /** The positions from `k` on, stably sorted by ID: what the library's stable sort leaves in `order`. */
  function ScanOrder<T, D>(ev: seq<Event<T, D>>, k: nat): (r: seq<nat>)
    requires k <= |ev|
    ensures forall x :: x in r <==> k <= x < |ev|
    decreases |ev| - k
  {
    if k == |ev| then [] else
      var rest := ScanOrder(ev, k + 1);
      assert forall q :: 0 <= q < |rest| ==> rest[q] in rest;
      Insert(ev, k, rest)
  }

  lemma TieTransitive<T, D>(ev: seq<Event<T, D>>, i: nat, j: nat, k: nat)
    requires i < |ev| && j < |ev| && k < |ev| && TieLess(ev, i, j) && TieLess(ev, j, k)
    ensures TieLess(ev, i, k)
  {
    if LexLess(ev[i].id, ev[j].id) && LexLess(ev[j].id, ev[k].id) {
      LexTransitive(ev[i].id, ev[j].id, ev[k].id);
    }
  }

  lemma PrependSorted<T, D>(ev: seq<Event<T, D>>, i: nat, s: seq<nat>)
    requires i < |ev| && ScanSorted(ev, s) && (s != [] ==> TieLess(ev, i, s[0]))
    ensures ScanSorted(ev, [i] + s)
  {
    forall b | 0 <= b < |s| ensures TieLess(ev, i, s[b]) {
      if b > 0 { TieTransitive(ev, i, s[0], s[b]); }
    }
  }

  lemma {:induction false} InsertSorted<T, D>(ev: seq<Event<T, D>>, i: nat, s: seq<nat>)
    requires i < |ev| && ScanSorted(ev, s) && forall k :: 0 <= k < |s| ==> i < s[k]
    ensures ScanSorted(ev, Insert(ev, i, s))
  {
    if s == [] {
    } else if LexLess(ev[s[0]].id, ev[i].id) {
      InsertSorted(ev, i, s[1..]);
      PrependSorted(ev, s[0], Insert(ev, i, s[1..]));
    } else {
      LexTotal(ev[s[0]].id, ev[i].id);
      PrependSorted(ev, i, s);
    }
  }

  lemma {:induction false} ScanOrderSorted<T, D>(ev: seq<Event<T, D>>, k: nat)
    requires k <= |ev|
    ensures ScanSorted(ev, ScanOrder(ev, k))
    decreases |ev| - k
  {
    if k < |ev| {
      ScanOrderSorted(ev, k + 1);
      var rest := ScanOrder(ev, k + 1);
      assert forall q :: 0 <= q < |rest| ==> rest[q] in rest;
      InsertSorted(ev, k, rest);
    }
  }

  // ---------- What the sort computes ----------

  /** All of `i`'s predecessors have been emitted and `i` has not. */
  ghost predicate Ready<T, D>(ev: seq<Event<T, D>>, hb: (T, T) -> bool, done: seq<nat>, i: nat) {
    && i < |ev|
    && i !in done
    && forall j: nat :: j < |ev| && Prec(ev, hb, j, i) ==> j in done
  }

  /** The first ready position in scan order. */
  ghost function Next<T, D>(ev: seq<Event<T, D>>, hb: (T, T) -> bool, done: seq<nat>, order: seq<nat>): (r: Option<nat>)
    ensures r.Some? ==> r.value in order && Ready(ev, hb, done, r.value)
  {
    if order == [] then None
    else if Ready(ev, hb, done, order[0]) then Some(order[0])
    else Next(ev, hb, done, order[1..])
  }

  /** The positions in the order they are emitted, continuing from `done`; stops early when nothing is ready. */
  ghost function Kahn<T, D>(ev: seq<Event<T, D>>, hb: (T, T) -> bool, done: seq<nat>): (r: seq<nat>)
    requires InRange(ev, done)
    ensures InRange(ev, r)
    decreases |ev| - |done|
  {
    if |done| >= |ev| then done else
      match Next(ev, hb, done, ScanOrder(ev, 0))
      case None => done
      case Some(c) => Kahn(ev, hb, done + [c])
  }

  // ---------- The in-degree bookkeeping ----------

  /** The successors of `i` among the first `m` positions. */
  function Succs<T, D>(ev: seq<Event<T, D>>, hb: (T, T) -> bool, i: nat, m: nat): (r: seq<nat>)
    requires i < |ev| && m <= |ev|
    ensures forall x: nat :: x in r <==> x < m && Prec(ev, hb, i, x)
    ensures forall a, b :: 0 <= a < b < |r| ==> r[a] < r[b]
  {
    if m == 0 then [] else
      var r := Succs(ev, hb, i, m - 1);
      assert forall a :: 0 <= a < |r| ==> r[a] in r;
      if Prec(ev, hb, i, m - 1) then r + [m - 1] else r
  }

  /** How many of the first `m` positions precede `j` and have not been emitted. */
  ghost function Waiting<T, D>(ev: seq<Event<T, D>>, hb: (T, T) -> bool, done: seq<nat>, j: nat, m: nat): nat
    requires j < |ev| && m <= |ev|
  {
    if m == 0 then 0 else
      Waiting(ev, hb, done, j, m - 1) + if Prec(ev, hb, m - 1, j) && m - 1 !in done then 1 else 0
  }

  lemma {:induction false} WaitingZero<T, D>(ev: seq<Event<T, D>>, hb: (T, T) -> bool, done: seq<nat>, j: nat, m: nat)
    requires j < |ev| && m <= |ev|
    ensures Waiting(ev, hb, done, j, m) == 0 <==> forall i: nat :: i < m && Prec(ev, hb, i, j) ==> i in done
  {
    if m > 0 { WaitingZero(ev, hb, done, j, m - 1); }
  }

  lemma {:induction false} WaitingEmit<T, D>(ev: seq<Event<T, D>>, hb: (T, T) -> bool, done: seq<nat>, c: nat,
                                             j: nat, m: nat)
    requires j < |ev| && m <= |ev| && c < |ev| && c !in done
    ensures Waiting(ev, hb, done + [c], j, m)
            == Waiting(ev, hb, done, j, m) - if c < m && Prec(ev, hb, c, j) then 1 else 0
  {
    if m > 0 { WaitingEmit(ev, hb, done, c, j, m - 1); }
  }

  /** Builds the successor lists and in-degrees. */
  method BuildGraph<T, D>(ev: seq<Event<T, D>>, hb: (T, T) -> bool) returns (succ: array<seq<nat>>, inDeg: array<int>)
    ensures fresh(succ) && fresh(inDeg) && succ.Length == inDeg.Length == |ev|
    ensures forall i :: 0 <= i < |ev| ==> succ[i] == Succs(ev, hb, i, |ev|)
    ensures forall j :: 0 <= j < |ev| ==> inDeg[j] == Waiting(ev, hb, [], j, |ev|)
  {
    var n := |ev|;
    succ := new seq<nat>[n](_ => []);
    inDeg := new int[n](_ => 0);
    for i := 0 to n
      invariant forall q :: 0 <= q < i ==> succ[q] == Succs(ev, hb, q, n)
      invariant forall q :: i <= q < n ==> succ[q] == []
      invariant forall q :: 0 <= q < n ==> inDeg[q] == Waiting(ev, hb, [], q, i)
    {
      var row := BuildRow(ev, hb, i, inDeg);
      succ[i] := succ[i] + row;
    }
  }

  /** The inner loop: all successors of `i`, each counted once. */
  method BuildRow<T, D>(ev: seq<Event<T, D>>, hb: (T, T) -> bool, i: nat, inDeg: array<int>) returns (row: seq<nat>)
    requires i < |ev| == inDeg.Length
    requires forall q :: 0 <= q < |ev| ==> inDeg[q] == Waiting(ev, hb, [], q, i)
    modifies inDeg
    ensures row == Succs(ev, hb, i, |ev|)
    ensures forall q :: 0 <= q < |ev| ==> inDeg[q] == Waiting(ev, hb, [], q, i + 1)
  {
    row := [];
    for j := 0 to |ev|
      invariant row == Succs(ev, hb, i, j)
      invariant forall q :: 0 <= q < j ==> inDeg[q] == Waiting(ev, hb, [], q, i + 1)
      invariant forall q :: j <= q < |ev| ==> inDeg[q] == Waiting(ev, hb, [], q, i)
    {
      if i == j { continue; }
      if hb(ev[i].stamp, ev[j].stamp) {
        row := row + [j];
        inDeg[j] := inDeg[j] + 1;
      }
    }
  }

  /** Scans for the unused position of in-degree zero that comes first in `order`; -1 if there is none. */
  method Choose<T, D>(ev: seq<Event<T, D>>, hb: (T, T) -> bool, ghost done: seq<nat>, order: seq<nat>,
                      used: array<bool>, inDeg: array<int>) returns (chosen: int)
    requires InRange(ev, order) && Booked(ev, hb, done, used, inDeg)
    ensures chosen == -1 || 0 <= chosen < |ev|
    ensures chosen == -1 ==> Next(ev, hb, done, order) == None
    ensures chosen >= 0 ==> Next(ev, hb, done, order) == Some(chosen)
  {
    chosen := -1;
    for k := 0 to |order|
      invariant Next(ev, hb, done, order) == Next(ev, hb, done, order[k..])
    {
      var i := order[k];
      WaitingZero(ev, hb, done, i, |ev|);
      assert order[k..][1..] == order[k + 1..];
      if !used[i] && inDeg[i] == 0 {
        chosen := i;
        return;
      }
    }
  }

  /** Takes an emitted position out of the in-degrees of its successors. */
  method Release<T, D>(ev: seq<Event<T, D>>, hb: (T, T) -> bool, ghost done: seq<nat>, c: nat, succ: seq<nat>,
                       inDeg: array<int>)
    requires inDeg.Length == |ev| && c < |ev| && c !in done && succ == Succs(ev, hb, c, |ev|)
    requires forall i :: 0 <= i < |ev| ==> inDeg[i] == Waiting(ev, hb, done, i, |ev|)
    modifies inDeg
    ensures forall i :: 0 <= i < |ev| ==> inDeg[i] == Waiting(ev, hb, done + [c], i, |ev|)
  {
    for k := 0 to |succ|
      invariant forall i :: 0 <= i < |ev| ==>
        inDeg[i] == Waiting(ev, hb, done, i, |ev|) - (if i in succ[..k] then 1 else 0)
    {
      assert succ[k] in succ;
      assert succ[..k + 1] == succ[..k] + [succ[k]];
      assert succ[k] !in succ[..k];
      inDeg[succ[k]] := inDeg[succ[k]] - 1;
    }
    assert succ[..|succ|] == succ;
    forall i | 0 <= i < |ev| ensures inDeg[i] == Waiting(ev, hb, done + [c], i, |ev|) {
      WaitingEmit(ev, hb, done, c, i, |ev|);
    }
  }

  /** The arrays agree with the set of emitted positions. */
  ghost predicate Booked<T, D>(ev: seq<Event<T, D>>, hb: (T, T) -> bool, done: seq<nat>, used: array<bool>,
                               inDeg: array<int>)
    reads used, inDeg
  {
    && used.Length == inDeg.Length == |ev|
    && forall i: nat :: i < |ev| ==> (used[i] <==> i in done) && inDeg[i] == Waiting(ev, hb, done, i, |ev|)
  }

  lemma SelectAppend<T, D>(ev: seq<Event<T, D>>, idx: seq<nat>, c: nat)
    requires InRange(ev, idx) && c < |ev|
    ensures Select(ev, idx + [c]) == Select(ev, idx) + [ev[c]]
  {
  }

  /** Marks `c` emitted in both arrays. */
  method Emit<T, D>(ev: seq<Event<T, D>>, hb: (T, T) -> bool, ghost done: seq<nat>, c: nat,
                    succ: seq<nat>, used: array<bool>, inDeg: array<int>)
    requires c < |ev| && c !in done && succ == Succs(ev, hb, c, |ev|) && Booked(ev, hb, done, used, inDeg)
    modifies used, inDeg
    ensures Booked(ev, hb, done + [c], used, inDeg)
  {
    used[c] := true;
    Release(ev, hb, done, c, succ, inDeg);
  }

  method TopologicalSort<T, D>(events: seq<Event<T, D>>, hb: (T, T) -> bool) returns (out: seq<Event<T, D>>)
    ensures out == Select(events, Kahn(events, hb, []))
  {
    var n := |events|;
    if n == 0 { return []; }
    var order := ScanOrder(events, 0);
    assert forall k :: 0 <= k < |order| ==> order[k] in order;
    var succ, inDeg := BuildGraph(events, hb);
    var used := new bool[n](_ => false);
    out := [];
    ghost var done: seq<nat> := [];
    while |out| < n
      invariant |done| == |out| && InRange(events, done) && out == Select(events, done)
      invariant Kahn(events, hb, done) == Kahn(events, hb, [])
      invariant forall i :: 0 <= i < n ==> succ[i] == Succs(events, hb, i, n)
      invariant Booked(events, hb, done, used, inDeg)
      decreases n - |out|
    {
      var chosen := Choose(events, hb, done, order, used, inDeg);
      if chosen == -1 { break; }
      out := out + [events[chosen]];
      SelectAppend(events, done, chosen);
      Emit(events, hb, done, chosen, succ[chosen], used, inDeg);
      done := done + [chosen];
    }
  }

  // ---------- The frontiers ----------

  /** No other event is above `i`. */
  predicate IsMaximal<T, D>(ev: seq<Event<T, D>>, hb: (T, T) -> bool, i: nat)
    requires i < |ev|
  {
    forall j: nat :: j < |ev| ==> !Prec(ev, hb, i, j)
  }

  /** The maximal positions below `m`, in input order. */
  function Frontier<T, D>(ev: seq<Event<T, D>>, hb: (T, T) -> bool, m: nat): (r: seq<nat>)
    requires m <= |ev|
    ensures forall x: nat :: x in r <==> x < m && IsMaximal(ev, hb, x)
    ensures forall k :: 0 <= k < |r| ==> r[k] < m
    ensures forall a, b :: 0 <= a < b < |r| ==> r[a] < r[b]
  {
    Finite.Where(m, (i: nat) => i < |ev| && IsMaximal(ev, hb, i))
  }

  function Converse<T>(hb: (T, T) -> bool): (T, T) -> bool { (x, y) => hb(y, x) }

  lemma MaximalPositions<T, D>(ev: seq<Event<T, D>>, hb: (T, T) -> bool, idx: seq<nat>)
    requires idx == Frontier(ev, hb, |ev|)
    ensures forall x: nat :: x in idx <==>
              x < |ev| && forall j: nat :: j < |ev| && j != x ==> !hb(ev[x].stamp, ev[j].stamp)
  {
    forall x: nat | x < |ev|
      ensures IsMaximal(ev, hb, x) <==> forall j: nat :: j < |ev| && j != x ==> !hb(ev[x].stamp, ev[j].stamp)
    {
      assert forall j: nat :: j < |ev| ==> (Prec(ev, hb, x, j) <==> j != x && hb(ev[x].stamp, ev[j].stamp));
    }
  }

  lemma MinimalPositions<T, D>(ev: seq<Event<T, D>>, hb: (T, T) -> bool, idx: seq<nat>)
    requires idx == Frontier(ev, Converse(hb), |ev|)
    ensures forall x: nat :: x in idx <==>
              x < |ev| && forall j: nat :: j < |ev| && j != x ==> !hb(ev[j].stamp, ev[x].stamp)
  {
    MaximalPositions(ev, Converse(hb), idx);
    forall x: nat, j: nat | x < |ev| && j < |ev|
      ensures Converse(hb)(ev[x].stamp, ev[j].stamp) <==> hb(ev[j].stamp, ev[x].stamp)
    {
    }
  }

  method MaximalElements<T, D>(events: seq<Event<T, D>>, hb: (T, T) -> bool) returns (out: seq<Event<T, D>>)
    ensures out == Select(events, Frontier(events, hb, |events|))
    ensures exists idx: seq<nat> ::
              && (forall a, b :: 0 <= a < b < |idx| ==> idx[a] < idx[b])
              && (forall x: nat :: x in idx <==>
                    x < |events| && forall j: nat :: j < |events| && j != x ==> !hb(events[x].stamp, events[j].stamp))
              && |out| == |idx| && (forall k :: 0 <= k < |idx| ==> idx[k] < |events| && out[k] == events[idx[k]])
  {
    out := [];
    for i := 0 to |events|
      invariant out == Select(events, Frontier(events, hb, i))
    {
      var isMax := true;
      for j := 0 to |events|
        invariant isMax <==> forall q: nat :: q < j ==> !Prec(events, hb, i, q)
      {
        if i == j { continue; }
        if hb(events[i].stamp, events[j].stamp) {
          assert Prec(events, hb, i, j);
          isMax := false;
          break;
        }
      }
      assert isMax <==> IsMaximal(events, hb, i);
      if isMax {
        SelectAppend(events, Frontier(events, hb, i), i);
        out := out + [events[i]];
      }
    }
    MaximalPositions(events, hb, Frontier(events, hb, |events|));
  }

  method MinimalElements<T, D>(events: seq<Event<T, D>>, hb: (T, T) -> bool) returns (out: seq<Event<T, D>>)
    ensures out == Select(events, Frontier(events, Converse(hb), |events|))
    ensures exists idx: seq<nat> ::
              && (forall a, b :: 0 <= a < b < |idx| ==> idx[a] < idx[b])
              && (forall x: nat :: x in idx <==>
                    x < |events| && forall j: nat :: j < |events| && j != x ==> !hb(events[j].stamp, events[x].stamp))
              && |out| == |idx| && (forall k :: 0 <= k < |idx| ==> idx[k] < |events| && out[k] == events[idx[k]])
  {
    out := [];
    for i := 0 to |events|
      invariant out == Select(events, Frontier(events, Converse(hb), i))
    {
      var isMin := true;
      for j := 0 to |events|
        invariant isMin <==> forall q: nat :: q < j ==> !Prec(events, Converse(hb), i, q)
      {
        if i == j { continue; }
        if hb(events[j].stamp, events[i].stamp) {
          assert Prec(events, Converse(hb), i, j);
          isMin := false;
          break;
        }
      }
      assert isMin <==> IsMaximal(events, Converse(hb), i);
      if isMin {
        SelectAppend(events, Frontier(events, Converse(hb), i), i);
        out := out + [events[i]];
      }
    }
    MinimalPositions(events, hb, Frontier(events, Converse(hb), |events|));
  }
}
