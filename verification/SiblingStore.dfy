/** The key-value store of the vector example: an incrementally maintained set of concurrent siblings. */
module SiblingStore {
  import opened Words
  import opened Counters
  import opened VectorClock
  import opened PartialOrder
  import SortTheorem
  import FrontierTheorem
  import Finite
  import Causality
  import ClockRun
  import VectorTheorem

  datatype VersionedValue = VersionedValue(value: seq<byte>, version: Snapshot)

  type Rows = map<seq<byte>, seq<VersionedValue>>

  predicate Stale(rows: seq<VersionedValue>, w: VersionedValue) {
    exists k :: 0 <= k < |rows| && Relate(w.version.vec, rows[k].version.vec) in {Before, Equal}
  }

  /** The rows that are not causally older than `w`. */
  function Keepers(rows: seq<VersionedValue>, w: VersionedValue): seq<VersionedValue> {
    if rows == [] then [] else
      var front, row := Keepers(rows[..|rows| - 1], w), rows[|rows| - 1];
      if Relate(row.version.vec, w.version.vec) == Before then front else front + [row]
  }

  function Written(rows: seq<VersionedValue>, w: VersionedValue): seq<VersionedValue> {
    if Stale(rows, w) then rows else Keepers(rows, w) + [w]
  }

  function RowsOf(rows: Rows, key: seq<byte>): seq<VersionedValue> { if key in rows then rows[key] else [] }

  class Store {
    var rows: Rows

    constructor ()
      ensures rows == map[]
    {
      rows := map[];
    }

    method Write(key: seq<byte>, value: seq<byte>, version: Snapshot)
      modifies this
      ensures var w := VersionedValue(value, version);
              rows == if Stale(RowsOf(old(rows), key), w) then old(rows)
                      else old(rows)[key := Written(RowsOf(old(rows), key), w)]
    {
      var existing := RowsOf(rows, key);
      var w := VersionedValue(value, version);
      for k := 0 to |existing|
        invariant rows == old(rows)
        invariant forall q :: 0 <= q < k ==> Relate(version.vec, existing[q].version.vec) !in {Before, Equal}
      {
        var rel := Compare(version, existing[k].version);
        if rel == Before || rel == Equal {
          assert Stale(existing, w);
          return;
        }
      }
      var keepers: seq<VersionedValue> := [];
      for k := 0 to |existing|
        invariant rows == old(rows)
        invariant keepers == Keepers(existing[..k], w)
      {
        assert existing[..k + 1][..k] == existing[..k];
        var rel := Compare(existing[k].version, version);
        if rel == Before { continue; }
        keepers := keepers + [existing[k]];
      }
      assert existing[..|existing|] == existing;
      keepers := keepers + [w];
      rows := rows[key := keepers];
    }

    method Read(key: seq<byte>) returns (r: seq<VersionedValue>)
      ensures r == RowsOf(rows, key)
    {
      r := if key in rows then rows[key] else [];
    }
  }

  // ---------- One key: the incremental store against a definition from scratch ----------

  /** The rows of one key after the writes `ws`, in order. */
  function WriteAll(ws: seq<VersionedValue>): seq<VersionedValue> {
    if ws == [] then [] else Written(WriteAll(ws[..|ws| - 1]), ws[|ws| - 1])
  }

  predicate Older(a: Counters, b: Counters) { Relate(a, b) == Before }

  /** The writes as input to the frontier functions. */
  function AsEvents(ws: seq<VersionedValue>): (ev: seq<Event<Counters, VersionedValue>>)
    ensures |ev| == |ws| && forall i :: 0 <= i < |ws| ==> ev[i] == Event([], ws[i].version.vec, ws[i])
  {
    seq(|ws|, i requires 0 <= i < |ws| => Event([], ws[i].version.vec, ws[i]))
  }

  /** No write supersedes write `i`. */
  predicate Unsurpassed(ws: seq<VersionedValue>, i: nat)
    requires i < |ws|
  {
    forall j: nat :: j < |ws| ==> Relate(ws[i].version.vec, ws[j].version.vec) != Before
  }

  /** Write `i` is unsurpassed and the first to carry its version. */
  predicate IsTop(ws: seq<VersionedValue>, i: nat)
    requires i < |ws|
  {
    && Unsurpassed(ws, i)
    && forall j: nat :: j < i ==> Relate(ws[j].version.vec, ws[i].version.vec) != Equal
  }

  /** The positions of those writes below `m`. */
  function TopIdx(ws: seq<VersionedValue>, m: nat): (r: seq<nat>)
    requires m <= |ws|
    ensures forall x: nat :: x in r <==> x < m && IsTop(ws, x)
    ensures forall k :: 0 <= k < |r| ==> r[k] < m
    ensures forall a, b :: 0 <= a < b < |r| ==> r[a] < r[b]
  {
    Finite.Where(m, (i: nat) => i < |ws| && IsTop(ws, i))
  }

  function Pick(ws: seq<VersionedValue>, idx: seq<nat>): (r: seq<VersionedValue>)
    requires forall k :: 0 <= k < |idx| ==> idx[k] < |ws|
    ensures |r| == |idx| && forall k :: 0 <= k < |idx| ==> r[k] == ws[idx[k]]
  {
    seq(|idx|, k requires 0 <= k < |idx| => ws[idx[k]])
  }

  /** Those writes, in the order they were made. */
  function Tops(ws: seq<VersionedValue>, m: nat): seq<VersionedValue>
    requires m <= |ws|
  {
    Pick(ws, TopIdx(ws, m))
  }

  lemma TopsFrom(ws: seq<VersionedValue>, m: nat, k: nat) returns (i: nat)
    requires m <= |ws| && k < |Tops(ws, m)|
    ensures i < m && IsTop(ws, i) && ws[i] == Tops(ws, m)[k]
  {
    i := TopIdx(ws, m)[k];
    assert i in TopIdx(ws, m);
  }

  lemma TopsInclude(ws: seq<VersionedValue>, m: nat, i: nat) returns (k: nat)
    requires i < m <= |ws| && IsTop(ws, i)
    ensures k < |Tops(ws, m)| && Tops(ws, m)[k] == ws[i]
  {
    assert i in TopIdx(ws, m);
    k :| k < |TopIdx(ws, m)| && TopIdx(ws, m)[k] == i;
  }

  lemma VersionsAreOrdered(ws: seq<VersionedValue>)
    ensures SortTheorem.StrictlyOrdered(AsEvents(ws), Older)
  {
    var ev := AsEvents(ws);
    forall i: nat, j: nat, k: nat
      | i < |ev| && j < |ev| && k < |ev| && Older(ev[i].stamp, ev[j].stamp) && Older(ev[j].stamp, ev[k].stamp)
      ensures Older(ev[i].stamp, ev[k].stamp)
    {
      CompareIsAPartialOrder(ev[i].stamp, ev[j].stamp, ev[k].stamp);
    }
  }

  /** Unsurpassed is what the frontier functions call maximal. */
  lemma UnsurpassedIsMaximal(ws: seq<VersionedValue>, i: nat)
    requires i < |ws|
    ensures IsMaximal(AsEvents(ws), Older, i) <==> Unsurpassed(ws, i)
  {
    CompareIsAPartialOrder(ws[i].version.vec, ws[i].version.vec, ws[i].version.vec);
    if IsMaximal(AsEvents(ws), Older, i) {
      forall j: nat | j < |ws| ensures Relate(ws[i].version.vec, ws[j].version.vec) != Before {
        assert !Prec(AsEvents(ws), Older, i, j);
      }
    }
  }

  lemma {:induction false} FirstEqual(ws: seq<VersionedValue>, i: nat, m: nat) returns (f: nat)
    requires i <= m < |ws| && Relate(ws[i].version.vec, ws[m].version.vec) == Equal
    ensures f <= i && Relate(ws[f].version.vec, ws[m].version.vec) == Equal
    ensures forall j :: 0 <= j < f ==> Relate(ws[j].version.vec, ws[f].version.vec) != Equal
  {
    if j :| 0 <= j < i && Relate(ws[j].version.vec, ws[i].version.vec) == Equal {
      CompareIsAPartialOrder(ws[j].version.vec, ws[i].version.vec, ws[m].version.vec);
      f := FirstEqual(ws, j, m);
    } else {
      f := i;
    }
  }

  /** Every write is Before or Equal to a top one. */
  lemma TopsCover(ws: seq<VersionedValue>, i: nat) returns (t: nat)
    requires i < |ws|
    ensures t < |ws| && IsTop(ws, t) && Leq(ws[i].version.vec, ws[t].version.vec)
  {
    VersionsAreOrdered(ws);
    var m := FrontierTheorem.ClimbToFrontier(AsEvents(ws), Older, i);
    CompareIsAPartialOrder(ws[m].version.vec, ws[m].version.vec, ws[m].version.vec);
    t := FirstEqual(ws, m, m);
    UnsurpassedIsMaximal(ws, m);
    forall j: nat | j < |ws| ensures Relate(ws[t].version.vec, ws[j].version.vec) != Before {
      CompareIsAPartialOrder(ws[t].version.vec, ws[m].version.vec, ws[j].version.vec);
    }
    LeqThrough(ws[i].version.vec, ws[m].version.vec, ws[t].version.vec);
  }

  lemma LeqThrough(a: Counters, b: Counters, c: Counters)
    requires Leq(a, b) || a == b
    requires Leq(b, c)
    ensures Leq(a, c)
  {
    if Leq(a, b) { LeqTransitive(a, b, c); }
  }

  /** A new write leaves an older one top exactly if it does not supersede it. */
  lemma TopAfter(ws: seq<VersionedValue>, w: VersionedValue, i: nat)
    requires i < |ws|
    ensures IsTop(ws + [w], i) <==> IsTop(ws, i) && Relate(ws[i].version.vec, w.version.vec) != Before
  {
    var all := ws + [w];
    assert forall j: nat :: j < |ws| ==> all[j] == ws[j];
    assert all[|ws|] == w;
  }

  lemma KeepersAppend(rows: seq<VersionedValue>, row: VersionedValue, w: VersionedValue)
    ensures Keepers(rows + [row], w)
            == if Relate(row.version.vec, w.version.vec) == Before then Keepers(rows, w) else Keepers(rows, w) + [row]
  {
    assert (rows + [row])[..|rows|] == rows;
  }

  lemma PickAppend(ws: seq<VersionedValue>, idx: seq<nat>, i: nat)
    requires i < |ws| && forall k :: 0 <= k < |idx| ==> idx[k] < |ws|
    ensures Pick(ws, idx + [i]) == Pick(ws, idx) + [ws[i]]
  {
  }

  lemma TopsStep(ws: seq<VersionedValue>, m: nat)
    requires m < |ws|
    ensures Tops(ws, m + 1) == if IsTop(ws, m) then Tops(ws, m) + [ws[m]] else Tops(ws, m)
  {
    PickAppend(ws, TopIdx(ws, m), m);
  }

  lemma {:induction false} TopsAfter(ws: seq<VersionedValue>, w: VersionedValue, m: nat)
    requires m <= |ws|
    ensures Tops(ws + [w], m) == Keepers(Tops(ws, m), w)
  {
    if m > 0 {
      var k := m - 1;
      TopsAfter(ws, w, k);
      TopsStep(ws, k);
      TopsStep(ws + [w], k);
      TopAfter(ws, w, k);
      KeepersAppend(Tops(ws, k), ws[k], w);
      assert (ws + [w])[k] == ws[k];
    }
  }

  lemma {:induction false} NothingDropped(rows: seq<VersionedValue>, w: VersionedValue)
    requires forall k :: 0 <= k < |rows| ==> Relate(rows[k].version.vec, w.version.vec) != Before
    ensures Keepers(rows, w) == rows
  {
    if rows != [] { NothingDropped(rows[..|rows| - 1], w); }
  }

  /** A top row never lies below a write that is itself below some write. */
  lemma TopNotBelow(ws: seq<VersionedValue>, w: VersionedValue, p: nat, i: nat)
    requires p < |ws| && i < |ws| && IsTop(ws, p) && Leq(w.version.vec, ws[i].version.vec)
    ensures Relate(ws[p].version.vec, w.version.vec) != Before
  {
    assert Relate(ws[p].version.vec, ws[i].version.vec) != Before;
    if Leq(ws[p].version.vec, w.version.vec) {
      LeqTransitive(ws[p].version.vec, w.version.vec, ws[i].version.vec);
    }
    if Leq(ws[i].version.vec, ws[p].version.vec) {
      LeqTransitive(w.version.vec, ws[i].version.vec, ws[p].version.vec);
    }
  }

  /** A stale write is not top, and supersedes no top row. */
  lemma StaleIsNotTop(ws: seq<VersionedValue>, w: VersionedValue)
    requires Stale(Tops(ws, |ws|), w)
    ensures !IsTop(ws + [w], |ws|)
    ensures Keepers(Tops(ws, |ws|), w) == Tops(ws, |ws|)
  {
    var all, n, T := ws + [w], |ws|, Tops(ws, |ws|);
    var k :| 0 <= k < |T| && Relate(w.version.vec, T[k].version.vec) in {Before, Equal};
    var i := TopsFrom(ws, n, k);
    assert all[i] == ws[i] && all[n] == w;
    CompareIsAPartialOrder(w.version.vec, ws[i].version.vec, w.version.vec);
    forall q | 0 <= q < |T| ensures Relate(T[q].version.vec, w.version.vec) != Before {
      var p := TopsFrom(ws, n, q);
      TopNotBelow(ws, w, p, i);
    }
    NothingDropped(T, w);
  }

  /** A write that is not stale is on top of everything before it. */
  lemma FreshIsTop(ws: seq<VersionedValue>, w: VersionedValue)
    requires !Stale(Tops(ws, |ws|), w)
    ensures IsTop(ws + [w], |ws|)
  {
    var all, n, T := ws + [w], |ws|, Tops(ws, |ws|);
    assert all[n] == w;
    forall j: nat | j < n
      ensures all[j] == ws[j] && !Leq(w.version.vec, ws[j].version.vec)
    {
      var t := TopsCover(ws, j);
      var k := TopsInclude(ws, n, t);
      assert Relate(w.version.vec, T[k].version.vec) !in {Before, Equal};
      if Leq(w.version.vec, ws[j].version.vec) {
        LeqTransitive(w.version.vec, ws[j].version.vec, ws[t].version.vec);
      }
    }
    CompareIsAPartialOrder(w.version.vec, w.version.vec, w.version.vec);
  }

  /** The incremental store holds exactly the maximal writes, each version represented by its first writer. */
  lemma {:induction false} StoreIsFrontier(ws: seq<VersionedValue>)
    ensures WriteAll(ws) == Tops(ws, |ws|)
  {
    if ws != [] {
      var n := |ws| - 1;
      var front, w := ws[..n], ws[n];
      assert ws == front + [w];
      StoreIsFrontier(front);
      TopsAfter(front, w, n);
      TopsStep(ws, n);
      if Stale(Tops(front, n), w) { StaleIsNotTop(front, w); } else { FreshIsTop(front, w); }
    }
  }

  // ---------- What a reader of the store may rely on ----------

  lemma TopsConcurrent(ws: seq<VersionedValue>, i: nat, j: nat)
    requires i < |ws| && j < |ws| && i != j && IsTop(ws, i) && IsTop(ws, j)
    ensures Relate(ws[i].version.vec, ws[j].version.vec) == Concurrent
  {
    CompareIsAPartialOrder(ws[i].version.vec, ws[j].version.vec, ws[i].version.vec);
    CompareIsAPartialOrder(ws[j].version.vec, ws[i].version.vec, ws[j].version.vec);
  }

  lemma TopsIncrease(ws: seq<VersionedValue>, a: nat, b: nat)
    requires a < b < |Tops(ws, |ws|)|
    ensures Relate(Tops(ws, |ws|)[a].version.vec, Tops(ws, |ws|)[b].version.vec) == Concurrent
  {
    var idx := TopIdx(ws, |ws|);
    assert idx[a] in idx && idx[b] in idx;
    TopsConcurrent(ws, idx[a], idx[b]);
  }

  /** Pairwise concurrent rows. */
  ghost predicate Siblings(S: seq<VersionedValue>) {
    forall a, b :: 0 <= a < b < |S| ==> Relate(S[a].version.vec, S[b].version.vec) == Concurrent
  }

  lemma StoredAreSiblings(ws: seq<VersionedValue>)
    ensures Siblings(WriteAll(ws))
  {
    StoreIsFrontier(ws);
    forall a: nat, b: nat | a < b < |WriteAll(ws)|
      ensures Relate(WriteAll(ws)[a].version.vec, WriteAll(ws)[b].version.vec) == Concurrent
    {
      TopsIncrease(ws, a, b);
    }
  }

  /** Every write is stored or causally covered by one that is. */
  lemma EveryWriteIsCovered(ws: seq<VersionedValue>, i: nat) returns (k: nat)
    requires i < |ws|
    ensures k < |WriteAll(ws)| && Relate(ws[i].version.vec, WriteAll(ws)[k].version.vec) in {Before, Equal}
    ensures WriteAll(ws)[k] in ws
  {
    StoreIsFrontier(ws);
    var t := TopsCover(ws, i);
    k := TopsInclude(ws, |ws|, t);
  }

  /** Every version of `xs` occurs, up to `Equal`, in `ys`. */
  ghost predicate VersionsWithin(xs: seq<VersionedValue>, ys: seq<VersionedValue>) {
    forall x :: x in xs ==> exists k :: 0 <= k < |ys| && Relate(x.version.vec, ys[k].version.vec) == Equal
  }

  /** A version on top of one delivery of the writes is on top of any other delivery of the same versions. */
  lemma SurvivorWithin(xs: seq<VersionedValue>, ys: seq<VersionedValue>, i: nat) returns (t: nat)
    requires VersionsWithin(xs, ys) && VersionsWithin(ys, xs) && i < |xs| && IsTop(xs, i)
    ensures t < |ys| && IsTop(ys, t) && Relate(xs[i].version.vec, ys[t].version.vec) == Equal
  {
    assert xs[i] in xs;
    var j: nat :| j < |ys| && Relate(xs[i].version.vec, ys[j].version.vec) == Equal;
    t := TopsCover(ys, j);
    LeqTransitive(xs[i].version.vec, ys[j].version.vec, ys[t].version.vec);
    assert ys[t] in ys;
    var p: nat :| p < |xs| && Relate(ys[t].version.vec, xs[p].version.vec) == Equal;
    LeqTransitive(xs[i].version.vec, ys[t].version.vec, xs[p].version.vec);
    assert Relate(xs[i].version.vec, xs[p].version.vec) != Before;
    LeqTransitive(ys[t].version.vec, xs[p].version.vec, xs[i].version.vec);
  }

  lemma SurvivorsWithin(xs: seq<VersionedValue>, ys: seq<VersionedValue>)
    requires VersionsWithin(xs, ys) && VersionsWithin(ys, xs)
    ensures VersionsWithin(WriteAll(xs), WriteAll(ys))
  {
    StoreIsFrontier(xs);
    StoreIsFrontier(ys);
    var S, R := Tops(xs, |xs|), Tops(ys, |ys|);
    forall r | r in S ensures exists k :: 0 <= k < |R| && Relate(r.version.vec, R[k].version.vec) == Equal {
      var q: nat :| q < |S| && S[q] == r;
      var i := TopsFrom(xs, |xs|, q);
      var t := SurvivorWithin(xs, ys, i);
      var k := TopsInclude(ys, |ys|, t);
    }
  }

  /** A version with its stored zeros dropped; `Equal` versions are those with the same one. */
  function Canonical(v: Counters): Counters { map k | k in v && v[k] > 0 :: v[k] }

  lemma EqualIsCanonical(a: Counters, b: Counters)
    ensures Relate(a, b) == Equal <==> Canonical(a) == Canonical(b)
  {
    if Canonical(a) == Canonical(b) {
      forall k | k in a ensures a[k] <= Get(b, k) {
        if a[k] > 0 { assert Canonical(a)[k] == Canonical(b)[k]; }
      }
      forall k | k in b ensures b[k] <= Get(a, k) {
        if b[k] > 0 { assert Canonical(b)[k] == Canonical(a)[k]; }
      }
    }
    if Relate(a, b) == Equal {
      forall k | k in Canonical(a) ensures k in Canonical(b) && Canonical(b)[k] == Canonical(a)[k] {}
      forall k | k in Canonical(b) ensures k in Canonical(a) {}
    }
  }

  function Canonicals(S: seq<VersionedValue>): (c: seq<Counters>)
    ensures |c| == |S| && forall k :: 0 <= k < |S| ==> c[k] == Canonical(S[k].version.vec)
  {
    seq(|S|, k requires 0 <= k < |S| => Canonical(S[k].version.vec))
  }

  lemma CanonicalsWithin(S: seq<VersionedValue>, R: seq<VersionedValue>)
    requires VersionsWithin(S, R)
    ensures forall c :: c in Canonicals(S) ==> c in Canonicals(R)
  {
    forall c | c in Canonicals(S) ensures c in Canonicals(R) {
      var q: nat :| q < |S| && Canonicals(S)[q] == c;
      assert S[q] in S;
      var k: nat :| k < |R| && Relate(S[q].version.vec, R[k].version.vec) == Equal;
      EqualIsCanonical(S[q].version.vec, R[k].version.vec);
      assert Canonicals(R)[k] == c;
    }
  }

  lemma CanonicalsDistinct(S: seq<VersionedValue>)
    requires Siblings(S)
    ensures Finite.Distinct(Canonicals(S))
  {
    forall a, b | 0 <= a < b < |S| ensures Canonicals(S)[a] != Canonicals(S)[b] {
      EqualIsCanonical(S[a].version.vec, S[b].version.vec);
    }
  }

  lemma SameSize(S: seq<VersionedValue>, R: seq<VersionedValue>)
    requires Siblings(S) && Siblings(R) && VersionsWithin(S, R) && VersionsWithin(R, S)
    ensures |S| == |R|
  {
    CanonicalsDistinct(S);
    CanonicalsDistinct(R);
    CanonicalsWithin(S, R);
    CanonicalsWithin(R, S);
    Finite.SameElementsSameLength(Canonicals(S), Canonicals(R));
  }

  /** The stored versions do not depend on the order, or on repetition, of the writes. */
  lemma DeliveryOrderIsIrrelevant(xs: seq<VersionedValue>, ys: seq<VersionedValue>)
    requires VersionsWithin(xs, ys) && VersionsWithin(ys, xs)
    ensures VersionsWithin(WriteAll(xs), WriteAll(ys)) && VersionsWithin(WriteAll(ys), WriteAll(xs))
    ensures |WriteAll(xs)| == |WriteAll(ys)|
  {
    SurvivorsWithin(xs, ys);
    SurvivorsWithin(ys, xs);
    StoredAreSiblings(xs);
    StoredAreSiblings(ys);
    SameSize(WriteAll(xs), WriteAll(ys));
  }

  /** The rows of a key from scratch: of all writes the unsurpassed ones, the first of each version, in their order. */
  lemma StoreSpelledOut(ws: seq<VersionedValue>) returns (idx: seq<nat>)
    ensures forall a, b :: 0 <= a < b < |idx| ==> idx[a] < idx[b]
    ensures forall x: nat :: x in idx <==>
              && x < |ws|
              && (forall j: nat :: j < |ws| ==> Relate(ws[x].version.vec, ws[j].version.vec) != Before)
              && (forall j: nat :: j < x ==> Relate(ws[j].version.vec, ws[x].version.vec) != Equal)
    ensures |WriteAll(ws)| == |idx|
    ensures forall k :: 0 <= k < |idx| ==> idx[k] < |ws| && WriteAll(ws)[k] == ws[idx[k]]
  {
    StoreIsFrontier(ws);
    idx := TopIdx(ws, |ws|);
  }

  // ---------- Many keys ----------

  datatype Put = Put(key: seq<byte>, w: VersionedValue)

  /** All rows after the puts, each done by `Store.Write`. */
  function Replay(puts: seq<Put>): Rows {
    if puts == [] then map[] else
      var rows, p := Replay(puts[..|puts| - 1]), puts[|puts| - 1];
      if Stale(RowsOf(rows, p.key), p.w) then rows else rows[p.key := Written(RowsOf(rows, p.key), p.w)]
  }

  function ForKey(puts: seq<Put>, key: seq<byte>): seq<VersionedValue> {
    if puts == [] then [] else
      ForKey(puts[..|puts| - 1], key) + if puts[|puts| - 1].key == key then [puts[|puts| - 1].w] else []
  }

  /** Keys do not interfere: the rows of a key are what its own writes alone produce. */
  lemma {:induction false} KeysAreIndependent(puts: seq<Put>, key: seq<byte>)
    ensures RowsOf(Replay(puts), key) == WriteAll(ForKey(puts, key))
  {
    if puts != [] {
      var front, p := puts[..|puts| - 1], puts[|puts| - 1];
      KeysAreIndependent(front, key);
      var f := ForKey(front, key);
      if p.key == key {
        assert ForKey(puts, key) == f + [p.w];
        assert (f + [p.w])[..|f|] == f;
        assert WriteAll(f + [p.w]) == Written(WriteAll(f), p.w);
      } else {
        assert ForKey(puts, key) == f;
      }
    }
  }

  // ---------- Writes stamped by the clocks of a run ----------

  /** The writes `ws` carry the stamps of the distinct events `at` of a run. */
  ghost predicate Carry(es: seq<Causality.Occurrence>, st: seq<ClockRun.Node>, at: seq<nat>, ws: seq<VersionedValue>) {
    && ClockRun.Stamped(es, st) && VectorTheorem.Counted(es, |es|)
    && |at| == |ws| && Finite.Distinct(at)
    && forall k :: 0 <= k < |at| ==> at[k] < |es| && ws[k].version.vec == st[at[k]].vec
  }

  lemma CarriedVersionsDecide(es: seq<Causality.Occurrence>, st: seq<ClockRun.Node>, at: seq<nat>,
                              ws: seq<VersionedValue>, j: nat, k: nat)
    requires Carry(es, st, at, ws) && j < |ws| && k < |ws|
    ensures j != k ==> Relate(ws[j].version.vec, ws[k].version.vec) != Equal
    ensures Relate(ws[j].version.vec, ws[k].version.vec) == Before <==> Causality.HappensBefore(es, at[j], at[k])
  {
    if j == k {
      Causality.HappensBeforeIsAStrictPartialOrder(es, at[j], at[j], at[j]);
      CompareIsAPartialOrder(ws[j].version.vec, ws[j].version.vec, ws[j].version.vec);
    } else {
      assert at[j] != at[k] by { assert at[if j < k then j else k] != at[if j < k then k else j]; }
      VectorTheorem.VectorDecidesHappensBefore(es, st, at[j], at[k]);
    }
  }

  lemma TopIffLatest(es: seq<Causality.Occurrence>, st: seq<ClockRun.Node>, at: seq<nat>, ws: seq<VersionedValue>,
                     i: nat)
    requires Carry(es, st, at, ws) && i < |ws|
    ensures IsTop(ws, i) <==> forall j :: 0 <= j < |at| ==> !Causality.HappensBefore(es, at[i], at[j])
  {
    forall j: nat | j < |ws|
      ensures Relate(ws[i].version.vec, ws[j].version.vec) == Before <==> Causality.HappensBefore(es, at[i], at[j])
      ensures j != i ==> Relate(ws[j].version.vec, ws[i].version.vec) != Equal
    {
      CarriedVersionsDecide(es, st, at, ws, i, j);
      CarriedVersionsDecide(es, st, at, ws, j, i);
    }
  }

  /** When each write carries the stamp of its own event, the store keeps exactly the causally latest writes. */
  lemma StoreKeepsLatestWrites(es: seq<Causality.Occurrence>, st: seq<ClockRun.Node>, at: seq<nat>,
                               ws: seq<VersionedValue>, i: nat)
    requires Carry(es, st, at, ws) && i < |ws|
    ensures ws[i] in WriteAll(ws) <==> forall j :: 0 <= j < |at| ==> !Causality.HappensBefore(es, at[i], at[j])
  {
    StoreIsFrontier(ws);
    TopIffLatest(es, st, at, ws, i);
    if IsTop(ws, i) {
      var k := TopsInclude(ws, |ws|, i);
    }
    if ws[i] in WriteAll(ws) {
      var k: nat :| k < |WriteAll(ws)| && WriteAll(ws)[k] == ws[i];
      var t := TopsFrom(ws, |ws|, k);
      CarriedVersionsDecide(es, st, at, ws, i, t);
      CompareIsAPartialOrder(ws[i].version.vec, ws[i].version.vec, ws[i].version.vec);
    }
  }
}
