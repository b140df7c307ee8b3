/** Happens-before on the events of a run, defined without reference to any clock. */
module Causality {
  import opened Words

  /** A receive names the event that sent its message, so a message may be delayed, overtaken, duplicated or lost. */
  datatype Kind = Tick | Send | Receive(msg: nat)

  /** One event: the process it occurs at, what it is, and what that process's wall clock reads. */
  datatype Occurrence = Occurrence(proc: NodeId, kind: Kind, wall: int64)

  /** A receive can only be of a message sent among the events `es` so far. */
  predicate Deliverable(es: seq<Occurrence>, k: Kind) {
    k.Receive? ==> k.msg < |es| && es[k.msg].kind.Send?
  }

  /** Program order, or the step from a send to one of its receives. */
  predicate Edge(es: seq<Occurrence>, i: nat, j: nat)
    requires j < |es|
  {
    i < j && (es[i].proc == es[j].proc || es[j].kind == Receive(i))
  }

  /** A nonempty sequence of events, each one edge after the previous. */
  ghost predicate Chain(es: seq<Occurrence>, c: seq<nat>) {
    && c != []
    && (forall k :: 0 <= k < |c| ==> c[k] < |es|)
    && (forall k :: 0 < k < |c| ==> Edge(es, c[k - 1], c[k]))
  }

  /** The transitive closure of the edges. */
  ghost predicate HappensBefore(es: seq<Occurrence>, i: nat, j: nat) {
    exists c :: Chain(es, c) && |c| >= 2 && c[0] == i && c[|c| - 1] == j
  }

  /** `i` is in the causal past of `j`, which includes `j` itself. */
  ghost predicate InPast(es: seq<Occurrence>, i: nat, j: nat) {
    i == j || HappensBefore(es, i, j)
  }

  /** The latest event of process `p` among the first `n`, or -1. */
  function LastOf(es: seq<Occurrence>, n: nat, p: NodeId): (r: int)
    requires n <= |es|
    ensures -1 <= r < n
    ensures r >= 0 ==> es[r].proc == p
    ensures forall i :: r < i < n ==> es[i].proc != p
  {
    if n == 0 then -1
    else if es[n - 1].proc == p then n - 1
    else LastOf(es, n - 1, p)
  }

  /** The event of the same process just before `j`, or -1. */
  function Prev(es: seq<Occurrence>, j: nat): (r: int)
    requires j < |es|
    ensures -1 <= r < j
    ensures r >= 0 ==> Edge(es, r, j)
    ensures forall i: nat :: i < j && es[i].proc == es[j].proc ==> i <= r
  {
    LastOf(es, j, es[j].proc)
  }

  lemma EdgeIsHappensBefore(es: seq<Occurrence>, i: nat, j: nat)
    requires j < |es| && Edge(es, i, j)
    ensures HappensBefore(es, i, j)
  {
    assert Chain(es, [i, j]);
  }

  lemma ChainAppend(es: seq<Occurrence>, c: seq<nat>, j: nat)
    requires Chain(es, c) && j < |es| && Edge(es, c[|c| - 1], j)
    ensures Chain(es, c + [j])
  {
  }

  lemma HappensBeforeEdge(es: seq<Occurrence>, i: nat, k: nat, j: nat)
    requires j < |es| && InPast(es, i, k) && Edge(es, k, j)
    ensures HappensBefore(es, i, j)
  {
    if i == k {
      EdgeIsHappensBefore(es, i, j);
    } else {
      var c :| Chain(es, c) && |c| >= 2 && c[0] == i && c[|c| - 1] == k;
      ChainAppend(es, c, j);
      assert (c + [j])[0] == i;
    }
  }

  /** Time never runs backward along a chain. */
  lemma {:induction false} ChainIncreases(es: seq<Occurrence>, c: seq<nat>)
    requires Chain(es, c)
    ensures forall k :: 0 <= k < |c| - 1 ==> c[k] < c[|c| - 1]
  {
    if |c| > 1 {
      ChainIncreases(es, c[..|c| - 1]);
    }
  }

  /** A chain has no more events than the run. */
  lemma {:induction false} ChainLength(es: seq<Occurrence>, c: seq<nat>)
    requires Chain(es, c)
    ensures |c| <= c[|c| - 1] + 1 <= |es|
  {
    if |c| > 1 {
      ChainLength(es, c[..|c| - 1]);
      assert Edge(es, c[|c| - 2], c[|c| - 1]);
    }
  }

  /** The last step of a chain comes from the previous event of the same process or from the message received. */
  lemma PastDecomposes(es: seq<Occurrence>, i: nat, j: nat)
    requires j < |es|
    ensures HappensBefore(es, i, j) <==>
            || (Prev(es, j) >= 0 && InPast(es, i, Prev(es, j)))
            || (es[j].kind.Receive? && es[j].kind.msg < j && InPast(es, i, es[j].kind.msg))
    ensures HappensBefore(es, i, j) ==> i < j
  {
    if HappensBefore(es, i, j) {
      var c :| Chain(es, c) && |c| >= 2 && c[0] == i && c[|c| - 1] == j;
      ChainIncreases(es, c);
      var c', k := c[..|c| - 1], c[|c| - 2];
      assert Chain(es, c') && c'[0] == i && c'[|c'| - 1] == k;
      assert Edge(es, k, j);
      assert InPast(es, i, k);
      if es[k].proc == es[j].proc && k < Prev(es, j) {
        HappensBeforeEdge(es, i, k, Prev(es, j));
      }
    }
    if Prev(es, j) >= 0 && InPast(es, i, Prev(es, j)) {
      HappensBeforeEdge(es, i, Prev(es, j), j);
    }
    if es[j].kind.Receive? && es[j].kind.msg < j && InPast(es, i, es[j].kind.msg) {
      HappensBeforeEdge(es, i, es[j].kind.msg, j);
    }
  }

  /** Happens-before is a strict partial order on the events of a run. */
  lemma HappensBeforeIsAStrictPartialOrder(es: seq<Occurrence>, i: nat, j: nat, k: nat)
    ensures !HappensBefore(es, i, i)
    ensures HappensBefore(es, i, j) && HappensBefore(es, j, k) ==> HappensBefore(es, i, k)
  {
    if i < |es| { PastDecomposes(es, i, i); }
    if HappensBefore(es, i, j) && HappensBefore(es, j, k) {
      var c :| Chain(es, c) && |c| >= 2 && c[0] == i && c[|c| - 1] == j;
      var d :| Chain(es, d) && |d| >= 2 && d[0] == j && d[|d| - 1] == k;
      var e := c + d[1..];
      forall q | 0 < q < |e| ensures Edge(es, e[q - 1], e[q]) {
        if q >= |c| { assert e[q] == d[q - |c| + 1] && e[q - 1] == d[q - |c|]; }
      }
      assert Chain(es, e) && e[0] == i && e[|e| - 1] == k;
    }
  }
}
