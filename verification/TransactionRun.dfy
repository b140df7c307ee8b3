/** Runs of any number of transactions that each pick a timestamp and wait it out, and the order of those timestamps. */
module TransactionRun {
  import opened TrueTime

  /** A clock is read for a transaction at true time `at`; `cancelled`: the context ends the pause that may follow. */
  datatype Sample = Sample(txn: nat, clock: nat, at: int, interval: Interval, cancelled: bool)

  /** The samples of all transactions, interleaved at will: true time never goes back. */
  ghost predicate Ordered(run: seq<Sample>) {
    forall k :: 0 < k < |run| ==> run[k - 1].at <= run[k].at
  }

  /** And each sample contains it. */
  ghost predicate Honest(run: seq<Sample>) {
    Ordered(run) && forall k :: 0 <= k < |run| ==> Contains(run[k].interval, run[k].at)
  }

  /** The samples of one transaction, in order. */
  function Own(run: seq<Sample>, txn: nat): seq<Sample> {
    if run == [] then []
    else
      var k := |run| - 1;
      Own(run[..k], txn) + if run[k].txn == txn then [run[k]] else []
  }

  function Polls(samples: seq<Sample>): (polls: seq<Poll>) {
    seq(|samples|, k requires 0 <= k < |samples| => Poll(samples[k].interval, samples[k].cancelled))
  }

  /** `WithCommitWait` picks `ts` at step `k`, on the transaction's first sample. */
  ghost predicate PicksAt(run: seq<Sample>, txn: nat, k: nat, ts: int) {
    && k < |run| && run[k].txn == txn && Own(run[..k], txn) == []
    && ts == run[k].interval.latest
  }

  /** What a transaction samples up to the success of its commit-wait: the pick, the first check, and the polls. */
  ghost predicate Succeeds(own: seq<Sample>, waits: seq<int>) {
    && |own| >= 2
    && Ends(own[1].interval, Polls(own[2..]), own[0].interval.latest, Returned, waits)
    && |own| == if After(own[1].interval, own[0].interval.latest) then 2 else |waits| + 3
  }

  /** The commit-wait of a transaction stamped `ts` returns success at step `k`. */
  ghost predicate ReturnsAt(run: seq<Sample>, txn: nat, k: nat, ts: int) {
    && k < |run| && run[k].txn == txn
    && var own := Own(run[..k + 1], txn);
       && own != [] && ts == own[0].interval.latest
       && exists waits :: Succeeds(own, waits)
  }

  lemma {:induction false} NoneOwn(run: seq<Sample>, txn: nat)
    requires forall k :: 0 <= k < |run| ==> run[k].txn != txn
    ensures Own(run, txn) == []
  {
    if run != [] { NoneOwn(run[..|run| - 1], txn); }
  }

  lemma OwnNext(run: seq<Sample>, k: nat)
    requires k < |run|
    ensures Own(run[..k + 1], run[k].txn) == Own(run[..k], run[k].txn) + [run[k]]
  {
    assert run[..k + 1][..k] == run[..k];
  }

  lemma {:induction false} OwnFromRun(run: seq<Sample>, txn: nat, m: nat) returns (k: nat)
    requires m < |Own(run, txn)|
    ensures k < |run| && run[k] == Own(run, txn)[m] && run[k].txn == txn && Own(run[..k], txn) == Own(run, txn)[..m]
  {
    var last := |run| - 1;
    var before := Own(run[..last], txn);
    if m < |before| {
      k := OwnFromRun(run[..last], txn, m);
      assert run[..last][..k] == run[..k];
    } else {
      k := last;
    }
  }

  lemma {:induction false} OwnKeeps(run: seq<Sample>, txn: nat, k: nat, m: nat)
    requires k < m <= |run| && run[k].txn == txn
    ensures Own(run[..m], txn) != []
  {
    assert run[..m][..m - 1] == run[..m - 1];
    if k < m - 1 { OwnKeeps(run, txn, k, m - 1); }
  }

  /** A transaction picks once. */
  lemma PickUnique(run: seq<Sample>, txn: nat, p: nat, s: int, q: nat, t: int)
    requires PicksAt(run, txn, p, s) && PicksAt(run, txn, q, t)
    ensures p == q && s == t
  {
    if p < q { OwnKeeps(run, txn, p, q); }
    if q < p { OwnKeeps(run, txn, q, p); }
  }

  lemma {:induction false} TruthAdvances(run: seq<Sample>, a: nat, b: nat)
    requires Ordered(run) && a <= b < |run|
    ensures run[a].at <= run[b].at
    decreases b
  {
    if a < b { TruthAdvances(run, a, b - 1); }
  }

  /** Success is reported on a sample strictly past the timestamp, which the transaction picked at an earlier step. */
  lemma ReturnFollowsPick(run: seq<Sample>, txn: nat, k: nat, ts: int) returns (pick: nat)
    requires ReturnsAt(run, txn, k, ts)
    ensures After(run[k].interval, ts) && pick < k && PicksAt(run, txn, pick, ts)
  {
    var upTo := run[..k + 1];
    var own := Own(upTo, txn);
    assert upTo[..k] == run[..k];
    assert own[|own| - 1] == run[k];
    var waits :| Succeeds(own, waits);
    if !After(own[1].interval, ts) {
      assert Polls(own[2..])[|waits|].sample == own[|own| - 1].interval;
    }
    pick := OwnFromRun(upTo, txn, 0);
    assert upTo[..pick] == run[..pick];
  }

  /** In every run, a transaction whose commit-wait returned before another picked has the smaller timestamp. */
  lemma ExternalConsistency(run: seq<Sample>, i: nat, a: nat, s: int, j: nat, b: nat, t: int)
    requires Honest(run) && ReturnsAt(run, i, a, s) && PicksAt(run, j, b, t) && a < b
    ensures s < t
  {
    var _ := ReturnFollowsPick(run, i, a, s);
    TruthAdvances(run, a, b);
  }

  /** `Earliest` never goes back on the clock. */
  ghost predicate NeverGoesBack(run: seq<Sample>, clock: nat) {
    forall p, q :: 0 <= p <= q < |run| && run[p].clock == clock == run[q].clock ==>
      run[p].interval.earliest <= run[q].interval.earliest
  }

  /** Once a commit-wait for any `ts` has returned on a sample of the clock, every later sample of it is `After(ts)`. */
  ghost predicate StaysPast(run: seq<Sample>, clock: nat) {
    forall p, q, ts | 0 <= p <= q < |run| && run[p].clock == clock == run[q].clock ::
      Ends(run[p].interval, [], ts, Returned, []) ==> After(run[q].interval, ts)
  }

  /** What the comment on commit-wait promises its observers holds exactly when `Earliest` never goes back. */
  lemma StaysPastIff(run: seq<Sample>, clock: nat)
    ensures StaysPast(run, clock) <==> NeverGoesBack(run, clock)
  {
    if StaysPast(run, clock) {
      forall p, q | 0 <= p <= q < |run| && run[p].clock == clock == run[q].clock
        ensures run[p].interval.earliest <= run[q].interval.earliest
      {
        var ts := run[p].interval.earliest - 1;
        assert Ends(run[p].interval, [], ts, Returned, []);
      }
    }
  }

  /** On a clock whose `Earliest` never goes back, `After(ts)` still holds on every sample after the return. */
  lemma AfterStaysTrue(run: seq<Sample>, txn: nat, k: nat, ts: int, m: nat)
    requires ReturnsAt(run, txn, k, ts) && k <= m < |run| && run[m].clock == run[k].clock
    requires NeverGoesBack(run, run[k].clock)
    ensures After(run[m].interval, ts)
  {
    var _ := ReturnFollowsPick(run, txn, k, ts);
  }

  lemma SucceedsAtOnce(own: seq<Sample>)
    requires |own| == 2 && After(own[1].interval, own[0].interval.latest)
    ensures Succeeds(own, [])
  {
  }

  /** A commit-wait may return on its first check. */
  lemma ReturnsAtOnce(run: seq<Sample>, txn: nat)
    requires |run| >= 2 && run[0].txn == run[1].txn == txn && After(run[1].interval, run[0].interval.latest)
    ensures PicksAt(run, txn, 0, run[0].interval.latest) && ReturnsAt(run, txn, 1, run[0].interval.latest)
  {
    assert Own(run[..0], txn) == [];
    OwnNext(run, 0);
    OwnNext(run, 1);
    assert Own(run[..2], txn) == [run[0], run[1]];
    SucceedsAtOnce([run[0], run[1]]);
  }

  /** A later honest sample of the very clock commit-wait polled may begin before the timestamp. */
  lemma LaterEarliestMayLag()
    ensures var run := [Sample(0, 0, 0, Interval(0, 4), false), Sample(0, 0, 5, Interval(5, 9), false),
                        Sample(1, 0, 6, Interval(3, 9), false)];
            Honest(run) && ReturnsAt(run, 0, 1, 4) && !After(run[2].interval, 4)
  {
    ReturnsAtOnce([Sample(0, 0, 0, Interval(0, 4), false), Sample(0, 0, 5, Interval(5, 9), false),
                   Sample(1, 0, 6, Interval(3, 9), false)], 0);
  }

  // ---------- Why the test is strict ----------

  /** `other` is a run with the same samples as `run`, perhaps at other true times, that `next` continues. */
  ghost predicate MightContinue(run: seq<Sample>, other: seq<Sample>, next: Sample) {
    && |other| == |run| && Honest(other + [next])
    && forall k :: 0 <= k < |run| ==> other[k] == run[k].(at := other[k].at)
  }

  /** The same samples at true times no later than `ts`. */
  function AtMost(run: seq<Sample>, ts: int): (early: seq<Sample>)
    ensures |early| == |run|
    ensures forall k :: 0 <= k < |run| ==> early[k] == run[k].(at := if run[k].at < ts then run[k].at else ts)
  {
    seq(|run|, k requires 0 <= k < |run| => run[k].(at := if run[k].at < ts then run[k].at else ts))
  }

  /** The samples guarantee a larger timestamp to whoever picks next exactly when one is `After`. */
  lemma LaterPicksAreLargerIff(run: seq<Sample>, ts: int)
    requires Honest(run)
    ensures (exists k :: 0 <= k < |run| && After(run[k].interval, ts))
            <==> forall other, next :: MightContinue(run, other, next) ==> ts < next.interval.latest
  {
    if k :| 0 <= k < |run| && After(run[k].interval, ts) {
      forall other, next | MightContinue(run, other, next) ensures ts < next.interval.latest {
        TruthAdvances(other + [next], k, |run|);
        assert (other + [next])[k].interval == run[k].interval;
      }
    } else {
      var other, next := AtMost(run, ts), Sample(0, 0, ts, Interval(ts, ts), false);
      assert MightContinue(run, other, next);
    }
  }

  /** Had the loop polled `Definitely`, two transactions in real-time order could share a timestamp. */
  lemma DefinitelyIsTooWeak()
    ensures var run := [Sample(0, 0, 0, Interval(0, 5), false), Sample(0, 0, 5, Interval(5, 9), false),
                        Sample(1, 1, 5, Interval(1, 5), false)];
            && Honest(run) && PicksAt(run, 0, 0, 5) && PicksAt(run, 1, 2, 5)
            && Definitely(run[1].interval, 5) && !ReturnsAt(run, 0, 1, 5)
  {
    var run := [Sample(0, 0, 0, Interval(0, 5), false), Sample(0, 0, 5, Interval(5, 9), false),
                Sample(1, 1, 5, Interval(1, 5), false)];
    assert Own(run[..0], 0) == [];
    NoneOwn(run[..2], 1);
    if ReturnsAt(run, 0, 1, 5) { var _ := ReturnFollowsPick(run, 0, 1, 5); }
  }
}
