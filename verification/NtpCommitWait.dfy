/** Commit-wait on an NTP source, whose `Earliest` advances slightly slower than the timer. */
module NtpCommitWait {
  import opened Words
  import opened TrueTime
  import opened NtpSource

  /** The state of a source between two queries, with the drift product and the sum in range up to `until`. */
  predicate Settled(dispersion: int64, last: int, from: int, until: int) {
    && from <= until && -TWO63 < dispersion
    && Max(0, until - last) * DRIFT_PPM < TWO63
    && dispersion + Max(0, until - last) * DRIFT_PPM / 1_000_000 < TWO63
  }

  /** `Earliest` gains all of the elapsed time but 200ppm of it, rounded up. */
  lemma EarliestAdvances(offset: int64, dispersion: int64, last: int, now: int, then': int)
    requires Settled(dispersion, last, now, then')
    ensures IntervalAt(offset, dispersion, last, then').earliest - IntervalAt(offset, dispersion, last, now).earliest
            >= (then' - now) - ((then' - now) * DRIFT_PPM / 1_000_000 + 1)
  {
    DriftExactIff(Max(0, now - last));
    DriftExactIff(Max(0, then' - last));
  }

  /** Each timer wait moves `Earliest` forward by all but a 4000th of its length. */
  ghost predicate ProgressesSlowly(polls: seq<Poll>, waits: seq<int>) {
    forall k :: 0 <= k < |waits| && k + 1 < |polls| ==>
      polls[k + 1].sample.earliest >= polls[k].sample.earliest + waits[k] - waits[k] / 4000
  }

  lemma {:induction false} SlowPausesBounded(polls: seq<Poll>, waits: seq<int>, commitAt: int)
    requires 1 <= |waits| <= |polls| && ProgressesSlowly(polls, waits)
    requires forall k :: 0 <= k < |waits| ==>
      !After(polls[k].sample, commitAt) && waits[k] == Pause(Sub(commitAt, polls[k].sample.earliest))
    ensures var gap := commitAt - polls[0].sample.earliest;
            && |waits| <= Ceil(gap, 99_975_000) + 2
            && (gap < 99_975 ==> |waits| == 1)
            && (gap < 100 * MILLISECOND ==> |waits| <= 2)
  {
    assert !After(polls[0].sample, commitAt);
    if |waits| > 1 {
      assert polls[1].sample.earliest >= polls[0].sample.earliest + waits[0] - waits[0] / 4000;
      assert !After(polls[1].sample, commitAt);
      SlowPausesBounded(polls[1..], waits[1..], commitAt);
      var gap := commitAt - polls[0].sample.earliest;
      if gap >= 100 * MILLISECOND {
        CeilMonotone(commitAt - polls[1].sample.earliest, gap - 99_975_000, 99_975_000);
      }
    }
  }

  /** What the requested pauses add up to, beyond the gap: a 3999th of it, and 100µs. */
  lemma {:induction false} SlowTotalBounded(polls: seq<Poll>, waits: seq<int>, commitAt: int)
    requires 1 <= |waits| <= |polls| && ProgressesSlowly(polls, waits)
    requires forall k :: 0 <= k < |waits| ==>
      !After(polls[k].sample, commitAt) && waits[k] == Pause(Sub(commitAt, polls[k].sample.earliest))
    ensures 3999 * (Total(waits) - 100 * MICROSECOND) <= 4000 * (commitAt - polls[0].sample.earliest)
  {
    var gap := commitAt - polls[0].sample.earliest;
    assert !After(polls[0].sample, commitAt);
    PauseOf(gap);
    if |waits| == 1 {
      assert Total(waits[1..]) == 0;
    } else {
      assert polls[1].sample.earliest >= polls[0].sample.earliest + waits[0] - waits[0] / 4000;
      SlowTotalBounded(polls[1..], waits[1..], commitAt);
    }
  }

  /** The monotonic readings at the polls: at least as far apart as the pauses between them. */
  ghost predicate Timed(nows: seq<int>, waits: seq<int>) {
    forall k :: 0 <= k < |nows| - 1 ==>
      nows[k] <= nows[k + 1] && (k < |waits| ==> nows[k + 1] >= nows[k] + waits[k])
  }

  /** Between queries an NTP source progresses so. */
  lemma NtpProgresses(offset: int64, dispersion: int64, last: int, nows: seq<int>, polls: seq<Poll>, waits: seq<int>)
    requires |nows| == |polls| && Timed(nows, waits)
    requires forall k :: 0 <= k < |polls| ==> polls[k].sample == IntervalAt(offset, dispersion, last, nows[k])
    requires forall k :: 0 <= k < |polls| - 1 ==> Settled(dispersion, last, nows[k], nows[k + 1])
    requires forall k :: 0 <= k < |waits| ==> waits[k] >= 100 * MICROSECOND
    ensures ProgressesSlowly(polls, waits)
  {
    forall k | 0 <= k < |waits| && k + 1 < |polls|
      ensures polls[k + 1].sample.earliest >= polls[k].sample.earliest + waits[k] - waits[k] / 4000
    {
      assert Settled(dispersion, last, nows[k], nows[k + 1]);
      EarliestAdvances(offset, dispersion, last, nows[k], nows[k + 1]);
      SlowEnough(nows[k + 1] - nows[k], waits[k]);
    }
  }

  /**
   * On an NTP source between queries, commit-wait is over after at most `⌈gap / 99.975ms⌉ + 2` pauses, which ask for no
   * more than the gap, a 3999th of it, and 100µs.
   */
  lemma CommitWaitEndsOnNtp(offset: int64, dispersion: int64, last: int, nows: seq<int>,
                            first: Interval, polls: seq<Poll>, commitAt: int, o: Outcome, waits: seq<int>)
    requires |nows| == |polls| > 0 && Timed(nows, waits)
    requires forall k :: 0 <= k < |polls| ==> polls[k].sample == IntervalAt(offset, dispersion, last, nows[k])
    requires forall k :: 0 <= k < |polls| - 1 ==> Settled(dispersion, last, nows[k], nows[k + 1])
    requires Ends(first, polls, commitAt, o, waits) && polls[0].sample.earliest <= commitAt
    ensures var gap := commitAt - polls[0].sample.earliest;
            && |waits| <= Ceil(gap, 99_975_000) + 2
            && (|polls| >= Ceil(gap, 99_975_000) + 3 ==> o != Waiting)
            && 3999 * (Total(waits) - 100 * MICROSECOND) <= 4000 * gap
  {
    NtpProgresses(offset, dispersion, last, nows, polls, waits);
    if waits != [] {
      SlowPausesBounded(polls, waits, commitAt);
      SlowTotalBounded(polls, waits, commitAt);
    }
  }

  lemma SlowEnough(elapsed: int, wait: int)
    requires elapsed >= wait >= 100 * MICROSECOND
    ensures elapsed - (elapsed * DRIFT_PPM / 1_000_000 + 1) >= wait - wait / 4000
  {
    var extra := elapsed - wait;
    assert elapsed * DRIFT_PPM / 1_000_000 <= wait * DRIFT_PPM / 1_000_000 + extra;
  }
}
