/** Intervals that bracket true time, and the commit-wait loop built on them. Times are integer nanoseconds. */
module TrueTime {
  import opened Words

  datatype Interval = Interval(earliest: int, latest: int)

  predicate Contains(i: Interval, t: int) { i.earliest <= t <= i.latest }

  /** `Clock.After`: certain that time has moved past `t`; strict. */
  predicate After(i: Interval, t: int) { i.earliest > t }

  /** `Interval.Definitely`: not strict. */
  predicate Definitely(i: Interval, t: int) { i.earliest >= t }

  /** `time.Time.Sub`: saturates at the range of a `Duration`. */
  function Sub(a: int, b: int): (d: int64)
    ensures -TWO63 <= a - b < TWO63 ==> d == a - b
  {
    if a - b >= TWO63 then TWO63 - 1 else if a - b < -TWO63 then -TWO63 else a - b
  }

  /** No other `Duration` is as near the difference. */
  lemma SubIsNearest(a: int, b: int, d: int64)
    requires d != Sub(a, b)
    ensures var near, far := a - b - Sub(a, b), a - b - d; -Max(far, -far) < near < Max(far, -far)
  {
  }

  const MICROSECOND := 1_000
  const MILLISECOND := 1_000_000

  /** The pause for a gap: between 100µs and 100ms, and the gap itself in between. */
  function Pause(gap: int64): int {
    Max(100 * MICROSECOND, Min(gap, 100 * MILLISECOND))
  }

  /** One turn of the loop: what the clock answers, and whether the context ends the wait that may follow. */
  datatype Poll = Poll(sample: Interval, cancelled: bool)

  /** `Waiting`: the environment's trace ends with the loop still running. */
  datatype Outcome = Returned | Cancelled | Waiting

  /** How the loop can end on a trace, and the pauses it takes before that. */
  ghost predicate Ends(first: Interval, polls: seq<Poll>, commitAt: int, o: Outcome, waits: seq<int>) {
    && |waits| <= |polls|
    && (After(first, commitAt) ==> o == Returned && waits == [])
    && (forall k :: 0 <= k < |waits| ==>
          !After(polls[k].sample, commitAt) && waits[k] == Pause(Sub(commitAt, polls[k].sample.earliest)))
    && (forall k :: 0 <= k < |waits| ==> (polls[k].cancelled <==> o == Cancelled && k == |waits| - 1))
    && match o
       case Returned => After(first, commitAt) || (|waits| < |polls| && After(polls[|waits|].sample, commitAt))
       case Cancelled => waits != []
       case Waiting => |waits| == |polls|
  }

  /**
   * It is cancelled exactly when some poll is, none having been before and no sample up to it being past `commitAt`; it
   * succeeds exactly on the first sample past `commitAt`, nothing having been cancelled before.
   */
  method CommitWait(first: Interval, polls: seq<Poll>, commitAt: int) returns (o: Outcome, waits: seq<int>)
    ensures Ends(first, polls, commitAt, o, waits)
    ensures forall k: nat
              | k < |polls| && polls[k].cancelled && first.earliest <= commitAt
                && (forall q :: 0 <= q < k ==> !polls[q].cancelled)
                && (forall q :: 0 <= q <= k ==> polls[q].sample.earliest <= commitAt)
              :: o == Cancelled && |waits| == k + 1
    ensures o == Cancelled ==>
              && 0 < |waits| <= |polls| && polls[|waits| - 1].cancelled && first.earliest <= commitAt
              && (forall q :: 0 <= q < |waits| - 1 ==> !polls[q].cancelled)
              && (forall q :: 0 <= q < |waits| ==> polls[q].sample.earliest <= commitAt)
    ensures first.earliest > commitAt ==> o == Returned && waits == []
    ensures forall k: nat
              | k < |polls| && polls[k].sample.earliest > commitAt && first.earliest <= commitAt
                && (forall q :: 0 <= q < k ==> polls[q].sample.earliest <= commitAt && !polls[q].cancelled)
              :: o == Returned && |waits| == k
    ensures o == Returned && first.earliest <= commitAt ==>
              && |waits| < |polls| && polls[|waits|].sample.earliest > commitAt
              && (forall q :: 0 <= q < |waits| ==> polls[q].sample.earliest <= commitAt && !polls[q].cancelled)
  {
    waits := [];
    if first.earliest > commitAt { return Returned, waits; }
    for k := 0 to |polls|
      invariant |waits| == k
      invariant forall q :: 0 <= q < k ==> polls[q].sample.earliest <= commitAt && !polls[q].cancelled
      invariant forall q :: 0 <= q < k ==> waits[q] == Pause(Sub(commitAt, polls[q].sample.earliest))
    {
      var interval := polls[k].sample;
      if interval.earliest > commitAt { return Returned, waits; }
      var wait: int := Sub(commitAt, interval.earliest);
      if wait > 100 * MILLISECOND { wait := 100 * MILLISECOND; }
      if wait < 100 * MICROSECOND { wait := 100 * MICROSECOND; }
      waits := waits + [wait];
      if polls[k].cancelled { return Cancelled, waits; }
    }
    return Waiting, waits;
  }

  /** The pauses in plain nanoseconds: the gap, but at least 100µs and at most 100ms. */
  lemma PauseIsClamped(first: Interval, polls: seq<Poll>, commitAt: int, o: Outcome, waits: seq<int>, k: nat)
    requires Ends(first, polls, commitAt, o, waits) && k < |waits|
    ensures var gap := commitAt - polls[k].sample.earliest;
            waits[k] == if gap <= 100_000 then 100_000 else if gap >= 100_000_000 then 100_000_000 else gap
  {
  }

  lemma NotLonger(first: Interval, polls: seq<Poll>, commitAt: int, o: Outcome, w: seq<int>, o': Outcome, w': seq<int>)
    requires Ends(first, polls, commitAt, o, w) && Ends(first, polls, commitAt, o', w')
    ensures |w'| <= |w|
  {
    assert w != [] ==> (polls[|w| - 1].cancelled <==> o == Cancelled);
    assert |w| < |polls| && o == Returned ==> After(first, commitAt) || After(polls[|w|].sample, commitAt);
  }

  /** The loop's outcome and pauses are determined by the trace. */
  lemma EndsUnique(first: Interval, polls: seq<Poll>, commitAt: int, o: Outcome, w: seq<int>, o': Outcome, w': seq<int>)
    requires Ends(first, polls, commitAt, o, w) && Ends(first, polls, commitAt, o', w')
    ensures o == o' && w == w'
  {
    NotLonger(first, polls, commitAt, o, w, o', w');
    NotLonger(first, polls, commitAt, o', w', o, w);
    if w != [] {
      assert polls[|w| - 1].cancelled <==> o == Cancelled;
      assert polls[|w| - 1].cancelled <==> o' == Cancelled;
    }
  }

  // ---------- How long it waits ----------

  function Total(waits: seq<int>): int {
    if waits == [] then 0 else waits[0] + Total(waits[1..])
  }

  /** `a / b` rounded up. */
  function Ceil(a: int, b: int): int
    requires b > 0
  {
    (a + b - 1) / b
  }

  lemma ProductSign(x: int, d: int)
    requires d > 0
    ensures x >= 0 ==> x * d >= 0
  {
  }

  lemma CeilMonotone(a: int, b: int, d: int)
    requires a <= b && d > 0
    ensures Ceil(a, d) <= Ceil(b, d)
  {
    var p, q := (a + d - 1) / d, (b + d - 1) / d;
    assert (p - q - 1) * d == p * d - q * d - d < 0;
    ProductSign(p - q - 1, d);
  }

  /** Each timer wait moves `Earliest` forward by at least its length. */
  ghost predicate Progresses(polls: seq<Poll>, waits: seq<int>) {
    forall k :: 0 <= k < |waits| && k + 1 < |polls| ==>
      polls[k + 1].sample.earliest >= polls[k].sample.earliest + waits[k]
  }

  lemma PauseOf(gap: int)
    requires gap >= 0
    ensures Pause(Sub(gap, 0)) == Max(100 * MICROSECOND, Min(gap, 100 * MILLISECOND))
  {
  }

  /** A pause either takes 100ms off the gap or closes it. */
  lemma PauseShrinks(gap: int, next: int, wait: int)
    requires wait == Max(100 * MICROSECOND, Min(gap, 100 * MILLISECOND)) && 0 <= next <= gap - wait
    ensures Ceil(next, 100 * MILLISECOND) + 1 <= Ceil(gap, 100 * MILLISECOND)
  {
    if wait == 100 * MILLISECOND {
      CeilMonotone(next, gap - 100 * MILLISECOND, 100 * MILLISECOND);
    }
  }

  lemma {:induction false} PausesBounded(polls: seq<Poll>, waits: seq<int>, commitAt: int)
    requires 1 <= |waits| <= |polls| && Progresses(polls, waits)
    requires forall k :: 0 <= k < |waits| ==>
      !After(polls[k].sample, commitAt) && waits[k] == Pause(Sub(commitAt, polls[k].sample.earliest))
    ensures var gap := commitAt - polls[0].sample.earliest;
            |waits| <= Ceil(gap, 100 * MILLISECOND) + 1 && Total(waits) <= gap + 100 * MICROSECOND
  {
    var gap := commitAt - polls[0].sample.earliest;
    assert !After(polls[0].sample, commitAt);
    PauseOf(gap);
    if |waits| == 1 {
      assert Total(waits[1..]) == 0;
    } else {
      assert polls[1].sample.earliest >= polls[0].sample.earliest + waits[0];
      assert !After(polls[1].sample, commitAt);
      PauseShrinks(gap, commitAt - polls[1].sample.earliest, waits[0]);
      PausesBounded(polls[1..], waits[1..], commitAt);
    }
  }

  /** With gap `g` at the first poll, at most `⌈g / 100ms⌉ + 1` pauses and `g + 100µs` in all; then the loop is over. */
  lemma CommitWaitBound(first: Interval, polls: seq<Poll>, commitAt: int, o: Outcome, waits: seq<int>)
    requires Ends(first, polls, commitAt, o, waits) && Progresses(polls, waits)
    requires polls != [] && polls[0].sample.earliest <= commitAt
    ensures var gap := commitAt - polls[0].sample.earliest;
            && |waits| <= Ceil(gap, 100 * MILLISECOND) + 1
            && Total(waits) <= gap + 100 * MICROSECOND
            && (|polls| >= Ceil(gap, 100 * MILLISECOND) + 2 ==> o != Waiting)
  {
    if waits != [] { PausesBounded(polls, waits, commitAt); }
  }

  /** A run of the loop that returns, on a clock that keeps up with the timer, with `gap` left at the first poll. */
  ghost predicate Waits(gap: nat, first: Interval, polls: seq<Poll>, commitAt: int, waits: seq<int>) {
    && Ends(first, polls, commitAt, Returned, waits) && Progresses(polls, waits)
    && polls != [] && waits != [] && polls[0].sample.earliest == commitAt - gap
  }

  /** The pauses of 100ms leave nothing, or enough for another pause to take it up exactly. */
  predicate TakenUp(gap: nat) { gap % (100 * MILLISECOND) == 0 || gap % (100 * MILLISECOND) >= 100 * MICROSECOND }

  lemma TakenUpAfter(gap: nat, wait: nat)
    requires wait == Max(100 * MICROSECOND, Min(gap, 100 * MILLISECOND)) <= gap
    ensures TakenUp(gap) <==> TakenUp(gap - wait)
    ensures Ceil(gap - wait, 100 * MILLISECOND) + 1 == Ceil(gap, 100 * MILLISECOND)
  {
    if wait == 100 * MILLISECOND {
      assert gap == wait + (gap - wait);
      assert (gap - wait) % (100 * MILLISECOND) == gap % (100 * MILLISECOND);
    } else {
      assert gap == wait;
    }
  }

  /** One more pause in front. */
  lemma WaitMore(gap: nat, wait: nat, first: Interval, poll: Poll, polls: seq<Poll>, commitAt: int, waits: seq<int>)
    requires !After(first, commitAt) && !poll.cancelled && poll.sample.earliest == commitAt - gap
    requires wait == Pause(Sub(gap, 0)) <= gap && Waits(gap - wait, poll.sample, polls, commitAt, waits)
    ensures Waits(gap, first, [poll] + polls, commitAt, [wait] + waits)
    ensures Total([wait] + waits) == wait + Total(waits)
  {
    assert ([wait] + waits)[1..] == waits;
  }

  lemma LastWait(first: Interval, commitAt: int) returns (polls: seq<Poll>, waits: seq<int>)
    requires !After(first, commitAt)
    ensures Waits(0, first, polls, commitAt, waits) && |waits| == 1 && Total(waits) == 100 * MICROSECOND
  {
    var past := commitAt + 100 * MICROSECOND;
    polls := [Poll(Interval(commitAt, past), false), Poll(Interval(past, past), false)];
    waits := [100 * MICROSECOND];
    assert waits[1..] == [];
  }

  /** The longest wait: each sample just keeps up with the timer. */
  lemma {:induction false} LongestWait(gap: nat, first: Interval, commitAt: int)
      returns (polls: seq<Poll>, waits: seq<int>)
    requires TakenUp(gap) && !After(first, commitAt)
    ensures Waits(gap, first, polls, commitAt, waits)
    ensures |waits| == Ceil(gap, 100 * MILLISECOND) + 1 && Total(waits) == gap + 100 * MICROSECOND
    decreases gap
  {
    if gap == 0 {
      polls, waits := LastWait(first, commitAt);
    } else {
      PauseOf(gap);
      var wait := Pause(Sub(gap, 0));
      var poll := Poll(Interval(commitAt - gap, commitAt), false);
      TakenUpAfter(gap, wait);
      polls, waits := LongestWait(gap - wait, poll.sample, commitAt);
      WaitMore(gap, wait, first, poll, polls, commitAt, waits);
      polls, waits := [poll] + polls, [wait] + waits;
    }
  }

  lemma TakenUpBelow(low: nat, high: nat)
    requires low <= high && Ceil(low, 100 * MILLISECOND) == Ceil(high, 100 * MILLISECOND) && TakenUp(low)
    ensures TakenUp(high)
  {
    var c := Ceil(high, 100 * MILLISECOND);
    CeilIs(low, c);
    CeilIs(high, c);
  }

  /** `c` periods of 100ms cover the gap and one fewer do not, which leaves the remainder. */
  lemma CeilIs(gap: nat, c: int)
    requires c == Ceil(gap, 100 * MILLISECOND)
    ensures 100 * MILLISECOND * (c - 1) < gap <= 100 * MILLISECOND * c
    ensures gap % (100 * MILLISECOND) ==
              if gap == 100 * MILLISECOND * c then 0 else gap - 100 * MILLISECOND * (c - 1)
  {
  }

  /** Nothing else attains either bound. */
  lemma {:induction false} AttainedTakenUp(polls: seq<Poll>, waits: seq<int>, commitAt: int)
    requires 1 <= |waits| <= |polls| && Progresses(polls, waits)
    requires forall k :: 0 <= k < |waits| ==>
      !After(polls[k].sample, commitAt) && waits[k] == Pause(Sub(commitAt, polls[k].sample.earliest))
    ensures polls[0].sample.earliest <= commitAt
    ensures var gap := commitAt - polls[0].sample.earliest;
            Total(waits) == gap + 100 * MICROSECOND || |waits| == Ceil(gap, 100 * MILLISECOND) + 1 ==> TakenUp(gap)
  {
    var gap := commitAt - polls[0].sample.earliest;
    assert !After(polls[0].sample, commitAt);
    PauseOf(gap);
    if |waits| == 1 {
      assert Total(waits[1..]) == 0;
    } else {
      var next := commitAt - polls[1].sample.earliest;
      assert polls[1].sample.earliest >= polls[0].sample.earliest + waits[0];
      assert !After(polls[1].sample, commitAt);
      PausesBounded(polls[1..], waits[1..], commitAt);
      AttainedTakenUp(polls[1..], waits[1..], commitAt);
      TakenUpAfter(gap, waits[0]);
      CeilMonotone(next, gap - waits[0], 100 * MILLISECOND);
      if TakenUp(next) && Ceil(next, 100 * MILLISECOND) == Ceil(gap - waits[0], 100 * MILLISECOND) {
        TakenUpBelow(next, gap - waits[0]);
      }
    }
  }

  /** The gaps for which the bounds on the pauses and on their total are attained, by one and the same run. */
  lemma BoundReachedIff(gap: nat, first: Interval, commitAt: int)
    requires !After(first, commitAt)
    ensures TakenUp(gap) <==> exists polls, waits ::
              Waits(gap, first, polls, commitAt, waits) && Total(waits) == gap + 100 * MICROSECOND
    ensures TakenUp(gap) <==> exists polls, waits ::
              Waits(gap, first, polls, commitAt, waits) && |waits| == Ceil(gap, 100 * MILLISECOND) + 1
  {
    if TakenUp(gap) {
      var polls, waits := LongestWait(gap, first, commitAt);
    }
    forall polls, waits | Waits(gap, first, polls, commitAt, waits)
      ensures Total(waits) == gap + 100 * MICROSECOND || |waits| == Ceil(gap, 100 * MILLISECOND) + 1 ==> TakenUp(gap)
    {
      AttainedTakenUp(polls, waits, commitAt);
    }
  }

  /** The commit path: `None` is the error of `fn`; `picked` is the interval sampled after it. */
  method WithCommitWait(fnFails: bool, picked: Interval, first: Interval, polls: seq<Poll>)
      returns (o: Option<Outcome>, waits: seq<int>)
    ensures fnFails ==> o == None && waits == []
    ensures !fnFails ==> o.Some? && Ends(first, polls, picked.latest, o.value, waits)
    ensures forall k: nat
              | !fnFails && k < |polls| && polls[k].cancelled && first.earliest <= picked.latest
                && (forall q :: 0 <= q < k ==> !polls[q].cancelled)
                && (forall q :: 0 <= q <= k ==> polls[q].sample.earliest <= picked.latest)
              :: o == Some(Cancelled) && |waits| == k + 1
    ensures o == Some(Cancelled) ==>
              && 0 < |waits| <= |polls| && polls[|waits| - 1].cancelled && first.earliest <= picked.latest
              && (forall q :: 0 <= q < |waits| - 1 ==> !polls[q].cancelled)
              && (forall q :: 0 <= q < |waits| ==> polls[q].sample.earliest <= picked.latest)
    ensures o == Some(Returned) && first.earliest <= picked.latest ==>
              && |waits| < |polls| && polls[|waits|].sample.earliest > picked.latest
              && (forall q :: 0 <= q < |waits| ==> polls[q].sample.earliest <= picked.latest && !polls[q].cancelled)
  {
    if fnFails { return None, []; }
    var commitAt := picked.latest;
    var r;
    r, waits := CommitWait(first, polls, commitAt);
    o := Some(r);
  }

  /** A commit pays at most the width of the interval it picked from, plus 100µs. */
  lemma CommitPaysTheWidth(picked: Interval, first: Interval, polls: seq<Poll>, o: Outcome, waits: seq<int>)
    requires Ends(first, polls, picked.latest, o, waits) && Progresses(polls, waits)
    requires polls != [] ==> picked.earliest <= polls[0].sample.earliest
    requires picked.earliest <= picked.latest
    ensures Total(waits) <= picked.latest - picked.earliest + 100 * MICROSECOND
    ensures |waits| <= Ceil(picked.latest - picked.earliest, 100 * MILLISECOND) + 1
  {
    if waits != [] {
      assert !After(polls[0].sample, picked.latest);
      CommitWaitBound(first, polls, picked.latest, o, waits);
      CeilMonotone(picked.latest - polls[0].sample.earliest, picked.latest - picked.earliest, 100 * MILLISECOND);
    }
  }
}
