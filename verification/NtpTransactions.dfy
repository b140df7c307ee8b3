/**
 * Transactions on NTP sources. A process compares its own intervals by their monotonic readings, and shows their wall
 * readings to everybody else.
 */
module NtpTransactions {
  import opened TrueTime
  import opened NtpSource
  import opened TransactionRun

  /**
   * A source answers a transaction at true time `at`, when the local clocks read `now` and `x` was its last exchange:
   * an interval on each clock, which falls short of true time by at most `short`.
   */
  datatype Reply = Reply(txn: nat, clock: nat, at: int, x: Exchange, now: Moment,
                         mono: Interval, wall: Interval, short: int, cancelled: bool)

  /** The reply is what the source answers, and the exchange, now over, can be relied on. */
  ghost predicate FromNtp(r: Reply) {
    && r.x.t1.mono <= r.x.t4.mono <= r.now.mono
    && Reliable(r.x, r.now, r.at) && r.short == Shortfall(r.x)
    && r.mono == MonoAnswer(r.x, r.now) && r.wall == Answer(r.x, r.now)
  }

  /** How far the wall clock is ahead of the monotonic clock; only a step of the wall clock changes it. */
  function Ahead(r: Reply): int { r.wall.earliest - r.mono.earliest }

  /** The run as the outside world sees it. */
  function WallRun(rs: seq<Reply>): (run: seq<Sample>)
    ensures |run| == |rs| && forall k :: 0 <= k < |rs| ==>
      run[k] == Sample(rs[k].txn, rs[k].clock, rs[k].at, rs[k].wall, rs[k].cancelled)
  {
    seq(|rs|, k requires 0 <= k < |rs| =>
      Sample(rs[k].txn, rs[k].clock, rs[k].at, rs[k].wall, rs[k].cancelled))
  }

  /** The run as each process compares its own part of it. */
  function MonoRun(rs: seq<Reply>): (run: seq<Sample>)
    ensures |run| == |rs| && forall k :: 0 <= k < |rs| ==>
      run[k] == Sample(rs[k].txn, rs[k].clock, rs[k].at, rs[k].mono, rs[k].cancelled)
  {
    seq(|rs|, k requires 0 <= k < |rs| =>
      Sample(rs[k].txn, rs[k].clock, rs[k].at, rs[k].mono, rs[k].cancelled))
  }

  /** Every reply can be relied on, and true time never goes back. */
  ghost predicate Genuine(rs: seq<Reply>) {
    && (forall k {:trigger FromNtp(rs[k])} :: 0 <= k < |rs| ==> FromNtp(rs[k]))
    && (forall k :: 0 < k < |rs| ==> rs[k - 1].at <= rs[k].at)
  }

  /** A monotonic clock never goes back, keeps true time to 200ppm, and sees one exchange after another. */
  ghost predicate SameClock(r: Reply, later: Reply) {
    var elapsed := later.now.mono - r.now.mono;
    && elapsed >= 0 && Strays(elapsed, later.at - r.at - elapsed)
    && (later.x == r.x || (r.now.mono <= later.x.t4.mono && r.x.t4.mono <= later.x.t1.mono))
  }

  /** The run is physically possible; each transaction asks one clock. */
  ghost predicate Physical(rs: seq<Reply>) {
    forall k, m :: 0 <= k < m < |rs| ==>
      && (rs[k].txn == rs[m].txn ==> rs[k].clock == rs[m].clock)
      && (rs[k].clock == rs[m].clock ==> SameClock(rs[k], rs[m]))
  }

  /** A reply contains true time up to its shortfall, and its two views are one interval. */
  lemma ReplyContainsTruth(rs: seq<Reply>, k: nat)
    requires Genuine(rs) && k < |rs|
    ensures rs[k].wall.earliest - rs[k].short <= rs[k].at <= rs[k].wall.latest + rs[k].short
    ensures rs[k].wall.latest - rs[k].mono.latest == Ahead(rs[k]) && 0 <= rs[k].short <= 1
  {
    assert FromNtp(rs[k]);
    IntervalContainsTruth(rs[k].x, rs[k].now, rs[k].at);
  }

  lemma {:induction false} SameOwners(run: seq<Sample>, other: seq<Sample>, txn: nat)
    requires |run| == |other| && forall k :: 0 <= k < |run| ==> run[k].txn == other[k].txn
    ensures |Own(run, txn)| == |Own(other, txn)|
  {
    if run != [] {
      var k := |run| - 1;
      SameOwners(run[..k], other[..k], txn);
    }
  }

  /** Whose pick a step is does not depend on which readings are looked at. */
  lemma PicksOnBoth(rs: seq<Reply>, txn: nat, k: nat, ts: int)
    requires Genuine(rs) && PicksAt(MonoRun(rs), txn, k, ts)
    ensures PicksAt(WallRun(rs), txn, k, ts + Ahead(rs[k]))
  {
    SameOwners(MonoRun(rs)[..k], WallRun(rs)[..k], txn);
    ReplyContainsTruth(rs, k);
  }

  /** A transaction that picked `s` at step `p` returned at `a`, before another picked `t` at `b`. */
  ghost predicate Precedes(rs: seq<Reply>, p: nat, s: int, a: nat, b: nat, t: int) {
    && p < a < b < |rs|
    && exists i, mono, j ::
         ReturnsAt(MonoRun(rs), i, a, mono) && PicksAt(WallRun(rs), i, p, s) && PicksAt(WallRun(rs), j, b, t)
  }

  /** Every return has its pick, so every pick after it is preceded by that. */
  lemma ReturnPrecedesPick(rs: seq<Reply>, i: nat, a: nat, mono: int, j: nat, b: nat, t: int) returns (p: nat, s: int)
    requires Genuine(rs) && ReturnsAt(MonoRun(rs), i, a, mono) && PicksAt(WallRun(rs), j, b, t) && a < b
    ensures Precedes(rs, p, s, a, b, t)
  {
    p := ReturnFollowsPick(MonoRun(rs), i, a, mono);
    s := mono + Ahead(rs[p]);
    PicksOnBoth(rs, i, p, mono);
  }

  /**
   * A transaction whose commit-wait returned before another picked has the smaller timestamp, but for the nanosecond by
   * which each source can fall short, and but for any step of its wall clock since it picked.
   */
  lemma ConsistencyOnNtp(rs: seq<Reply>, p: nat, s: int, a: nat, b: nat, t: int)
    requires Genuine(rs) && Precedes(rs, p, s, a, b, t)
    ensures rs[p].txn == rs[a].txn
    ensures s + Ahead(rs[a]) - Ahead(rs[p]) < t + rs[a].short + rs[b].short <= t + 2
  {
    var i, mono, j :|
      ReturnsAt(MonoRun(rs), i, a, mono) && PicksAt(WallRun(rs), i, p, s) && PicksAt(WallRun(rs), j, b, t);
    var pick := ReturnFollowsPick(MonoRun(rs), i, a, mono);
    PicksOnBoth(rs, i, pick, mono);
    PickUnique(WallRun(rs), i, p, s, pick, mono + Ahead(rs[pick]));
    ReplyContainsTruth(rs, a);
    ReplyContainsTruth(rs, b);
    TruthAdvances(WallRun(rs), a, b);
  }

  /** No wall clock is behind, by more than `back`, where it stood when the same transaction read it before. */
  ghost predicate StepsBackAtMost(rs: seq<Reply>, back: nat) {
    forall p, a :: 0 <= p < a < |rs| && rs[p].txn == rs[a].txn ==> Ahead(rs[p]) - back <= Ahead(rs[a])
  }

  /** Real-time order is timestamp order, but for what the sources fall short. */
  ghost predicate Consistent(rs: seq<Reply>) {
    forall p: nat, s, a: nat, b: nat, t :: Precedes(rs, p, s, a, b, t) ==> s < t + rs[a].short + rs[b].short
  }

  /** Transactions on NTP sources are consistent exactly while no wall clock is stepped back between pick and return. */
  lemma ConsistentIff(back: nat)
    ensures (forall rs :: Genuine(rs) && Physical(rs) && StepsBackAtMost(rs, back) ==> Consistent(rs)) <==> back == 0
  {
    if back == 0 {
      forall rs: seq<Reply> | Genuine(rs) && StepsBackAtMost(rs, back) ensures Consistent(rs) {
        forall p: nat, s, a: nat, b: nat, t | Precedes(rs, p, s, a, b, t)
          ensures s < t + rs[a].short + rs[b].short
        {
          ConsistencyOnNtp(rs, p, s, a, b, t);
        }
      }
    } else {
      var rs := StepEndsWaitEarly(Moment(0, 0));
      assert StepsBackAtMost(rs, back);
    }
  }

  /** External consistency as it is promised: real-time order is timestamp order. */
  ghost predicate Strict(rs: seq<Reply>) {
    forall p: nat, s, a: nat, b: nat, t :: Precedes(rs, p, s, a, b, t) ==> s < t
  }

  /** No source falls short by more than `short`: with zero, none whose last exchange had an odd delay. */
  ghost predicate ShortAtMost(rs: seq<Reply>, short: nat) {
    forall k :: 0 <= k < |rs| ==> rs[k].short <= short
  }

  /** The promise is kept exactly while, besides, no delay is odd. */
  lemma StrictIff(back: nat, short: nat)
    ensures (forall rs :: Genuine(rs) && Physical(rs) && StepsBackAtMost(rs, back) && ShortAtMost(rs, short) ==>
              Strict(rs))
            <==> back == 0 && short == 0
  {
    if back == 0 && short == 0 {
      forall rs: seq<Reply> | Genuine(rs) && StepsBackAtMost(rs, back) && ShortAtMost(rs, short) ensures Strict(rs) {
        forall p: nat, s, a: nat, b: nat, t | Precedes(rs, p, s, a, b, t) ensures s < t {
          ConsistencyOnNtp(rs, p, s, a, b, t);
        }
      }
    } else if back > 0 {
      var rs := StepEndsWaitEarly(Moment(0, 0));
      assert StepsBackAtMost(rs, back) && ShortAtMost(rs, short);
    } else {
      var rs := OddDelaysInvert();
      assert ShortAtMost(rs, short);
    }
  }

  // ---------- Runs at the limits ----------

  function At(t: int): Interval { Interval(t, t) }

  lemma Three(r0: Reply, r1: Reply, r2: Reply) returns (rs: seq<Reply>)
    requires Genuine([r0]) && Genuine([r1]) && Genuine([r2]) && r0.at <= r1.at <= r2.at
    ensures rs == [r0, r1, r2] && Genuine(rs)
  {
    rs := [r0, r1, r2];
    forall k {:trigger FromNtp(rs[k])} | 0 <= k < 3 ensures FromNtp(rs[k]) {
      assert FromNtp([r0][0]) && FromNtp([r1][0]) && FromNtp([r2][0]);
    }
  }

  /** One transaction picks and at once returns; then another picks. */
  lemma OneThenAnother(rs: seq<Reply>)
    requires |rs| == 3 && rs[0].txn == rs[1].txn != rs[2].txn && After(rs[1].mono, rs[0].mono.latest)
    ensures Precedes(rs, 0, rs[0].wall.latest, 1, 2, rs[2].wall.latest)
  {
    var run, u, v := WallRun(rs), rs[0].txn, rs[2].txn;
    ReturnsAtOnce(MonoRun(rs), u);
    assert Own(run[..0], u) == [] && PicksAt(run, u, 0, rs[0].wall.latest);
    NoneOwn(run[..2], v);
    assert PicksAt(run, v, 2, rs[2].wall.latest);
  }

  /** Right after an exchange that took no time, with an exact server `ahead` of the local wall clock. */
  lemma InstantReply(txn: nat, clock: nat, now: Moment, ahead: int) returns (r: Reply)
    requires -1000 <= ahead <= 1000
    ensures r == Reply(txn, clock, now.wall + ahead, r.x, now, At(now.mono + ahead), At(now.wall + ahead), 0, false)
    ensures r.x.t1 == now == r.x.t4 && Genuine([r])
  {
    var x := Exchange(now, now.wall + ahead, now.wall + ahead, now, 0);
    r := Reply(txn, clock, now.wall + ahead, x, now, At(now.mono + ahead), At(now.wall + ahead), 0, false);
    assert RootDispOf(x) == 0 && DelayOf(x) == 0 && OffsetOf(x) == ahead;
    PossibleRange(x, 0, ahead);
    assert Strays(0, 0);
    assert FromNtp([r][0]);
  }

  /** A wall clock set back by one nanosecond, and an exchange that corrects it, end the wait before time has moved. */
  lemma StepEndsWaitEarly(first: Moment) returns (rs: seq<Reply>)
    ensures Genuine(rs) && Physical(rs) && StepsBackAtMost(rs, 1) && ShortAtMost(rs, 0)
    ensures !Consistent(rs) && !Strict(rs)
  {
    var pick := InstantReply(0, 0, first, 0);
    var poll := InstantReply(0, 0, Moment(first.wall - 1, first.mono), 1);
    var later := InstantReply(1, 1, first, 0);
    rs := Three(pick, poll, later);
    OneThenAnother(rs);
  }

  /** The delay is one nanosecond, all of it on the way to a server a nanosecond ahead, or on the way back. */
  function Odd(server: nat): Exchange { Exchange(Moment(0, 0), server, server, Moment(1, 1), 0) }

  lemma OddExchange(server: nat, now: int)
    requires server <= 1 <= now <= 1000
    ensures Shortfall(Odd(server)) == 1 && Reliable(Odd(server), Moment(now, now), now + 2 * server - 1)
    ensures MonoAnswer(Odd(server), Moment(now, now)) == Answer(Odd(server), Moment(now, now)) == At(now)
  {
    var x := Odd(server);
    assert RootDispOf(x) == 0 && DelayOf(x) == 1 && OffsetOf(x) == 0;
    AnswerExact(x, Moment(now, now));
    PossibleRange(x, 0, 2 * server - 1);
    assert Strays(now - 1, 0);
  }

  /** Soon after that exchange, on a clock of its own. */
  lemma OddReply(txn: nat, server: nat, now: int) returns (r: Reply)
    requires server <= 1 <= now <= 1000
    ensures r == Reply(txn, server, now + 2 * server - 1, Odd(server), Moment(now, now), At(now), At(now), 1, false)
    ensures Genuine([r])
  {
    OddExchange(server, now);
    r := Reply(txn, server, now + 2 * server - 1, Odd(server), Moment(now, now), At(now), At(now), 1, false);
    assert FromNtp([r][0]);
  }

  /** The two nanoseconds are needed: a timestamp can be the larger by one although its transaction returned first. */
  lemma OddDelaysInvert() returns (rs: seq<Reply>)
    ensures Genuine(rs) && Physical(rs) && StepsBackAtMost(rs, 0) && ShortAtMost(rs, 1)
    ensures |rs| == 3 && rs[0].clock == rs[1].clock != rs[2].clock
    ensures Precedes(rs, 0, 5, 1, 2, 4)
  {
    var pick := OddReply(0, 0, 5);
    var poll := OddReply(0, 0, 6);
    var later := OddReply(1, 1, 4);
    rs := Three(pick, poll, later);
    OneThenAnother(rs);
  }

  /** Right after an exchange that took no time, with a server that reports the least root dispersion but zero. */
  lemma DispersedReply(txn: nat, now: int) returns (r: Reply)
    ensures r.txn == txn && r.clock == 0 && r.at == now && r.now == Moment(now, now) && Genuine([r])
    ensures r.x.t1 == r.now == r.x.t4
    ensures r.mono == r.wall == Interval(now - 15_258, now + 15_258)
  {
    var m, i := Moment(now, now), Interval(now - 15_258, now + 15_258);
    var x := Exchange(m, now, now, m, 1);
    r := Reply(txn, 0, now, x, m, i, i, 0, false);
    assert RootDispOf(x) == 15_258 && DelayOf(x) == 0 && OffsetOf(x) == 0;
    PossibleRange(x, 15_258, 0);
    assert Strays(0, 0);
    assert FromNtp([r][0]);
  }

  lemma GoesBack(rs: seq<Reply>, clock: nat)
    requires |rs| == 3 && rs[1].clock == clock == rs[2].clock && rs[1].mono.earliest > rs[2].mono.earliest
    ensures !StaysPast(MonoRun(rs), clock)
  {
    var run := MonoRun(rs);
    assert run[1].interval.earliest > run[2].interval.earliest;
    StaysPastIff(run, clock);
  }

  /** A new exchange may report a larger root dispersion, and then the source breaks what commit-wait promises. */
  lemma RequeryBreaksPromise() returns (rs: seq<Reply>)
    ensures Genuine(rs) && Physical(rs) && StepsBackAtMost(rs, 0)
    ensures |rs| == 3 && rs[0].clock == rs[1].clock == rs[2].clock == 0
    ensures Precedes(rs, 0, 0, 1, 2, rs[2].wall.latest) && !After(rs[2].mono, 0) && !StaysPast(MonoRun(rs), 0)
  {
    var pick := InstantReply(0, 0, Moment(0, 0), 0);
    var poll := InstantReply(0, 0, Moment(5, 5), 0);
    var later := DispersedReply(1, 6);
    rs := Three(pick, poll, later);
    OneThenAnother(rs);
    GoesBack(rs, 0);
  }
}
