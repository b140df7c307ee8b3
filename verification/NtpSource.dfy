/**
 * The integer arithmetic by which an NTP exchange becomes an interval. A Go time read off the local clocks carries a
 * monotonic reading beside the wall reading; subtraction and comparison use the former where both operands have one.
 */
module NtpSource {
  import opened Words
  import opened TrueTime
  import opened BigEndian

  const DRIFT_PPM := 200
  const NTP_EPOCH_OFFSET := 2_208_988_800
  const SECOND := 1_000_000_000

  /** What `time.Now` reads: the wall clock, which may be stepped, and the monotonic clock, which may not. */
  datatype Moment = Moment(wall: int, mono: int)

  /** Client send, server receive, server transmit and client receive, and the dispersion field of the reply. */
  datatype Exchange = Exchange(t1: Moment, t2: int, t3: int, t4: Moment, rootDispRaw: uint32)

  /** The server's times have no monotonic reading, so the offset is taken between wall readings. */
  function OffsetOf(x: Exchange): int64 { Quo(Wrap64(Sub(x.t2, x.t1.wall) + Sub(x.t3, x.t4.wall)), 2) }

  /** The local leg of the delay is taken between monotonic readings. */
  function DelayOf(x: Exchange): int64 { Wrap64(Sub(x.t4.mono, x.t1.mono) - Sub(x.t3, x.t2)) }

  /** 16.16 fixed-point seconds in nanoseconds. */
  function RootDispOf(x: Exchange): int64 { Quo(Wrap64(x.rootDispRaw * SECOND), 0x1_0000) }

  function DriftSince(elapsed: int64): int64 { Quo(Wrap64(elapsed * DRIFT_PPM), 1_000_000) }

  class Source {
    var lastOffset: int64
    var lastDispersion: int64
    var lastQuery: Moment

    /** The first query, made at construction. */
    constructor (x: Exchange)
      ensures lastOffset == OffsetOf(x) && lastQuery == x.t4
      ensures lastDispersion == Wrap64(RootDispOf(x) + Quo(DelayOf(x), 2))
    {
      lastOffset := OffsetOf(x);
      lastDispersion := Wrap64(RootDispOf(x) + Quo(DelayOf(x), 2));
      lastQuery := x.t4;
    }

    /** The part of `query` after the packets have been exchanged. */
    method Query(x: Exchange)
      modifies this
      ensures lastOffset == Quo(Wrap64(Sub(x.t2, x.t1.wall) + Sub(x.t3, x.t4.wall)), 2)
      ensures var delay := Wrap64(Sub(x.t4.mono, x.t1.mono) - Sub(x.t3, x.t2));
              lastDispersion == Wrap64(x.rootDispRaw * 1_000_000_000 / 0x1_0000 + Quo(delay, 2))
      ensures lastOffset == OffsetOf(x) && lastQuery == x.t4
      ensures lastDispersion == Wrap64(RootDispOf(x) + Quo(DelayOf(x), 2))
    {
      var offset := Quo(Wrap64(Sub(x.t2, x.t1.wall) + Sub(x.t3, x.t4.wall)), 2);
      var delay := Wrap64(Sub(x.t4.mono, x.t1.mono) - Sub(x.t3, x.t2));
      var rootDisp := Quo(Wrap64(x.rootDispRaw * SECOND), 0x1_0000);
      lastOffset := offset;
      lastDispersion := Wrap64(rootDisp + Quo(delay, 2));
      lastQuery := x.t4;
    }

    /** The interval's endpoints, by their wall readings and by their monotonic readings. */
    method Now(now: Moment) returns (wall: Interval, mono: Interval)
      ensures wall == WallInterval(lastOffset, lastDispersion, lastQuery.mono, now)
      ensures mono == IntervalAt(lastOffset, lastDispersion, lastQuery.mono, now.mono)
      ensures var elapsed := Max(0, Sub(now.mono, lastQuery.mono));
              var un: int := Wrap64(lastDispersion + Quo(Wrap64(elapsed * 200), 1_000_000));
              && wall == Interval(now.wall + lastOffset + Wrap64(-un), now.wall + lastOffset + un)
              && mono == Interval(now.mono + lastOffset + Wrap64(-un), now.mono + lastOffset + un)
    {
      var elapsed := Sub(now.mono, lastQuery.mono);
      if elapsed < 0 { elapsed := 0; }
      var extra := DriftSince(elapsed);
      var mid := Moment(now.wall + lastOffset, now.mono + lastOffset);
      var un: int := Wrap64(lastDispersion + extra);
      wall := Interval(mid.wall + Wrap64(-un), mid.wall + un);
      mono := Interval(mid.mono + Wrap64(-un), mid.mono + un);
    }
  }

  /** The interval at `now` on the clock by which time since `last` is measured: the monotonic one. */
  function IntervalAt(offset: int64, dispersion: int64, last: int, now: int): Interval {
    var elapsed := if Sub(now, last) < 0 then 0 else Sub(now, last);
    var un: int := Wrap64(dispersion + DriftSince(elapsed));
    Interval(now + offset + Wrap64(-un), now + offset + un)
  }

  /** The same interval on the wall clock, which is what the outside world sees of it. */
  function WallInterval(offset: int64, dispersion: int64, last: int, now: Moment): Interval {
    var i, ahead := IntervalAt(offset, dispersion, last, now.mono), now.wall - now.mono;
    Interval(i.earliest + ahead, i.latest + ahead)
  }

  // ---------- Where the arithmetic is exact ----------

  /** No subtraction saturates and no sum leaves the `int64` range. */
  predicate InRange(x: Exchange) {
    && -TWO63 <= x.t2 - x.t1.wall < TWO63 && -TWO63 <= x.t3 - x.t4.wall < TWO63
    && -TWO63 <= x.t4.mono - x.t1.mono < TWO63 && -TWO63 <= x.t3 - x.t2 < TWO63
    && -TWO63 <= x.t2 - x.t1.wall + x.t3 - x.t4.wall < TWO63
    && -TWO63 <= x.t4.mono - x.t1.mono - (x.t3 - x.t2) < TWO63
  }

  /** The wall clock was not stepped during the exchange. */
  predicate Steady(x: Exchange) { x.t4.wall - x.t1.wall == x.t4.mono - x.t1.mono }

  /** The dispersion product never overflows, for any value of the field. */
  lemma RootDispersionExact(x: Exchange)
    ensures RootDispOf(x) == x.rootDispRaw * 1_000_000_000 / 0x1_0000
    ensures 0 <= RootDispOf(x) < 0x1_0000 * SECOND
  {
  }

  /** The drift product does: the widening is right exactly while `elapsed * 200` fits an `int64`. */
  lemma DriftExactIff(elapsed: int64)
    requires elapsed >= 0
    ensures DriftSince(elapsed) == elapsed * DRIFT_PPM / 1_000_000 <==> elapsed * DRIFT_PPM < TWO63
  {
    var x := elapsed * DRIFT_PPM;
    if x >= TWO63 {
      assert Wrap64(x) < TWO63 <= x;
      assert Wrap64(x) <= x - TWO64 by {
        assert (x + TWO63) % TWO64 == (x + TWO63) - TWO64 * ((x + TWO63) / TWO64);
        assert (x + TWO63) / TWO64 >= 1;
      }
    }
  }

  /** While it is right, the interval widens on each side by 200µs a second. */
  lemma WidensBy200Ppm(offset: int64, dispersion: int64, last: int, now: int)
    requires last <= now && (now - last) * 200 < 0x8000_0000_0000_0000
    requires 0 <= dispersion && dispersion + (now - last) / 5_000 < 0x8000_0000_0000_0000
    ensures var un := dispersion + (now - last) / 5_000;
            IntervalAt(offset, dispersion, last, now) == Interval(now + offset - un, now + offset + un)
  {
    DriftExactIff(now - last);
  }

  /** The delay is the local round trip less the time at the server, however the wall clock is stepped meanwhile. */
  lemma DelayIgnoresSteps(x: Exchange)
    requires -0x8000_0000_0000_0000 <= x.t4.mono - x.t1.mono < 0x8000_0000_0000_0000
    requires -0x8000_0000_0000_0000 <= x.t3 - x.t2 < 0x8000_0000_0000_0000
    requires -0x8000_0000_0000_0000 <= x.t4.mono - x.t1.mono - (x.t3 - x.t2) < 0x8000_0000_0000_0000
    ensures DelayOf(x) == (x.t4.mono - x.t1.mono) - (x.t3 - x.t2)
  {
  }

  /** A step of the wall clock during the exchange goes into the offset by half. */
  lemma OffsetTakesHalfTheStep(x: Exchange, step: int)
    requires var y := x.(t4 := Moment(x.t4.wall + step, x.t4.mono)); InRange(x) && InRange(y)
    ensures var y := x.(t4 := Moment(x.t4.wall + step, x.t4.mono));
            DelayOf(y) == DelayOf(x) && -2 <= 2 * (OffsetOf(y) - OffsetOf(x)) + step <= 2
  {
  }

  // ---------- What the measurement can be trusted for ----------

  /** `theta`, true time minus wall time, explains the exchange: the server errs by at most `r`, no packet is early. */
  ghost predicate Possible(x: Exchange, r: int, theta: int) {
    (exists arrive :: Arrives(x, r, theta, arrive)) && exists depart :: Departs(x, r, theta, depart)
  }

  /** The request can reach the server at true time `arrive`. */
  predicate Arrives(x: Exchange, r: int, theta: int, arrive: int) {
    x.t1.wall + theta <= arrive && arrive - r <= x.t2 <= arrive + r
  }

  /** The reply can leave the server at true time `depart`. */
  predicate Departs(x: Exchange, r: int, theta: int, depart: int) {
    depart <= x.t4.wall + theta && depart - r <= x.t3 <= depart + r
  }

  lemma PossibleRange(x: Exchange, r: int, theta: int)
    requires r >= 0
    ensures Possible(x, r, theta) <==> x.t3 - x.t4.wall - r <= theta <= x.t2 - x.t1.wall + r
  {
    if x.t3 - x.t4.wall - r <= theta <= x.t2 - x.t1.wall + r {
      assert Arrives(x, r, theta, x.t2 + r) && Departs(x, r, theta, x.t3 - r);
    }
  }

  ghost predicate Covers(x: Exchange, slack: int) {
    forall theta {:trigger Possible(x, RootDispOf(x), theta)} :: Possible(x, RootDispOf(x), theta) ==>
      var half := RootDispOf(x) + Quo(DelayOf(x), 2) + slack;
      OffsetOf(x) - half <= theta <= OffsetOf(x) + half
  }

  /** Offset and delay are halved from numbers of the same parity. */
  lemma SameParity(x: Exchange)
    requires InRange(x) && Steady(x)
    ensures var sum := x.t2 - x.t1.wall + x.t3 - x.t4.wall;
            OffsetOf(x) == Quo(sum, 2) && sum % 2 == DelayOf(x) % 2
            && sum + DelayOf(x) == 2 * (x.t2 - x.t1.wall) && sum - DelayOf(x) == 2 * (x.t3 - x.t4.wall)
  {
    var sum, delay := x.t2 - x.t1.wall + x.t3 - x.t4.wall, x.t4.mono - x.t1.mono - (x.t3 - x.t2);
    assert DelayOf(x) == delay && sum == delay + 2 * (x.t3 - x.t4.wall);
    EvenDifference(sum, delay, x.t3 - x.t4.wall);
  }

  lemma EvenDifference(a: int, b: int, half: int)
    requires a == b + 2 * half
    ensures a % 2 == b % 2
  {
  }

  /** The measured interval covers every offset that explains the exchange, to within one nanosecond. */
  lemma MeasurementCoversWithin1ns(x: Exchange)
    requires InRange(x) && Steady(x)
    ensures Covers(x, 1)
  {
    SameParity(x);
    RootDispersionExact(x);
    forall theta {:trigger Possible(x, RootDispOf(x), theta)} | Possible(x, RootDispOf(x), theta)
      ensures var half := RootDispOf(x) + Quo(DelayOf(x), 2) + 1;
              OffsetOf(x) - half <= theta <= OffsetOf(x) + half
    {
      PossibleRange(x, RootDispOf(x), theta);
    }
  }

  /** It covers them exactly when the delay is even, or negative because the server's clock moved. */
  lemma MeasurementCoversIff(x: Exchange)
    requires InRange(x) && Steady(x)
    ensures Covers(x, 0) <==> DelayOf(x) % 2 == 0 || DelayOf(x) < 0
  {
    SameParity(x);
    RootDispersionExact(x);
    var r := RootDispOf(x);
    if DelayOf(x) % 2 == 0 || DelayOf(x) < 0 {
      forall theta {:trigger Possible(x, r, theta)} | Possible(x, r, theta)
        ensures var half := r + Quo(DelayOf(x), 2); OffsetOf(x) - half <= theta <= OffsetOf(x) + half
      {
        PossibleRange(x, r, theta);
      }
    } else {
      var low, high := x.t3 - x.t4.wall - r, x.t2 - x.t1.wall + r;
      PossibleRange(x, r, low);
      PossibleRange(x, r, high);
    }
  }

  /** How far short the interval can fall: nothing, or one nanosecond for an odd delay. */
  function Shortfall(x: Exchange): int { if DelayOf(x) % 2 == 0 || DelayOf(x) < 0 then 0 else 1 }

  /**
   * True time is `truth` when the local clocks read `now`: the exchange is explained, the wall clock has since strayed
   * by at most 200ppm of the time elapsed, and nothing overflows.
   */
  ghost predicate Reliable(x: Exchange, now: Moment, truth: int) {
    var elapsed := Max(0, now.mono - x.t4.mono);
    && InRange(x) && Steady(x)
    && elapsed * DRIFT_PPM < TWO63
    && RootDispOf(x) + Quo(DelayOf(x), 2) + elapsed * DRIFT_PPM / 1_000_000 < TWO63
    && exists theta :: Possible(x, RootDispOf(x), theta) && Strays(elapsed, truth - now.wall - theta)
  }

  predicate Strays(elapsed: int, drift: int) {
    -elapsed * DRIFT_PPM <= drift * 1_000_000 <= elapsed * DRIFT_PPM
  }

  /** What `Now` answers after the exchange `x`, on the monotonic clock and on the wall clock. */
  function MonoAnswer(x: Exchange, now: Moment): Interval {
    IntervalAt(OffsetOf(x), Wrap64(RootDispOf(x) + Quo(DelayOf(x), 2)), x.t4.mono, now.mono)
  }

  function Answer(x: Exchange, now: Moment): Interval {
    WallInterval(OffsetOf(x), Wrap64(RootDispOf(x) + Quo(DelayOf(x), 2)), x.t4.mono, now)
  }

  lemma StraysFloor(elapsed: int, drift: int)
    requires Strays(elapsed, drift)
    ensures -(elapsed * DRIFT_PPM / 1_000_000) <= drift <= elapsed * DRIFT_PPM / 1_000_000
  {
  }

  /** Without overflow the answer is what the formulas say. */
  lemma AnswerExact(x: Exchange, now: Moment)
    requires var elapsed := Max(0, now.mono - x.t4.mono);
             && elapsed * DRIFT_PPM < TWO63
             && RootDispOf(x) + Quo(DelayOf(x), 2) + elapsed * DRIFT_PPM / 1_000_000 < TWO63
    ensures var un := RootDispOf(x) + Quo(DelayOf(x), 2) + Max(0, now.mono - x.t4.mono) * DRIFT_PPM / 1_000_000;
            Answer(x, now) == Interval(now.wall + OffsetOf(x) - un, now.wall + OffsetOf(x) + un)
  {
    RootDispersionExact(x);
    DriftExactIff(Max(0, now.mono - x.t4.mono));
  }

  /** Until the next query the interval contains true time, up to the shortfall. */
  lemma IntervalContainsTruth(x: Exchange, now: Moment, truth: int)
    requires Reliable(x, now, truth)
    ensures var i := Answer(x, now); i.earliest - Shortfall(x) <= truth <= i.latest + Shortfall(x)
  {
    MeasurementCoversIff(x);
    MeasurementCoversWithin1ns(x);
    AnswerExact(x, now);
    var elapsed := Max(0, now.mono - x.t4.mono);
    var theta :| Possible(x, RootDispOf(x), theta) && Strays(elapsed, truth - now.wall - theta);
    StraysFloor(elapsed, truth - now.wall - theta);
    var half := RootDispOf(x) + Quo(DelayOf(x), 2) + Shortfall(x);
    assert OffsetOf(x) - half <= theta <= OffsetOf(x) + half;
  }

  /** Between queries `Earliest`, as commit-wait compares it, never goes back, whatever happens to the wall clock. */
  lemma EarliestNeverGoesBack(offset: int64, dispersion: int64, last: int, now: int, then': int)
    requires now <= then' && -TWO63 < dispersion
    requires var elapsed := Max(0, then' - last);
             elapsed * DRIFT_PPM < TWO63 && dispersion + elapsed * DRIFT_PPM / 1_000_000 < TWO63
    ensures IntervalAt(offset, dispersion, last, now).earliest <= IntervalAt(offset, dispersion, last, then').earliest
  {
    DriftExactIff(Max(0, now - last));
    DriftExactIff(Max(0, then' - last));
  }

  /** Neither the drift since the exchange `x` nor the sums overflow until the monotonic clock reads `until`. */
  predicate Fits(x: Exchange, until: int) {
    var elapsed := Max(0, until - x.t4.mono);
    elapsed * DRIFT_PPM < TWO63 && RootDispOf(x) + Quo(DelayOf(x), 2) + elapsed * DRIFT_PPM / 1_000_000 < TWO63
  }

  lemma EarliestAdvances(x: Exchange, now: Moment, later: Moment)
    requires now.mono <= later.mono && Fits(x, later.mono)
    ensures MonoAnswer(x, now).earliest <= MonoAnswer(x, later).earliest
  {
    RootDispersionExact(x);
    EarliestNeverGoesBack(OffsetOf(x), Wrap64(RootDispOf(x) + Quo(DelayOf(x), 2)), x.t4.mono, now.mono, later.mono);
  }

  /** A new query never takes `Earliest` back exactly when it does not do so at the moment it ends. */
  lemma RequeryKeepsEarliestIff(x: Exchange, y: Exchange, until: int)
    requires y.t4.mono <= until && Fits(x, y.t4.mono) && Fits(y, until)
    ensures (forall now: Moment, later: Moment | now.mono <= y.t4.mono <= later.mono <= until ::
              MonoAnswer(x, now).earliest <= MonoAnswer(y, later).earliest)
            <==> MonoAnswer(x, y.t4).earliest <= MonoAnswer(y, y.t4).earliest
  {
    if MonoAnswer(x, y.t4).earliest <= MonoAnswer(y, y.t4).earliest {
      forall now: Moment, later: Moment | now.mono <= y.t4.mono <= later.mono <= until
        ensures MonoAnswer(x, now).earliest <= MonoAnswer(y, later).earliest
      {
        EarliestAdvances(x, now, y.t4);
        EarliestAdvances(y, y.t4, later);
      }
    }
  }

  // ---------- Timestamps on the wire ----------

  /** Seconds since 1900 and a 32-bit fraction, in nanoseconds since 1970: the last one not after the exact value. */
  function TimeFromBytes(b: seq<byte>): (t: int)
    requires |b| == 8
    ensures t * TWO32 <= (Value(b) - NTP_EPOCH_OFFSET * TWO32) * SECOND < (t + 1) * TWO32
  {
    var raw := Value(b);
    var sec, frac := raw / TWO32, raw % TWO32;
    var nsec := frac * SECOND / TWO32;
    (sec - NTP_EPOCH_OFFSET) * SECOND + nsec
  }

  /** The same in terms of the eight bytes: four of seconds, four of fraction, the most significant first. */
  lemma TimeOfBytes(b: seq<byte>)
    requires |b| == 8
    ensures var b0: nat, b1: nat, b2: nat, b3: nat := b[0], b[1], b[2], b[3];
            var b4: nat, b5: nat, b6: nat, b7: nat := b[4], b[5], b[6], b[7];
            var seconds := 0x100_0000 * b0 + 0x1_0000 * b1 + 0x100 * b2 + b3;
            var fraction := 0x100_0000 * b4 + 0x1_0000 * b5 + 0x100 * b6 + b7;
            var t := TimeFromBytes(b) - (seconds - 2_208_988_800) * 1_000_000_000;
            t * 0x1_0000_0000 <= fraction * 1_000_000_000 < (t + 1) * 0x1_0000_0000
  {
    ValueOfEight(b);
  }

  /** The epochs are the 70 years from 1900 to 1970 apart, 17 of them leap years; so 1970 on the wire is time zero. */
  lemma EpochsApart()
    ensures NTP_EPOCH_OFFSET == (70 * 365 + 17) * 24 * 60 * 60
    ensures TimeFromBytes([0x83, 0xAA, 0x7E, 0x80, 0, 0, 0, 0]) == 0
  {
    TimeOfBytes([0x83, 0xAA, 0x7E, 0x80, 0, 0, 0, 0]);
  }

  /** Seconds, on the 1900 epoch, at which section 3 of RFC 4330 restarts the count: 06:28:16 on 7 February 2036. */
  const ERA := TWO32

  /** The time a timestamp stands for by section 3 of RFC 4330: with the top bit clear it is reckoned from 2036. */
  ghost predicate StandsFor(b: seq<byte>, t: int)
    requires |b| == 8
  {
    var since1900 := if b[0] >= 128 then Value(b) else Value(b) + ERA * TWO32;
    t * TWO32 <= (since1900 - NTP_EPOCH_OFFSET * TWO32) * SECOND < (t + 1) * TWO32
  }

  /** The code agrees with section 3 exactly when the top bit is set; otherwise it is one era, 2^32 seconds, early. */
  lemma EraIgnoredIff(b: seq<byte>)
    requires |b| == 8
    ensures StandsFor(b, TimeFromBytes(b)) <==> b[0] >= 128
    ensures StandsFor(b, TimeFromBytes(b) + if b[0] >= 128 then 0 else 4_294_967_296 * 1_000_000_000)
  {
  }
}
