/** Hybrid logical clocks: timestamps, the clock of one process, and what one clock does on its own. */
module HybridClock {
  import opened Words

  datatype Timestamp = Timestamp(wallTime: int64, logical: uint32)

  const ZERO := Timestamp(0, 0)

  predicate Less(a: Timestamp, b: Timestamp) {
    if a.wallTime != b.wallTime then a.wallTime < b.wallTime else a.logical < b.logical
  }

  function Compare(a: Timestamp, b: Timestamp): (r: int)
    ensures r == -1 <==> Less(a, b)
    ensures r == 1 <==> Less(b, a)
    ensures r == 0 <==> a == b
    ensures r < 0 <==> a.wallTime < b.wallTime || (a.wallTime == b.wallTime && a.logical < b.logical)
  {
    if a.wallTime < b.wallTime then -1
    else if a.wallTime > b.wallTime then 1
    else if a.logical < b.logical then -1
    else if a.logical > b.logical then 1
    else 0
  }

  lemma LessIsAStrictTotalOrder(a: Timestamp, b: Timestamp, c: Timestamp)
    ensures !Less(a, a)
    ensures Less(a, b) && Less(b, c) ==> Less(a, c)
    ensures Less(a, b) || a == b || Less(b, a)
  {
  }

  /** The local-event rule. */
  function Advance(s: Timestamp, pt: int64): Timestamp {
    var newL := if s.wallTime < pt then pt else s.wallTime;
    Timestamp(newL, if newL == s.wallTime then Inc32(s.logical) else 0)
  }

  /** The receive rule, with its four cases in order. */
  function Merged(s: Timestamp, remote: Timestamp, pt: int64): Timestamp {
    var l := if s.wallTime < remote.wallTime then remote.wallTime else s.wallTime;
    var newL := if l < pt then pt else l;
    if newL == s.wallTime && newL == remote.wallTime then
      Timestamp(newL, Inc32(if s.logical < remote.logical then remote.logical else s.logical))
    else if newL == s.wallTime then Timestamp(newL, Inc32(s.logical))
    else if newL == remote.wallTime then Timestamp(newL, Inc32(remote.logical))
    else Timestamp(newL, 0)
  }

  /** The drift check, with its wrapping `int64` addition. */
  predicate Rejects(maxDrift: int64, remote: Timestamp, pt: int64) {
    maxDrift > 0 && remote.wallTime > Wrap64(pt + maxDrift)
  }

  class Clock {
    var state: Timestamp
    const maxDrift: int64

    constructor (maxDrift: int64)
      ensures state == ZERO && this.maxDrift == maxDrift
    {
      state := ZERO;
      this.maxDrift := maxDrift;
    }

    method Now(pt: int64) returns (t: Timestamp)
      modifies this
      ensures pt > old(state).wallTime ==> t == Timestamp(pt, 0)
      ensures pt <= old(state).wallTime ==>
                t.wallTime == old(state).wallTime && t.logical == (old(state).logical + 1) % 0x1_0000_0000
      ensures t == state == Advance(old(state), pt)
    {
      var newL := state.wallTime;
      newL := if newL < pt then pt else newL;
      var newC: uint32 := 0;
      if newL == state.wallTime {
        newC := Inc32(state.logical);
      }
      state := Timestamp(newL, newC);
      t := state;
    }

    method Send(pt: int64) returns (t: Timestamp)
      modifies this
      ensures pt > old(state).wallTime ==> t == Timestamp(pt, 0)
      ensures pt <= old(state).wallTime ==>
                t.wallTime == old(state).wallTime && t.logical == (old(state).logical + 1) % 0x1_0000_0000
      ensures t == state == Advance(old(state), pt)
    {
      t := Now(pt);
    }

    /** `None` stands for `ErrMaxDriftExceeded`. */
    method Receive(remote: Timestamp, pt: int64) returns (r: Option<Timestamp>)
      modifies this
      ensures r == None <==> maxDrift > 0 && remote.wallTime > Wrap64(pt + maxDrift)
      ensures r == None ==> state == old(state)
      ensures r.Some? && pt > old(state).wallTime && pt > remote.wallTime ==> r.value == Timestamp(pt, 0)
      ensures r.Some? && !(pt > old(state).wallTime && pt > remote.wallTime) ==>
                exists top :: (top == old(state) || top == remote)
                  && (forall s :: s == old(state) || s == remote ==>
                        s.wallTime < top.wallTime || (s.wallTime == top.wallTime && s.logical <= top.logical))
                  && r.value.wallTime == top.wallTime && r.value.logical == (top.logical + 1) % 0x1_0000_0000
      ensures Rejects(maxDrift, remote, pt) ==> r == None && state == old(state)
      ensures !Rejects(maxDrift, remote, pt) ==> r == Some(state) && state == Merged(old(state), remote, pt)
    {
      if maxDrift > 0 && remote.wallTime > Wrap64(pt + maxDrift) {
        return None;
      }
      var newL := state.wallTime;
      newL := if newL < remote.wallTime then remote.wallTime else newL;
      newL := if newL < pt then pt else newL;
      var newC: uint32;
      if newL == state.wallTime && newL == remote.wallTime {
        newC := state.logical;
        newC := if newC < remote.logical then remote.logical else newC;
        newC := Inc32(newC);
      } else if newL == state.wallTime {
        newC := Inc32(state.logical);
      } else if newL == remote.wallTime {
        newC := Inc32(remote.logical);
      } else {
        newC := 0;
      }
      state := Timestamp(newL, newC);
      r := Some(state);
    }
  }

  function Later(a: Timestamp, b: Timestamp): Timestamp { if Less(a, b) then b else a }

  /** The four cases collapse: receiving is one local step taken from the later of the two stamps. */
  lemma ReceiveIsNowFromTheLater(s: Timestamp, remote: Timestamp, pt: int64)
    ensures Merged(s, remote, pt) == Advance(Later(s, remote), pt)
  {
  }

  /** A step goes strictly forward, whatever the wall clock does, exactly unless it wraps the logical counter. */
  lemma AdvanceIncreasesIff(s: Timestamp, pt: int64)
    ensures Less(s, Advance(s, pt)) <==> (s.wallTime < pt || s.logical < TWO32 - 1)
  {
  }

  /** It is then the least timestamp that is after the clock's last one and not before the wall reading. */
  lemma AdvanceIsLeastIff(s: Timestamp, pt: int64)
    ensures var a := Advance(s, pt);
            (Less(s, a) && a.wallTime >= pt && forall t :: Less(s, t) && t.wallTime >= pt ==> !Less(t, a))
            <==> (s.wallTime < pt || s.logical < TWO32 - 1)
  {
  }

  /** Likewise a receive gives the least timestamp after both stamps and not before the wall reading. */
  lemma ReceiveIsLeastIff(s: Timestamp, remote: Timestamp, pt: int64)
    ensures var m, top := Merged(s, remote, pt), Later(s, remote);
            (Less(s, m) && Less(remote, m) && m.wallTime >= pt
             && forall t :: Less(s, t) && Less(remote, t) && t.wallTime >= pt ==> !Less(t, m))
            <==> (top.wallTime < pt || top.logical < TWO32 - 1)
  {
    ReceiveIncreasesIff(s, remote, pt);
    ReceiveIsNowFromTheLater(s, remote, pt);
    AdvanceIsLeastIff(Later(s, remote), pt);
  }

  lemma ReceiveIncreasesIff(s: Timestamp, remote: Timestamp, pt: int64)
    ensures var m, top := Merged(s, remote, pt), Later(s, remote);
            (Less(s, m) && Less(remote, m)) <==> (top.wallTime < pt || top.logical < TWO32 - 1)
  {
    ReceiveIsNowFromTheLater(s, remote, pt);
    AdvanceIncreasesIff(Later(s, remote), pt);
  }

  /** The check decides "more than `maxDrift` ahead" exactly unless `pt + maxDrift` overflows past the remote. */
  lemma DriftCheckExactIff(maxDrift: int64, remote: Timestamp, pt: int64)
    requires maxDrift > 0
    ensures (Rejects(maxDrift, remote, pt) <==> remote.wallTime > pt + maxDrift)
            <==> (pt + maxDrift < TWO63 || remote.wallTime <= pt + maxDrift - TWO64)
  {
    if pt + maxDrift >= TWO63 {
      assert Wrap64(pt + maxDrift) == pt + maxDrift - TWO64;
    }
  }

  /** One call on a single clock; remote stamps are whatever the network delivers. */
  datatype Call = Local(pt: int64) | Incoming(pt: int64, remote: Timestamp)

  function Do(maxDrift: int64, s: Timestamp, c: Call): Timestamp {
    match c
    case Local(pt) => Advance(s, pt)
    case Incoming(pt, remote) => if Rejects(maxDrift, remote, pt) then s else Merged(s, remote, pt)
  }

  function DoAll(maxDrift: int64, calls: seq<Call>): Timestamp {
    if calls == [] then ZERO
    else Do(maxDrift, DoAll(maxDrift, calls[..|calls| - 1]), calls[|calls| - 1])
  }

  /** The largest of zero and the wall readings taken so far. */
  function TopReading(calls: seq<Call>): int {
    if calls == [] then 0 else Max(TopReading(calls[..|calls| - 1]), calls[|calls| - 1].pt)
  }

  /** With the check on, no sequence of senders can push a clock more than `maxDrift` past its own best reading. */
  lemma {:induction false} DriftIsBounded(maxDrift: int64, calls: seq<Call>)
    requires maxDrift > 0
    ensures DoAll(maxDrift, calls).wallTime <= TopReading(calls) + maxDrift
  {
    if calls != [] {
      var c := calls[|calls| - 1];
      DriftIsBounded(maxDrift, calls[..|calls| - 1]);
      if c.Incoming? && !Rejects(maxDrift, c.remote, c.pt) {
        assert c.remote.wallTime <= c.pt + maxDrift;
      }
    }
  }

  /** Without it, one message sets the clock to any wall time the sender likes. */
  lemma NoCheckNoBound(pt: int64, far: int64)
    requires pt < far && far > 0
    ensures DoAll(0, [Incoming(pt, Timestamp(far, 0))]).wallTime == far
  {
    var calls := [Incoming(pt, Timestamp(far, 0))];
    assert calls[..0] == [];
    assert DoAll(0, calls) == Do(0, DoAll(0, calls[..0]), calls[0]);
  }
}
