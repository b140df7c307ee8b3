/** The binary form of a vector snapshot: count, then length-prefixed IDs in sorted order with their counters. */
module VectorCodec {
  import opened Words
  import opened Counters
  import opened BigEndian
  import Finite
  import VectorClock

  // ---------- Sorted keys ----------

  ghost predicate Increasing(ks: seq<NodeId>) {
    forall a, b :: 0 <= a < b < |ks| ==> LexLess(ks[a], ks[b])
  }

  /** One step of the library's string sort. */
  function Insert(k: NodeId, ks: seq<NodeId>): (r: seq<NodeId>)
    ensures |r| == |ks| + 1
    ensures forall x :: x in r <==> x == k || x in ks
  {
    if ks == [] || !LexLess(ks[0], k) then [k] + ks else [ks[0]] + Insert(k, ks[1..])
  }

  function SortStrings(ks: seq<NodeId>): (r: seq<NodeId>)
    ensures |r| == |ks|
    ensures forall x :: x in r <==> x in ks
  {
    if ks == [] then [] else
      assert ks == [ks[0]] + ks[1..];
      Insert(ks[0], SortStrings(ks[1..]))
  }

  lemma PrependIncreasing(k: NodeId, ks: seq<NodeId>)
    requires Increasing(ks) && (ks != [] ==> LexLess(k, ks[0]))
    ensures Increasing([k] + ks)
  {
    forall b | 0 <= b < |ks| ensures LexLess(k, ks[b]) {
      if b > 0 { LexTransitive(k, ks[0], ks[b]); }
    }
  }

  lemma {:induction false} InsertIncreasing(k: NodeId, ks: seq<NodeId>)
    requires Increasing(ks) && k !in ks
    ensures Increasing(Insert(k, ks))
  {
    if ks == [] {
    } else if LexLess(ks[0], k) {
      InsertIncreasing(k, ks[1..]);
      PrependIncreasing(ks[0], Insert(k, ks[1..]));
    } else {
      LexTotal(ks[0], k);
      PrependIncreasing(k, ks);
    }
  }

  lemma {:induction false} SortIncreasing(ks: seq<NodeId>)
    requires Finite.Distinct(ks)
    ensures Increasing(SortStrings(ks))
  {
    if ks != [] {
      SortIncreasing(ks[1..]);
      InsertIncreasing(ks[0], SortStrings(ks[1..]));
    }
  }

  lemma IncreasingIsDistinct(ks: seq<NodeId>)
    requires Increasing(ks)
    ensures Finite.Distinct(ks)
  {
    forall a, b | 0 <= a < b < |ks| ensures ks[a] != ks[b] { LexAsymmetric(ks[a], ks[b]); }
  }

  lemma SmallestFirst(a: seq<NodeId>, b: seq<NodeId>)
    requires Increasing(a) && Increasing(b) && a != [] && b != [] && b[0] in a && a[0] in b
    ensures a[0] == b[0]
  {
    var i :| 0 <= i < |a| && a[i] == b[0];
    var j :| 0 <= j < |b| && b[j] == a[0];
    if i > 0 && j > 0 { LexAsymmetric(a[0], a[i]); }
  }

  /** A set of IDs has only one increasing enumeration. */
  lemma {:induction false} IncreasingUnique(a: seq<NodeId>, b: seq<NodeId>)
    requires Increasing(a) && Increasing(b) && forall k :: k in a <==> k in b
    ensures a == b
  {
    assert (a != [] ==> a[0] in a) && (b != [] ==> b[0] in b);
    if a != [] && b != [] {
      SmallestFirst(a, b);
      IncreasingIsDistinct(a);
      IncreasingIsDistinct(b);
      TailMembers(a);
      TailMembers(b);
      IncreasingUnique(a[1..], b[1..]);
      assert a == [a[0]] + a[1..] && b == [b[0]] + b[1..];
    }
  }

  lemma TailMembers(a: seq<NodeId>)
    requires a != [] && Finite.Distinct(a)
    ensures forall k :: k in a[1..] <==> k in a && k != a[0]
  {
    assert a == [a[0]] + a[1..];
    forall k | k in a[1..] ensures k != a[0] {
      var i :| 0 <= i < |a| - 1 && a[1..][i] == k;
      assert a[i + 1] == k;
    }
  }

  lemma {:induction false} Enumerate(s: set<NodeId>) returns (ks: seq<NodeId>)
    ensures Increasing(ks) && forall k :: k in ks <==> k in s
  {
    if s == {} {
      ks := [];
    } else {
      var k :| k in s;
      ks := Enumerate(s - {k});
      InsertIncreasing(k, ks);
      ks := Insert(k, ks);
    }
  }

  /** The increasing enumeration of a set of IDs. */
  ghost function SortedKeys(s: set<NodeId>): (ks: seq<NodeId>)
    ensures Increasing(ks) && forall k :: k in ks <==> k in s
  {
    assert exists ks :: Increasing(ks) && forall k :: k in ks <==> k in s by { var ks := Enumerate(s); }
    var ks :| Increasing(ks) && forall k :: k in ks <==> k in s;
    ks
  }

  // ---------- Encoding ----------

  function Entry(k: NodeId, c: uint64): seq<byte> { Bytes(2, |k|) + k + Bytes(8, c) }

  ghost function Entries(ks: seq<NodeId>, m: Counters): seq<byte> {
    if ks == [] then [] else Entries(ks[..|ks| - 1], m) + Entry(ks[|ks| - 1], Get(m, ks[|ks| - 1]))
  }

  ghost function Encode(m: Counters): seq<byte> {
    Bytes(2, |m|) + Entries(SortedKeys(m.Keys), m)
  }

  /** The `uint16` limits of the format. */
  predicate Encodable(m: Counters) {
    |m| <= 0xFFFF && forall k :: k in m ==> |k| <= 0xFFFF
  }

  /** Bytes taken by the entries of these IDs. */
  function SizeOf(ks: seq<NodeId>): nat {
    if ks == [] then 0 else SizeOf(ks[..|ks| - 1]) + 2 + |ks[|ks| - 1]| + 8
  }

  lemma {:induction false} EntriesSize(ks: seq<NodeId>, m: Counters)
    ensures |Entries(ks, m)| == SizeOf(ks)
  {
    if ks != [] { EntriesSize(ks[..|ks| - 1], m); }
  }

  lemma EntriesNext(ks: seq<NodeId>, m: Counters, i: nat)
    requires i < |ks|
    ensures Entries(ks[..i + 1], m) == Entries(ks[..i], m) + Entry(ks[i], Get(m, ks[i]))
    ensures SizeOf(ks[..i + 1]) == SizeOf(ks[..i]) + 2 + |ks[i]| + 8
    ensures forall head: seq<byte> ::
      head + Entries(ks[..i], m) + Entry(ks[i], Get(m, ks[i])) == head + Entries(ks[..i + 1], m)
  {
    assert ks[..i + 1][..i] == ks[..i];
  }

  lemma {:induction false} SizeMonotone(ks: seq<NodeId>, i: nat)
    requires i <= |ks|
    ensures SizeOf(ks[..i]) <= SizeOf(ks)
  {
    if i < |ks| {
      SizeMonotone(ks[..|ks| - 1], i);
      assert ks[..|ks| - 1][..i] == ks[..i];
    } else {
      assert ks[..i] == ks;
    }
  }

  /** The keys of a map in some order. */
  method CollectKeys(m: Counters) returns (keys: seq<NodeId>)
    ensures Finite.Distinct(keys) && |keys| == |m| && forall k :: k in keys <==> k in m
  {
    keys := [];
    var todo := m.Keys;
    while todo != {}
      invariant todo <= m.Keys && Finite.Distinct(keys) && |keys| + |todo| == |m|
      invariant forall k :: k in keys <==> k in m && k !in todo
    {
      var k :| k in todo;
      keys := keys + [k];
      todo := todo - {k};
    }
  }

  /** Writes one entry at `off`. */
  method PutEntry(buff: array<byte>, off: nat, k: NodeId, c: uint64) returns (next: nat)
    requires off + 2 + |k| + 8 <= buff.Length
    modifies buff
    ensures next == off + 2 + |k| + 8
    ensures buff[..next] == old(buff[..off]) + Entry(k, c)
  {
    ghost var before := buff[..off];
    next := off;
    Put(buff, next, 2, |k|);
    next := next + 2;
    Copy(buff, next, k);
    next := next + |k|;
    Put(buff, next, 8, c);
    next := next + 8;
    assert before + Bytes(2, |k|) + k + Bytes(8, c) == before + (Bytes(2, |k|) + k + Bytes(8, c));
  }

  /** The buffer size, or `None` if an ID is too long. */
  method EncodedSize(keys: seq<NodeId>) returns (size: Option<nat>)
    ensures size == None <==> exists q :: 0 <= q < |keys| && |keys[q]| > 0xFFFF
    ensures size.Some? ==> size.value == 2 + SizeOf(keys)
  {
    var total: nat := 2;
    for i := 0 to |keys|
      invariant total == 2 + SizeOf(keys[..i])
      invariant forall q :: 0 <= q < i ==> |keys[q]| <= 0xFFFF
    {
      if |keys[i]| > 0xFFFF { return None; }
      assert keys[..i + 1][..i] == keys[..i];
      total := total + 2 + |keys[i]| + 8;
    }
    assert keys[..|keys|] == keys;
    return Some(total);
  }

  /** Fills the buffer from the front: the count, then every entry at the moving offset. */
  method WriteAll(buff: array<byte>, keys: seq<NodeId>, m: Counters)
    requires buff.Length == 2 + SizeOf(keys)
    modifies buff
    ensures buff[..] == Bytes(2, |keys|) + Entries(keys, m)
  {
    Put(buff, 0, 2, |keys|);
    var off := 2;
    for i := 0 to |keys|
      invariant off == 2 + SizeOf(keys[..i]) <= buff.Length
      invariant buff[..off] == Bytes(2, |keys|) + Entries(keys[..i], m)
    {
      EntriesNext(keys, m, i);
      SizeMonotone(keys, i + 1);
      off := PutEntry(buff, off, keys[i], Get(m, keys[i]));
    }
    assert keys[..|keys|] == keys;
    assert buff[..off] == buff[..];
  }

  /** `None` stands for the two size errors. */
  method MarshalBinary(s: VectorClock.Snapshot) returns (r: Option<seq<byte>>)
    ensures r == None <==> |s.vec| > 65535 || exists k :: k in s.vec && |k| > 65535
    ensures r.Some? ==> r.value == Encode(s.vec)
  {
    if |s.vec| > 0xFFFF { return None; }
    var keys := CollectKeys(s.vec);
    SortIncreasing(keys);
    keys := SortStrings(keys);
    IncreasingUnique(keys, SortedKeys(s.vec.Keys));
    var size := EncodedSize(keys);
    if size == None {
      ghost var q :| 0 <= q < |keys| && |keys[q]| > 0xFFFF;
      assert keys[q] in s.vec;
      return None;
    }
    var buff := new byte[size.value](_ => 0);
    WriteAll(buff, keys, s.vec);
    return Some(buff[..]);
  }

  // ---------- Decoding ----------

  /** The decoder after some entries: next offset, map built so far, IDs read so far. */
  datatype Parsed = Parsed(off: nat, vec: Counters, ids: seq<NodeId>)

  function ReadEntry(data: seq<byte>, p: Parsed): (r: Option<Parsed>)
    requires p.off <= |data|
    ensures r.Some? ==> p.off + 10 <= r.value.off <= |data|
  {
    if p.off + 2 > |data| then None else
      var idLen := Value(data[p.off..p.off + 2]);
      var at := p.off + 2;
      if at + idLen + 8 > |data| then None else
        var id := data[at..at + idLen];
        BytesOfValue(data[at + idLen..at + idLen + 8]); Powers();
        Some(Parsed(at + idLen + 8, p.vec[id := Value(data[at + idLen..at + idLen + 8])], p.ids + [id]))
  }

  /** The decoder after `i` entries, if it gets that far. */
  function Parse(data: seq<byte>, i: nat): (r: Option<Parsed>)
    requires |data| >= 2
    ensures r.Some? ==> r.value.off <= |data|
  {
    if i == 0 then Some(Parsed(2, map[], [])) else
      var r := Parse(data, i - 1);
      if r == None then None else ReadEntry(data, r.value)
  }

  /** The IDs and map of an accepted input. */
  function Accepted(data: seq<byte>): Option<Parsed> {
    if |data| < 2 then None else
      var r := Parse(data, Value(data[..2]));
      if r == None || r.value.off != |data| then None else r
  }

  function Decode(data: seq<byte>): Option<Counters> {
    if Accepted(data) == None then None else Some(Accepted(data).value.vec)
  }

  lemma {:induction false} ParseFails(data: seq<byte>, i: nat, n: nat)
    requires |data| >= 2 && i <= n && Parse(data, i) == None
    ensures Parse(data, n) == None
  {
    if i < n { ParseFails(data, i, n - 1); }
  }

  /** Reads one entry at `off` into the map; fails if it runs past the end. */
  method NextEntry(data: seq<byte>, off: nat, vec: Counters, ghost ids: seq<NodeId>)
      returns (ok: bool, next: nat, grown: Counters, ghost more: seq<NodeId>)
    requires off <= |data|
    ensures ReadEntry(data, Parsed(off, vec, ids)) == if ok then Some(Parsed(next, grown, more)) else None
  {
    ok, next, grown, more := false, off, vec, ids;
    if next + 2 > |data| { return; }
    var idLen := Value(data[next..next + 2]);
    next := next + 2;
    if next + idLen + 8 > |data| { return; }
    var id := data[next..next + idLen];
    next := next + idLen;
    BytesOfValue(data[next..next + 8]);
    Powers();
    var val := Value(data[next..next + 8]);
    next := next + 8;
    grown := grown[id := val];
    more := more + [id];
    ok := true;
  }

  /** `None` stands for `ErrCorruptEncoding`, which leaves the receiver as it was. */
  method UnmarshalBinary(data: seq<byte>) returns (r: Option<VectorClock.Snapshot>)
    ensures r == if Decode(data) == None then None else Some(VectorClock.Snapshot([], Decode(data).value))
  {
    if |data| < 2 { return None; }
    var count := Value(data[0..2]);
    assert data[0..2] == data[..2];
    var off: nat := 2;
    var vec: Counters := map[];
    ghost var ids: seq<NodeId> := [];
    for i := 0 to count
      invariant off <= |data| && Parse(data, i) == Some(Parsed(off, vec, ids))
    {
      var ok;
      ok, off, vec, ids := NextEntry(data, off, vec, ids);
      if !ok {
        ParseFails(data, i + 1, count);
        return None;
      }
    }
    if off != |data| { return None; }
    return Some(VectorClock.Snapshot([], vec));
  }
}
