/** Round trips, canonical form and prefix-freeness of the vector codec. */
module CodecTheorem {
  import opened Words
  import opened Counters
  import opened BigEndian
  import opened VectorCodec
  import Finite

  // ---------- Decoding what was encoded ----------

  /** The entries of `m` for these IDs. */
  ghost function Restrict(m: Counters, ks: seq<NodeId>): Counters { map k | k in ks && k in m :: m[k] }

  lemma ReadEntryBack(front: seq<byte>, p: Parsed, k: NodeId, c: uint64, rest: seq<byte>)
    requires p.off == |front| && |k| <= 0xFFFF
    ensures ReadEntry(front + Entry(k, c) + rest, p) == Some(Parsed(p.off + 2 + |k| + 8, p.vec[k := c], p.ids + [k]))
  {
    var off, n, e := p.off, |k|, Entry(k, c);
    var data := front + e + rest;
    Powers();
    ValueOfBytes(2, n);
    ValueOfBytes(8, c);
    assert data[off..off + 2] == Bytes(2, n);
    assert data[off + 2..off + 2 + n] == k;
    assert data[off + 2 + n..off + 2 + n + 8] == Bytes(8, c);
  }

  lemma {:induction false} EntriesSplit(ks: seq<NodeId>, m: Counters, i: nat) returns (rest: seq<byte>)
    requires i <= |ks|
    ensures Entries(ks, m) == Entries(ks[..i], m) + rest
  {
    if i == |ks| {
      assert ks[..i] == ks;
      rest := [];
    } else {
      var front := ks[..|ks| - 1];
      rest := EntriesSplit(front, m, i);
      assert front[..i] == ks[..i];
      rest := rest + Entry(ks[|ks| - 1], Get(m, ks[|ks| - 1]));
    }
  }

  lemma SizeAppend(ks: seq<NodeId>, k: NodeId)
    ensures SizeOf(ks + [k]) == SizeOf(ks) + 2 + |k| + 8
  {
    assert (ks + [k])[..|ks|] == ks;
  }

  lemma RestrictAppend(m: Counters, ks: seq<NodeId>, k: NodeId)
    requires k in m
    ensures Restrict(m, ks)[k := m[k]] == Restrict(m, ks + [k])
  {
  }

  /** The decoder of an encoding after its first `i` entries. */
  ghost function Reached(ks: seq<NodeId>, m: Counters, i: nat): Parsed
    requires i <= |ks|
  {
    Parsed(2 + SizeOf(ks[..i]), Restrict(m, ks[..i]), ks[..i])
  }

  lemma ReachedNext(ks: seq<NodeId>, m: Counters, i: nat)
    requires i < |ks| && ks[i] in m
    ensures var p, k := Reached(ks, m, i), ks[i];
            Reached(ks, m, i + 1) == Parsed(p.off + 2 + |k| + 8, p.vec[k := m[k]], p.ids + [k])
  {
    assert ks[..i + 1] == ks[..i] + [ks[i]];
    SizeAppend(ks[..i], ks[i]);
    RestrictAppend(m, ks[..i], ks[i]);
  }

  /** The encoding of the first `i` IDs, then the next entry, then the rest. */
  lemma EncodingAt(ks: seq<NodeId>, m: Counters, head: seq<byte>, i: nat) returns (front: seq<byte>, rest: seq<byte>)
    requires i < |ks| && ks[i] in m && |head| == 2
    ensures |front| == Reached(ks, m, i).off
    ensures head + Entries(ks, m) == front + Entry(ks[i], m[ks[i]]) + rest
  {
    rest := EntriesSplit(ks, m, i + 1);
    assert ks[..i + 1][..i] == ks[..i];
    EntriesSize(ks[..i], m);
    front := head + Entries(ks[..i], m);
    assert head + Entries(ks, m) == front + Entry(ks[i], m[ks[i]]) + rest;
  }

  lemma ReadNext(ks: seq<NodeId>, m: Counters, head: seq<byte>, i: nat)
    requires i < |ks| && |head| == 2 && ks[i] in m && |ks[i]| <= 0xFFFF
    ensures Reached(ks, m, i).off <= |head + Entries(ks, m)|
    ensures ReadEntry(head + Entries(ks, m), Reached(ks, m, i)) == Some(Reached(ks, m, i + 1))
  {
    var front, rest := EncodingAt(ks, m, head, i);
    ReadEntryBack(front, Reached(ks, m, i), ks[i], m[ks[i]], rest);
    ReachedNext(ks, m, i);
  }

  lemma {:induction false} ParseEncoded(ks: seq<NodeId>, m: Counters, head: seq<byte>, i: nat)
    requires i <= |ks| && |head| == 2 && forall q :: 0 <= q < |ks| ==> ks[q] in m && |ks[q]| <= 0xFFFF
    ensures Parse(head + Entries(ks, m), i) == Some(Reached(ks, m, i))
  {
    if i == 0 {
      assert ks[..0] == [] && Restrict(m, ks[..0]) == map[];
    } else {
      ParseEncoded(ks, m, head, i - 1);
      ReadNext(ks, m, head, i - 1);
    }
  }

  lemma SortedKeysSize(m: Counters)
    ensures |SortedKeys(m.Keys)| == |m|
  {
    var ks := SortedKeys(m.Keys);
    IncreasingIsDistinct(ks);
    Finite.DistinctSize(ks);
    assert Finite.Elements(ks) == m.Keys;
  }

  lemma EncodingHeader(m: Counters)
    requires Encodable(m)
    ensures Value(Encode(m)[..2]) == |m|
  {
    Powers();
    ValueOfBytes(2, |m|);
    assert Encode(m)[..2] == Bytes(2, |m|);
  }

  lemma ReachedAll(m: Counters)
    ensures Reached(SortedKeys(m.Keys), m, |SortedKeys(m.Keys)|) == Parsed(|Encode(m)|, m, SortedKeys(m.Keys))
  {
    var ks := SortedKeys(m.Keys);
    assert ks[..|ks|] == ks;
    EntriesSize(ks, m);
    assert Restrict(m, ks) == m;
  }

  /** What the decoder makes of an encoding, IDs included. */
  lemma AcceptsEncoded(m: Counters)
    requires Encodable(m)
    ensures Accepted(Encode(m)) == Some(Parsed(|Encode(m)|, m, SortedKeys(m.Keys)))
  {
    var ks := SortedKeys(m.Keys);
    SortedKeysSize(m);
    EncodingHeader(m);
    forall q | 0 <= q < |ks| ensures ks[q] in m { assert ks[q] in ks; }
    ParseEncoded(ks, m, Bytes(2, |m|), |ks|);
    ReachedAll(m);
  }

  /** Decoding undoes encoding, for every vector within the `uint16` limits. */
  lemma RoundTrip(m: Counters)
    requires |m| <= 65535 && forall k :: k in m ==> |k| <= 65535
    ensures Decode(Encode(m)) == Some(m)
  {
    AcceptsEncoded(m);
  }

  /** Two encodings are the same bytes exactly when the vectors are the same map. */
  lemma EncodingsAgreeIff(a: Counters, b: Counters)
    requires Encodable(a) && Encodable(b)
    ensures Encode(a) == Encode(b) <==> a == b
  {
    RoundTrip(a);
    RoundTrip(b);
  }

  // ---------- No accepted input is a prefix of another ----------

  lemma ReadEntryExtends(data: seq<byte>, more: seq<byte>, p: Parsed)
    requires p.off <= |data| && ReadEntry(data, p).Some?
    ensures ReadEntry(data + more, p) == ReadEntry(data, p)
  {
    var d, at, n := data + more, p.off + 2, Value(data[p.off..p.off + 2]);
    SliceOfExtended(data, more, p.off, at);
    SliceOfExtended(data, more, at, at + n);
    SliceOfExtended(data, more, at + n, at + n + 8);
  }

  lemma SliceOfExtended(data: seq<byte>, more: seq<byte>, from: nat, to: nat)
    requires from <= to <= |data|
    ensures (data + more)[from..to] == data[from..to]
  {
  }

  lemma {:induction false} ParseExtends(data: seq<byte>, more: seq<byte>, i: nat)
    requires |data| >= 2 && Parse(data, i).Some?
    ensures Parse(data + more, i) == Parse(data, i)
  {
    if i > 0 {
      ParseExtends(data, more, i - 1);
      ReadEntryExtends(data, more, Parse(data, i - 1).value);
    }
  }

  /** Every nonempty extension of an accepted input is rejected. */
  lemma ExtensionRejected(data: seq<byte>, more: seq<byte>)
    requires Decode(data).Some? && more != []
    ensures Decode(data + more) == None
  {
    assert (data + more)[..2] == data[..2];
    ParseExtends(data, more, Value(data[..2]));
  }

  /** Every strict prefix of an accepted input, in particular of an encoding, is rejected. */
  lemma PrefixRejected(data: seq<byte>, n: nat)
    requires Decode(data).Some? && n < |data|
    ensures Decode(data[..n]) == None
  {
    assert data[..n] + data[n..] == data;
    if Decode(data[..n]).Some? {
      ExtensionRejected(data[..n], data[n..]);
    }
  }

  // ---------- Re-encoding an accepted input ----------

  lemma ReadEntryFacts(data: seq<byte>, p: Parsed)
    requires p.off <= |data| && ReadEntry(data, p).Some?
    ensures var q := ReadEntry(data, p).value;
            && q.ids != [] && q.ids == p.ids + [q.ids[|q.ids| - 1]]
            && (var k := q.ids[|q.ids| - 1];
                |k| <= 0xFFFF && q.off == p.off + 2 + |k| + 8 && q.vec.Keys == p.vec.Keys + {k})
  {
    BytesOfValue(data[p.off..p.off + 2]);
    Powers();
  }

  /** Facts about the decoder's state after `i` entries of any input. */
  lemma {:induction false} ParseFacts(data: seq<byte>, i: nat)
    requires |data| >= 2 && Parse(data, i).Some?
    ensures var p := Parse(data, i).value;
            && p.off == 2 + SizeOf(p.ids) && |p.ids| == i
            && p.vec.Keys == Finite.Elements(p.ids)
            && (forall k :: k in p.ids ==> |k| <= 0xFFFF)
  {
    if i > 0 {
      ParseFacts(data, i - 1);
      var p, q := Parse(data, i - 1).value, Parse(data, i).value;
      ReadEntryFacts(data, p);
      FactsAppend(p, q, q.ids[|q.ids| - 1]);
    }
  }

  lemma FactsAppend(p: Parsed, q: Parsed, k: NodeId)
    requires p.off == 2 + SizeOf(p.ids) && p.vec.Keys == Finite.Elements(p.ids)
    requires q.ids == p.ids + [k] && q.off == p.off + 2 + |k| + 8 && q.vec.Keys == p.vec.Keys + {k}
    ensures q.off == 2 + SizeOf(q.ids) && q.vec.Keys == Finite.Elements(q.ids)
  {
    SizeAppend(p.ids, k);
    assert Finite.Elements(p.ids + [k]) == Finite.Elements(p.ids) + {k};
  }

  /** Sizes of a set of IDs, as a map so that `Sum` adds them up in any order. */
  ghost function Weights(s: set<NodeId>): Counters { map k | k in s && |k| <= 0xFFFF :: |k| + 10 }

  lemma DistinctAppend(ks: seq<NodeId>, k: NodeId)
    ensures Finite.Distinct(ks + [k]) <==> Finite.Distinct(ks) && k !in ks
  {
    var all := ks + [k];
    if Finite.Distinct(all) {
      forall a | 0 <= a < |ks| ensures ks[a] != k { assert all[a] != all[|ks|]; }
      forall a, b | 0 <= a < b < |ks| ensures ks[a] != ks[b] { assert all[a] != all[b]; }
    }
  }

  /** Adding an ID to a set adds its weight, if it is new. */
  lemma WeightAppend(s: set<NodeId>, k: NodeId)
    requires |k| <= 0xFFFF
    ensures Sum(Weights(s + {k})) == Sum(Weights(s)) + if k in s then 0 else |k| + 10
  {
    if k in s {
      assert s + {k} == s;
    } else {
      SumRemove(Weights(s + {k}), k);
      assert Weights(s + {k}) - {k} == Weights(s);
    }
  }

  lemma {:induction false} SizeIsWeight(ks: seq<NodeId>)
    requires forall k :: k in ks ==> |k| <= 0xFFFF
    ensures Sum(Weights(Finite.Elements(ks))) <= SizeOf(ks)
    ensures Sum(Weights(Finite.Elements(ks))) == SizeOf(ks) <==> Finite.Distinct(ks)
  {
    if ks == [] {
      assert Weights(Finite.Elements(ks)) == map[];
    } else {
      var front, k := ks[..|ks| - 1], ks[|ks| - 1];
      assert ks == front + [k];
      assert Finite.Elements(ks) == Finite.Elements(front) + {k};
      SizeIsWeight(front);
      WeightAppend(Finite.Elements(front), k);
      DistinctAppend(front, k);
    }
  }

  /** Re-encoding an accepted input loses nothing; it never grows, and shrinks exactly when an ID repeats. */
  lemma ReencodeNeverGrows(data: seq<byte>)
    requires Accepted(data).Some?
    ensures var p := Accepted(data).value;
            && Encodable(p.vec) && Decode(Encode(p.vec)) == Some(p.vec)
            && |Encode(p.vec)| <= |data|
            && (|Encode(p.vec)| == |data| <==> Finite.Distinct(p.ids))
  {
    var p := Accepted(data).value;
    ParseFacts(data, Value(data[..2]));
    BytesOfValue(data[..2]);
    Powers();
    var ks := SortedKeys(p.vec.Keys);
    assert Finite.Elements(ks) == Finite.Elements(p.ids) == p.vec.Keys;
    DistinctAtMost(p.ids);
    SizeIsWeight(p.ids);
    SizeIsWeight(ks);
    IncreasingIsDistinct(ks);
    EntriesSize(ks, p.vec);
    RoundTrip(p.vec);
  }

  lemma {:induction false} DistinctAtMost(ks: seq<NodeId>)
    ensures |Finite.Elements(ks)| <= |ks|
  {
    if ks == [] {
      assert Finite.Elements(ks) == {};
    } else {
      var front, k := ks[..|ks| - 1], ks[|ks| - 1];
      assert ks == front + [k];
      DistinctAtMost(front);
      assert Finite.Elements(ks) == Finite.Elements(front) + {k};
    }
  }

  // ---------- Canonical inputs ----------

  lemma {:induction false} EntriesAgree(ks: seq<NodeId>, a: Counters, b: Counters)
    requires forall k :: k in ks ==> Get(a, k) == Get(b, k)
    ensures Entries(ks, a) == Entries(ks, b)
  {
    if ks != [] {
      var front := ks[..|ks| - 1];
      assert forall k :: k in front ==> k in ks;
      EntriesAgree(front, a, b);
    }
  }

  lemma EntryInverts(data: seq<byte>, p: Parsed)
    requires p.off <= |data| && ReadEntry(data, p).Some?
    ensures var q := ReadEntry(data, p).value;
            var k := q.ids[|q.ids| - 1];
            q.ids == p.ids + [k] && k in q.vec && data[..q.off] == data[..p.off] + Entry(k, q.vec[k])
  {
    var q := ReadEntry(data, p).value;
    var n, at := Value(data[p.off..p.off + 2]), p.off + 2;
    BytesOfValue(data[p.off..at]);
    BytesOfValue(data[at + n..at + n + 8]);
    assert data[..q.off] == data[..p.off] + (data[p.off..at] + data[at..at + n] + data[at + n..at + n + 8]);
  }

  lemma Associate(a: seq<byte>, b: seq<byte>, c: seq<byte>)
    ensures a + b + c == a + (b + c)
  {
  }

  lemma EntriesAppend(ks: seq<NodeId>, k: NodeId, old': Counters, m: Counters)
    requires k in m && forall x :: x in ks ==> Get(old', x) == Get(m, x)
    ensures Entries(ks + [k], m) == Entries(ks, old') + Entry(k, m[k])
  {
    assert (ks + [k])[..|ks|] == ks;
    EntriesAgree(ks, old', m);
  }

  /** While no ID repeats, the bytes read so far are exactly the entries of the map built so far. */
  lemma {:induction false} ParseInverts(data: seq<byte>, i: nat)
    requires |data| >= 2 && Parse(data, i).Some? && Finite.Distinct(Parse(data, i).value.ids)
    ensures var p := Parse(data, i).value; data[..p.off] == data[..2] + Entries(p.ids, p.vec)
  {
    if i > 0 {
      var p, q := Parse(data, i - 1).value, Parse(data, i).value;
      EntryInverts(data, p);
      var k := q.ids[|q.ids| - 1];
      forall a, b | 0 <= a < b < |p.ids| ensures p.ids[a] != p.ids[b] { assert q.ids[a] != q.ids[b]; }
      ParseInverts(data, i - 1);
      forall x | x in p.ids ensures Get(p.vec, x) == Get(q.vec, x) {
        var a :| 0 <= a < |p.ids| && p.ids[a] == x;
        assert q.ids[a] != q.ids[|p.ids|];
      }
      EntriesAppend(p.ids, k, p.vec, q.vec);
      Associate(data[..2], Entries(p.ids, p.vec), Entry(k, q.vec[k]));
    }
  }

  /** An accepted input is the encoding of its vector exactly when its IDs are strictly increasing. */
  lemma CanonicalIff(data: seq<byte>)
    requires Accepted(data).Some?
    ensures var p := Accepted(data).value; Encode(p.vec) == data <==> Increasing(p.ids)
  {
    var p := Accepted(data).value;
    ReencodeNeverGrows(data);
    AcceptsEncoded(p.vec);
    if Increasing(p.ids) {
      IncreasingIsDistinct(p.ids);
      ParseFacts(data, Value(data[..2]));
      ParseInverts(data, Value(data[..2]));
      IncreasingUnique(p.ids, SortedKeys(p.vec.Keys));
      SortedKeysSize(p.vec);
      BytesOfValue(data[..2]);
      assert data[..p.off] == data;
    }
  }
}
