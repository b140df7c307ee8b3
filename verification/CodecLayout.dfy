/** Which byte of an encoding stands where, said of the bytes themselves. */
module CodecLayout {
  import opened Words
  import opened Counters
  import opened BigEndian
  import opened VectorCodec
  import opened CodecTheorem
  import VectorClock
  import Finite

  // ---------- What is written ----------

  /** The bytes of one entry: length, ID, value, each number with its most significant byte first. */
  lemma EntryBytes(k: NodeId, c: uint64)
    requires |k| <= 0xFFFF
    ensures Entry(k, c) == [|k| / 0x100, |k| % 0x100] + k +
              [c / 0x100_0000_0000_0000, c / 0x1_0000_0000_0000 % 0x100, c / 0x100_0000_0000 % 0x100,
               c / 0x1_0000_0000 % 0x100, c / 0x100_0000 % 0x100, c / 0x1_0000 % 0x100, c / 0x100 % 0x100, c % 0x100]
  {
    TwoBytes(|k|);
    EightBytes(c);
  }

  /** Where they stand: entry `i` begins where the one before it ends. */
  lemma EntryIsAt(m: Counters, ks: seq<NodeId>, at: nat, i: nat)
    requires Encodable(m) && ks == SortedKeys(m.Keys) && i < |ks| && at == 2 + SizeOf(ks[..i])
    ensures ks[i] in m
    ensures var n, c, next := |ks[i]|, m[ks[i]], 2 + SizeOf(ks[..i + 1]);
            && at + 2 + n + 8 == next <= |Encode(m)|
            && n <= 0xFFFF
            && Encode(m)[at..next] == [n / 0x100, n % 0x100] + ks[i] +
                 [c / 0x100_0000_0000_0000, c / 0x1_0000_0000_0000 % 0x100, c / 0x100_0000_0000 % 0x100,
                  c / 0x1_0000_0000 % 0x100, c / 0x100_0000 % 0x100, c / 0x1_0000 % 0x100, c / 0x100 % 0x100, c % 0x100]
  {
    assert ks[i] in ks;
    EntryStands(m, ks, at, i);
    EntryBytes(ks[i], m[ks[i]]);
  }

  lemma EntryStands(m: Counters, ks: seq<NodeId>, at: nat, i: nat)
    requires Encodable(m) && ks == SortedKeys(m.Keys) && i < |ks| && at == 2 + SizeOf(ks[..i]) && ks[i] in m
    ensures at + 2 + |ks[i]| + 8 == 2 + SizeOf(ks[..i + 1]) <= |Encode(m)|
    ensures Encode(m)[at..at + 2 + |ks[i]| + 8] == Entry(ks[i], m[ks[i]])
  {
    var front, rest := EncodingAt(ks, m, Bytes(2, |m|), i);
    EntriesNext(ks, m, i);
    EntriesSize(ks, m);
    SizeMonotone(ks, i + 1);
    assert Encode(m) == front + Entry(ks[i], m[ks[i]]) + rest;
  }

  /** An encoding begins with the count, its entries go on from there, and it ends with the last of them. */
  lemma EncodingIsFilled(m: Counters, ks: seq<NodeId>)
    requires Encodable(m) && ks == SortedKeys(m.Keys)
    ensures |ks| == |m| && (forall k :: k in ks <==> k in m)
    ensures forall i, j :: 0 <= i < j < |ks| ==> LexLess(ks[i], ks[j])
    ensures |Encode(m)| >= 2 && Encode(m)[0] == |m| / 0x100 && Encode(m)[1] == |m| % 0x100
    ensures SizeOf(ks[..0]) == 0 && 2 + SizeOf(ks[..|ks|]) == |Encode(m)|
  {
    SortedKeysSize(m);
    EntriesSize(ks, m);
    assert ks[..|ks|] == ks;
    TwoBytes(|m|);
    assert Encode(m)[..2] == Bytes(2, |m|);
  }

  // ---------- What is read ----------

  datatype Item = Item(id: NodeId, value: uint64)

  ghost predicate ShortIds(items: seq<Item>) { forall i :: 0 <= i < |items| ==> |items[i].id| <= 0xFFFF }

  /** The bytes of these entries, one after another. */
  function Flat(items: seq<Item>): seq<byte> {
    if items == [] then [] else
      var last := items[|items| - 1];
      Flat(items[..|items| - 1]) + Entry(last.id, last.value)
  }

  /** The map they leave: a later entry replaces an earlier one of the same ID. */
  function Stored(items: seq<Item>): Counters {
    if items == [] then map[] else
      var last := items[|items| - 1];
      Stored(items[..|items| - 1])[last.id := last.value]
  }

  lemma {:induction false} LastEntryWins(items: seq<Item>, i: nat)
    requires i < |items| && forall j :: i < j < |items| ==> items[j].id != items[i].id
    ensures items[i].id in Stored(items) && Stored(items)[items[i].id] == items[i].value
  {
    if i < |items| - 1 {
      var front := items[..|items| - 1];
      LastEntryWins(front, i);
    }
  }

  lemma {:induction false} OnlyEntriesStored(items: seq<Item>, k: NodeId) returns (i: nat)
    requires k in Stored(items)
    ensures i < |items| && items[i].id == k
  {
    if items[|items| - 1].id == k { i := |items| - 1; } else { i := OnlyEntriesStored(items[..|items| - 1], k); }
  }

  function Ids(items: seq<Item>): (ids: seq<NodeId>)
    ensures |ids| == |items| && forall i :: 0 <= i < |items| ==> ids[i] == items[i].id
  {
    seq(|items|, i requires 0 <= i < |items| => items[i].id)
  }

  lemma {:induction false} FlatSplit(items: seq<Item>, i: nat) returns (rest: seq<byte>)
    requires i <= |items|
    ensures Flat(items) == Flat(items[..i]) + rest
  {
    if i == |items| {
      assert items[..i] == items;
      rest := [];
    } else {
      var front, last := items[..|items| - 1], items[|items| - 1];
      rest := FlatSplit(front, i);
      assert front[..i] == items[..i];
      Associate(Flat(items[..i]), rest, Entry(last.id, last.value));
      rest := rest + Entry(last.id, last.value);
    }
  }

  ghost function Reading(items: seq<Item>, i: nat): Parsed
    requires i <= |items|
  {
    Parsed(2 + |Flat(items[..i])|, Stored(items[..i]), Ids(items[..i]))
  }

  lemma ReadingNext(items: seq<Item>, i: nat)
    requires i < |items|
    ensures var p, item := Reading(items, i), items[i];
            Reading(items, i + 1) ==
              Parsed(p.off + 2 + |item.id| + 8, p.vec[item.id := item.value], p.ids + [item.id])
  {
    assert items[..i + 1][..i] == items[..i];
    assert Ids(items[..i + 1]) == Ids(items[..i]) + [items[i].id];
  }

  lemma ItemStands(items: seq<Item>, head: seq<byte>, i: nat) returns (front: seq<byte>, rest: seq<byte>)
    requires i < |items| && |head| == 2
    ensures head + Flat(items) == front + Entry(items[i].id, items[i].value) + rest
    ensures |front| == Reading(items, i).off
  {
    var pre := items[..i];
    rest := FlatSplit(items, i + 1);
    assert items[..i + 1][..i] == pre;
    front := head + Flat(pre);
    assert head + Flat(items) == front + Entry(items[i].id, items[i].value) + rest;
  }

  lemma EntryRead(data: seq<byte>, front: seq<byte>, p: Parsed, item: Item, rest: seq<byte>, q: Parsed)
    requires data == front + Entry(item.id, item.value) + rest && p.off == |front| && |item.id| <= 0xFFFF
    requires q == Parsed(p.off + 2 + |item.id| + 8, p.vec[item.id := item.value], p.ids + [item.id])
    ensures p.off <= |data| && ReadEntry(data, p) == Some(q)
  {
    ReadEntryBack(front, p, item.id, item.value, rest);
  }

  lemma ItemRead(items: seq<Item>, head: seq<byte>, i: nat)
    requires i < |items| && |head| == 2 && |items[i].id| <= 0xFFFF
    ensures Reading(items, i).off <= |head + Flat(items)|
    ensures ReadEntry(head + Flat(items), Reading(items, i)) == Some(Reading(items, i + 1))
  {
    var front, rest := ItemStands(items, head, i);
    ReadingNext(items, i);
    EntryRead(head + Flat(items), front, Reading(items, i), items[i], rest, Reading(items, i + 1));
  }

  /** The decoder's state after the first `i` entries. */
  lemma {:induction false} ParseItems(items: seq<Item>, head: seq<byte>, i: nat)
    requires |head| == 2 && i <= |items| && ShortIds(items)
    ensures Parse(head + Flat(items), i) == Some(Reading(items, i))
  {
    if i == 0 {
      assert items[..0] == [];
    } else {
      ParseItems(items, head, i - 1);
      ItemRead(items, head, i - 1);
    }
  }

  /** Conversely what has been read is the bytes of some entries. */
  lemma {:induction false} ItemsRead(data: seq<byte>, i: nat) returns (items: seq<Item>)
    requires |data| >= 2 && Parse(data, i).Some?
    ensures |items| == i && ShortIds(items)
    ensures var p := Parse(data, i).value; data[..p.off] == data[..2] + Flat(items) && p.vec == Stored(items)
  {
    if i == 0 {
      items := [];
    } else {
      var p, q := Parse(data, i - 1).value, Parse(data, i).value;
      items := ItemsRead(data, i - 1);
      EntryInverts(data, p);
      ReadEntryFacts(data, p);
      var k := q.ids[|q.ids| - 1];
      var item := Item(k, q.vec[k]);
      Associate(data[..2], Flat(items), Entry(k, q.vec[k]));
      assert (items + [item])[..i - 1] == items;
      items := items + [item];
    }
  }

  /** Exactly which inputs are accepted, and as what: the count, so many entries, and not a byte more. */
  lemma DecodeIff(data: seq<byte>, vec: Counters)
    ensures Decode(data) == Some(vec) <==> exists items: seq<Item> ::
              |items| <= 0xFFFF && ShortIds(items) && data == Bytes(2, |items|) + Flat(items) && vec == Stored(items)
  {
    Powers();
    if Decode(data) == Some(vec) {
      var items := ItemsRead(data, Value(data[..2]));
      BytesOfValue(data[..2]);
      assert data[..|data|] == data;
    }
    forall items: seq<Item> | |items| <= 0xFFFF && ShortIds(items) && data == Bytes(2, |items|) + Flat(items)
      ensures Decode(data) == Some(Stored(items))
    {
      ValueOfBytes(2, |items|);
      assert data[..2] == Bytes(2, |items|);
      ParseItems(items, Bytes(2, |items|), |items|);
      assert items[..|items|] == items;
    }
  }
}
