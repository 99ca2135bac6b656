/** bplist_analyze, bplist_serialize_object and plist_object_to_bplist. */
module PlistWriter {
  import opened Arith
  import opened Bytes
  import opened PlistFormat
  import opened PlistLayout

  /** What an object adds to the bytes and to the table, itself first. */
  lemma ArrayParts(items: seq<Tree>, off: nat, id: nat, reflen: nat)
    requires reflen > 0
    ensures ArrayBytes(items, id + 1, reflen) == Encoded(Array(items), id, reflen)
    ensures Offsets(Array(items), off, id, reflen)[1..]
            == ItemOffsets(items, off + |Header(0xA0, |items|)| + Span(|items|, reflen), id + 1, reflen)
    ensures Objects(Array(items)) - 1 == ItemObjects(items)
  {
  }

  lemma DictParts(entries: seq<Entry>, off: nat, id: nat, reflen: nat)
    requires reflen > 0
    ensures DictBytes(entries, id + 1, reflen) == Encoded(Dict(entries), id, reflen)
    ensures Offsets(Dict(entries), off, id, reflen)[1..]
            == EntryOffsets(entries, off + |Header(0xD0, |entries|)| + Span(|entries|, reflen)
                + Span(|entries|, reflen), id + 1, reflen)
    ensures Objects(Dict(entries)) - 1 == EntryObjects(entries)
  {
  }

  lemma LeafParts(t: Tree, off: nat, id: nat, reflen: nat)
    requires reflen > 0 && !t.Array? && !t.Dict?
    ensures Encoded(t, 0, reflen) == Encoded(t, id, reflen) && Offsets(t, off, id, reflen)[1..] == [] && Objects(t) == 1
  {
  }

  /** The buffer and the offset table that serializing fills, both of fixed size. */
  class Writer {
    var data: seq<Byte>
    var dataidx: nat
    var reftab: seq<int>
    var reftabidx: nat

    constructor (size: nat, objects: nat)
      ensures data == seq(size, _ => 0) && dataidx == 0
      ensures reftab == seq(objects, _ => 0) && reftabidx == 0
    {
      data, dataidx, reftab, reftabidx := seq(size, _ => 0), 0, seq(objects, _ => 0), 0;
    }

    method PutByte(b: Byte)
      requires dataidx < |data|
      modifies this`data, this`dataidx
      ensures dataidx == old(dataidx) + 1 && data == Patched(old(data), old(dataidx), [b])
    {
      PatchOne(data, dataidx, b);
      data := data[dataidx := b];
      dataidx := dataidx + 1;
    }

    /** memcpy to the write position */
    method PutBytes(b: seq<Byte>)
      requires dataidx + |b| <= |data|
      modifies this`data, this`dataidx
      ensures dataidx == old(dataidx) + |b| && data == Patched(old(data), old(dataidx), b)
    {
      PatchedIs(data, dataidx, b);
      data := data[..dataidx] + b + data[dataidx + |b|..];
      dataidx := dataidx + |b|;
    }

    /** serialize_integer at some position: from the highest byte down. */
    method PutInteger(at: nat, length: nat, value: int) returns (next: nat)
      requires at + length <= |data|
      modifies this`data
      ensures next == at + length && data == Patched(old(data), at, BigEndian(value, length))
    {
      var k := length;
      next := at;
      var bytes := BigEndian(value, length);
      assert bytes[..0] == [];
      PatchNothing(data, at);
      while k > 0
        invariant 0 <= k <= length && next == at + (length - k) && |data| == |old(data)|
        invariant data == Patched(old(data), at, bytes[..length - k])
      {
        k := k - 1;
        var n := length - k;
        assert bytes[..n] == bytes[..n - 1] + [ByteOf(value, k)];
        PatchAppend(old(data), at, bytes[..n - 1], [ByteOf(value, k)]);
        PatchOne(data, next, ByteOf(value, k));
        data := data[next := ByteOf(value, k)];
        next := next + 1;
      }
      assert bytes[..length] == bytes;
    }

    /** The type byte and length in front of data, strings, arrays and dictionaries. */
    method PutHeader(kind: nat, length: nat)
      requires kind % 16 == 0 && kind < 256 && dataidx + |Header(kind, length)| <= |data|
      modifies this`data, this`dataidx
      ensures dataidx == old(dataidx) + |Header(kind, length)|
      ensures data == Patched(old(data), old(dataidx), Header(kind, length))
    {
      if length < 15 {
        PutByte(kind + length);
      } else {
        ghost var first: seq<Byte>, second: seq<Byte> := [kind + 15], [0x10 + LengthCode(length)];
        PutByte(kind + 15);
        PutByte(0x10 + LengthCode(length));
        dataidx := PutInteger(dataidx, IntegerLength(length), length);
        PatchAppend(old(data), old(dataidx), first, second);
        PatchAppend(old(data), old(dataidx), first + second, BigEndian(length, IntegerLength(length)));
        assert first + second + BigEndian(length, IntegerLength(length)) == Header(kind, length);
      }
    }

    /** Room for an object in the buffer and in the offset table. */
    ghost predicate HasRoom(size: nat, objects: nat)
      reads this
    {
      dataidx + size <= |data| && reftabidx + objects <= |reftab|
    }

    /** The state after bytes and offsets have been added. */
    twostate predicate Added(bytes: seq<Byte>, offsets: seq<int>)
      requires old(HasRoom(|bytes|, |offsets|))
      reads this
    {
      && dataidx == old(dataidx) + |bytes| && data == Patched(old(data), old(dataidx), bytes)
      && reftabidx == old(reftabidx) + |offsets| && reftab == Patched(old(reftab), old(reftabidx), offsets)
    }

    /** The next object number, with its offset recorded. */
    method Enter() returns (id: nat)
      requires HasRoom(0, 1)
      modifies this`reftab, this`reftabidx
      ensures id == old(reftabidx) && reftabidx == id + 1
      ensures reftab == Patched(old(reftab), id, [dataidx])
    {
      id := reftabidx;
      PatchOne(reftab, reftabidx, dataidx);
      reftab := reftab[reftabidx := dataidx];
      reftabidx := reftabidx + 1;
    }

    /** bplist_serialize_string */
    method SerializeString(text: seq<Byte>) returns (id: nat)
      requires HasRoom(|StringBytes(text)|, 1)
      modifies this
      ensures id == old(reftabidx) && Added(StringBytes(text), [old(dataidx)])
    {
      id := Enter();
      PutHeader(0x50, |text|);
      PutBytes(text);
      PatchAppend(old(data), old(dataidx), Header(0x50, |text|), text);
    }

    /** bplist_serialize_object, for an object without children. */
    method SerializeLeaf(t: Tree, ghost reflen: nat)
      requires !t.Array? && !t.Dict? && reflen > 0 && dataidx + |Encoded(t, 0, reflen)| <= |data| && WellTyped(t)
      modifies this`data, this`dataidx
      ensures dataidx == old(dataidx) + |Encoded(t, 0, reflen)|
      ensures data == Patched(old(data), old(dataidx), Encoded(t, 0, reflen))
    {
      match t
      case Null => PutByte(0);
      case Primitive(v) => PutByte(v % 256);
      case Integer(n) =>
        ghost var head: seq<Byte> := [0x10 + LengthCode(n)];
        PutByte(0x10 + LengthCode(n));
        dataidx := PutInteger(dataidx, IntegerLength(n), n);
        PatchAppend(old(data), old(dataidx), head, BigEndian(n, IntegerLength(n)));
        assert head + BigEndian(n, IntegerLength(n)) == Encoded(t, 0, reflen);
      case Real(bits) =>
        ghost var head: seq<Byte> := [0x23];
        PutByte(0x20 + 3);
        PutBytes(bits);
        PatchAppend(old(data), old(dataidx), head, bits);
        assert head + bits == Encoded(t, 0, reflen);
      case Data(bytes) =>
        PutHeader(0x40, |bytes|);
        PutBytes(bytes);
        PatchAppend(old(data), old(dataidx), Header(0x40, |bytes|), bytes);
      case String(text) =>
        PutHeader(0x50, |text|);
        PutBytes(text);
        PatchAppend(old(data), old(dataidx), Header(0x50, |text|), text);
    }

    /** bplist_serialize_object: the object's bytes at the write position, its offset
        and those of everything below it in the table. */
    method SerializeObject(t: Tree, reflen: nat) returns (id: nat)
      requires reflen > 0 && WellTyped(t) && HasRoom(|Encoded(t, reftabidx, reflen)|, Objects(t))
      modifies this
      ensures id == old(reftabidx)
      ensures Added(Encoded(t, id, reflen), Offsets(t, old(dataidx), id, reflen))
      decreases t, 1
    {
      ghost var off := dataidx;
      id := Enter();
      SerializeContent(t, id, reflen);
      PatchAppend(old(reftab), id, [off], Offsets(t, off, id, reflen)[1..]);
      assert [off] + Offsets(t, off, id, reflen)[1..] == Offsets(t, off, id, reflen);
    }

    /** The switch over the object's type, once its offset is in the table. */
    method SerializeContent(t: Tree, id: nat, reflen: nat)
      requires reflen > 0 && WellTyped(t) && reftabidx == id + 1
      requires HasRoom(|Encoded(t, id, reflen)|, Objects(t) - 1)
      modifies this
      ensures Added(Encoded(t, id, reflen), Offsets(t, old(dataidx), id, reflen)[1..])
      decreases t, 0
    {
      match t
      case Array(items) =>
        ArrayParts(items, dataidx, id, reflen);
        SerializeArray(items, reflen);
      case Dict(entries) =>
        DictParts(entries, dataidx, id, reflen);
        SerializeDict(entries, reflen);
      case _ =>
        LeafParts(t, dataidx, id, reflen);
        PatchNothing(reftab, reftabidx);
        SerializeLeaf(t, reflen);
    }

    /** An array: room for the references, then child by child its bytes and its
        reference. */
    method SerializeArray(items: seq<Tree>, reflen: nat)
      requires reflen > 0 && WellTypedItems(items) && HasRoom(|ArrayBytes(items, reftabidx, reflen)|, ItemObjects(items))
      modifies this
      ensures Added(ArrayBytes(items, old(reftabidx), reflen),
                    ItemOffsets(items, old(dataidx) + |Header(0xA0, |items|)| + Span(|items|, reflen), old(reftabidx),
                        reflen))
      decreases items, 4
    {
      ArrayWhole(data, dataidx, items, reftabidx, reflen);
      PutHeader(0xA0, |items|);
      var valueidx := dataidx;
      SpanIs(|items|, reflen);
      dataidx := dataidx + |items| * reflen;
      SerializeItems(items, valueidx, reflen);
    }

    /** The loop over the children. */
    method SerializeItems(items: seq<Tree>, valueidx0: nat, reflen: nat)
      requires reflen > 0 && WellTypedItems(items) && valueidx0 + Span(|items|, reflen) == dataidx
      requires HasRoom(|EncodedItems(items, reftabidx, reflen)|, ItemObjects(items))
      modifies this
      ensures dataidx == old(dataidx) + |EncodedItems(items, old(reftabidx), reflen)|
      ensures reftabidx == old(reftabidx) + ItemObjects(items)
      ensures data == Pending(old(data), valueidx0, ItemRefs(items, old(reftabidx), reflen),
                              old(dataidx), EncodedItems(items, old(reftabidx), reflen))
      ensures reftab == Patched(old(reftab), old(reftabidx), ItemOffsets(items, old(dataidx), old(reftabidx), reflen))
      decreases items, 3
    {
      var valueidx, i := valueidx0, 0;
      ghost var end := End(dataidx + |EncodedItems(items, reftabidx, reflen)|, reftabidx + ItemObjects(items));
      ghost var D := Pending(data, valueidx, ItemRefs(items, reftabidx, reflen), dataidx,
          EncodedItems(items, reftabidx, reflen));
      ghost var T := Patched(reftab, reftabidx, ItemOffsets(items, dataidx, reftabidx, reflen));
      assert items[0..] == items;
      while i < |items|
        invariant 0 <= i <= |items| && WellTypedItems(items[i..])
        invariant ItemsLeft(D, T, end, data, valueidx, dataidx, reftab, reftabidx, items[i..], reflen)
      {
        valueidx := SerializeItem(items, i, valueidx, reflen, D, T, end);
        i := i + 1;
      }
      assert items[i..] == [];
      ItemsLeftNone(D, T, end, data, valueidx, dataidx, reftab, reftabidx, reflen);
    }

    /** One child and the reference to it. */
    method SerializeItem(items: seq<Tree>, i: nat, valueidx: nat, reflen: nat, ghost D: seq<Byte>, ghost T: seq<int>,
        ghost end: End)
      returns (valueidx': nat)
      requires reflen > 0 && i < |items| && WellTypedItems(items[i..])
      requires ItemsLeft(D, T, end, data, valueidx, dataidx, reftab, reftabidx, items[i..], reflen)
      modifies this
      ensures WellTypedItems(items[i + 1..])
      ensures ItemsLeft(D, T, end, data, valueidx', dataidx, reftab, reftabidx, items[i + 1..], reflen)
      decreases items, 2
    {
      ItemsLeftStep(D, T, end, data, valueidx, dataidx, reftab, reftabidx, items[i..], reflen);
      assert items[i..][0] == items[i] && items[i..][1..] == items[i + 1..];
      var valueid := SerializeObject(items[i], reflen);
      valueidx' := PutInteger(valueidx, reflen, valueid);
    }

    /** A dictionary: room for two rows of references, then key, value and both
        references for each entry. */
    method SerializeDict(entries: seq<Entry>, reflen: nat)
      requires reflen > 0 && WellTypedEntries(entries) && HasRoom(|DictBytes(entries, reftabidx, reflen)|,
        EntryObjects(entries))
      modifies this
      ensures Added(DictBytes(entries, old(reftabidx), reflen),
                    EntryOffsets(entries, old(dataidx) + |Header(0xD0, |entries|)| + Span(|entries|, reflen)
                        + Span(|entries|, reflen),
                                 old(reftabidx), reflen))
      decreases entries, 4
    {
      DictWhole(data, dataidx, entries, reftabidx, reflen);
      PutHeader(0xD0, |entries|);
      SpanIs(|entries|, reflen);
      var keyidx := dataidx;
      dataidx := dataidx + |entries| * reflen;
      var valueidx := dataidx;
      dataidx := dataidx + |entries| * reflen;
      SerializeEntries(entries, keyidx, valueidx, reflen);
    }

    /** The loop over the entries. */
    method SerializeEntries(entries: seq<Entry>, keyidx0: nat, valueidx0: nat, reflen: nat)
      requires reflen > 0 && WellTypedEntries(entries)
      requires keyidx0 + Span(|entries|, reflen) == valueidx0 && valueidx0 + Span(|entries|, reflen) == dataidx
      requires HasRoom(|EncodedEntries(entries, reftabidx, reflen)|, EntryObjects(entries))
      modifies this
      ensures dataidx == old(dataidx) + |EncodedEntries(entries, old(reftabidx), reflen)|
      ensures reftabidx == old(reftabidx) + EntryObjects(entries)
      ensures data == PendingThree(old(data), keyidx0, KeyRefs(entries, old(reftabidx), reflen),
                                   valueidx0, ValueRefs(entries, old(reftabidx), reflen),
                                   old(dataidx), EncodedEntries(entries, old(reftabidx), reflen))
      ensures reftab == Patched(old(reftab), old(reftabidx), EntryOffsets(entries, old(dataidx), old(reftabidx), reflen))
      decreases entries, 3
    {
      var keyidx, valueidx, i := keyidx0, valueidx0, 0;
      ghost var end := End(dataidx + |EncodedEntries(entries, reftabidx, reflen)|, reftabidx + EntryObjects(entries));
      ghost var D := PendingThree(data, keyidx, KeyRefs(entries, reftabidx, reflen), valueidx,
          ValueRefs(entries, reftabidx, reflen),
                                  dataidx, EncodedEntries(entries, reftabidx, reflen));
      ghost var T := Patched(reftab, reftabidx, EntryOffsets(entries, dataidx, reftabidx, reflen));
      assert entries[0..] == entries;
      while i < |entries|
        invariant 0 <= i <= |entries| && WellTypedEntries(entries[i..])
        invariant EntriesLeft(D, T, end, data, keyidx, valueidx, dataidx, reftab, reftabidx, entries[i..], reflen)
      {
        keyidx, valueidx := SerializeRow(entries, i, keyidx, valueidx, reflen, D, T, end);
        i := i + 1;
      }
      assert entries[i..] == [];
      EntriesLeftNone(D, T, end, data, keyidx, valueidx, dataidx, reftab, reftabidx, reflen);
    }

    /** One entry and the references to its key and value. */
    method SerializeRow(entries: seq<Entry>, i: nat, keyidx: nat, valueidx: nat, reflen: nat,
                        ghost D: seq<Byte>, ghost T: seq<int>, ghost end: End)
      returns (keyidx': nat, valueidx': nat)
      requires reflen > 0 && i < |entries| && WellTypedEntries(entries[i..])
      requires EntriesLeft(D, T, end, data, keyidx, valueidx, dataidx, reftab, reftabidx, entries[i..], reflen)
      modifies this
      ensures WellTypedEntries(entries[i + 1..])
      ensures EntriesLeft(D, T, end, data, keyidx', valueidx', dataidx, reftab, reftabidx, entries[i + 1..], reflen)
      decreases entries, 2
    {
      EntriesLeftStep(D, T, end, data, keyidx, valueidx, dataidx, reftab, reftabidx, entries[i..], reflen);
      assert entries[i..][0] == entries[i] && entries[i..][1..] == entries[i + 1..];
      var keyid, valueid := SerializeEntry(entries[i], reflen);
      keyidx' := PutInteger(keyidx, reflen, keyid);
      valueidx' := PutInteger(valueidx, reflen, valueid);
    }

    /** The key and the value of one entry. */
    method SerializeEntry(e: Entry, reflen: nat) returns (keyid: nat, valueid: nat)
      requires reflen > 0 && WellTyped(e.value) && HasRoom(|EncodedEntry(e, reftabidx, reflen)|, 1 + Objects(e.value))
      modifies this
      ensures keyid == old(reftabidx) && valueid == keyid + 1
      ensures Added(EncodedEntry(e, keyid, reflen), EntryOffset(e, old(dataidx), keyid, reflen))
      decreases e, 2
    {
      ghost var here: seq<int> := [dataidx];
      keyid := SerializeString(e.key);
      valueid := SerializeObject(e.value, reflen);
      PatchAppend(old(data), old(dataidx), StringBytes(e.key), Encoded(e.value, valueid, reflen));
      PatchAppend(old(reftab), keyid, here, Offsets(e.value, old(dataidx) + |StringBytes(e.key)|, valueid, reflen));
    }
  }

  function ArrayBytes(items: seq<Tree>, id: nat, reflen: nat): seq<Byte>
    requires reflen > 0
  {
    Header(0xA0, |items|) + ItemRefs(items, id, reflen) + EncodedItems(items, id, reflen)
  }

  function DictBytes(entries: seq<Entry>, id: nat, reflen: nat): seq<Byte>
    requires reflen > 0
  {
    Header(0xD0, |entries|) + KeyRefs(entries, id, reflen) + ValueRefs(entries, id, reflen)
        + EncodedEntries(entries, id, reflen)
  }

  /** Header, references and bodies make up the array. */
  lemma ArrayWhole(s: seq<Byte>, i: nat, items: seq<Tree>, id: nat, reflen: nat)
    requires reflen > 0 && i + |ArrayBytes(items, id, reflen)| <= |s|
    ensures var head := Header(0xA0, |items|);
            Pending(Patched(s, i, head), i + |head|, ItemRefs(items, id, reflen), i + |head| + Span(|items|, reflen),
                    EncodedItems(items, id, reflen))
            == Patched(s, i, ArrayBytes(items, id, reflen))
  {
    var head, refs, body := Header(0xA0, |items|), ItemRefs(items, id, reflen), EncodedItems(items, id, reflen);
    PendingWhole(Patched(s, i, head), i + |head|, refs, body);
    PatchAppend(s, i, head, refs + body);
    assert head + (refs + body) == head + refs + body;
  }

  lemma DictWhole(s: seq<Byte>, i: nat, entries: seq<Entry>, id: nat, reflen: nat)
    requires reflen > 0 && i + |DictBytes(entries, id, reflen)| <= |s|
    ensures var head, n := Header(0xD0, |entries|), Span(|entries|, reflen);
            PendingThree(Patched(s, i, head), i + |head|, KeyRefs(entries, id, reflen), i + |head| + n,
                         ValueRefs(entries, id, reflen), i + |head| + n + n, EncodedEntries(entries, id, reflen))
            == Patched(s, i, DictBytes(entries, id, reflen))
  {
    var head, keys, values := Header(0xD0, |entries|), KeyRefs(entries, id, reflen), ValueRefs(entries, id, reflen);
    var body := EncodedEntries(entries, id, reflen);
    PendingThreeWhole(Patched(s, i, head), i + |head|, keys, values, body);
    PatchAppend(s, i, head, keys + values + body);
    assert head + (keys + values + body) == head + keys + values + body;
  }
}
