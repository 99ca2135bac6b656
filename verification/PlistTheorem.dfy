/** The round trip of property lists: exactly which trees come back from their file. */
module PlistTheorem {
  import opened Arith
  import opened Bytes
  import opened PlistFormat
  import opened PlistLayout
  import opened PlistReader
  import opened PlistRoundTrip
  import opened PlistFile

  /** Strings, keys and data below 15 bytes, arrays below 15 items, dictionaries below 8
      entries, and no null child. */
  predicate Fits(t: Tree)
    decreases t
  {
    match t
    case Null => false
    case Data(bytes) => |bytes| < 15
    case String(text) => |text| < 15
    case Array(items) => |items| < 15 && FitsItems(items)
    case Dict(entries) => |entries| < 8 && FitsEntries(entries)
    case _ => true
  }

  predicate FitsItems(items: seq<Tree>)
    decreases items
  {
    items != [] ==> Fits(items[0]) && FitsItems(items[1..])
  }

  predicate FitsEntries(entries: seq<Entry>)
    decreases entries
  {
    entries != [] ==> |entries[0].key| < 15 && Fits(entries[0].value) && FitsEntries(entries[1..])
  }

  /** Among trees with short lengths, those that fit are those whose size was counted
      exactly; for the others the count is too large by an even number. */
  lemma {:induction false} FitsIsExact(t: Tree)
    ensures Fits(t) ==> Short(t)
    ensures Short(t) ==> Slack(t) % 2 == 0 && Slack(t) <= 2 * Objects(t) && (Fits(t) <==> Slack(t) == 0)
    decreases t
  {
    match t
    case Array(items) => FitsIsExactItems(items);
    case Dict(entries) => FitsIsExactEntries(entries);
    case _ =>
  }

  lemma {:induction false} FitsIsExactItems(items: seq<Tree>)
    ensures FitsItems(items) ==> ShortItems(items)
    ensures ShortItems(items) ==> ItemSlack(items) % 2 == 0 && ItemSlack(items) <= 2 * ItemObjects(items)
    ensures ShortItems(items) ==> (FitsItems(items) <==> ItemSlack(items) == 0)
    decreases items
  {
    if items != [] {
      FitsIsExact(items[0]);
      FitsIsExactItems(items[1..]);
    }
  }

  lemma {:induction false} FitsIsExactEntries(entries: seq<Entry>)
    ensures FitsEntries(entries) ==> ShortEntries(entries)
    ensures ShortEntries(entries) ==> EntrySlack(entries) % 2 == 0 && EntrySlack(entries) <= 2 * EntryObjects(entries)
    ensures ShortEntries(entries) ==> (FitsEntries(entries) <==> EntrySlack(entries) == 0)
    decreases entries
  {
    if entries != [] {
      FitsIsExact(entries[0].value);
      FitsIsExactEntries(entries[1..]);
    }
  }

  // Whatever is read has short lengths

  lemma ShortRead(data: seq<Byte>, off: nat)
    requires off < |data| && LengthAt(data, off).Some?
    ensures LengthAt(data, off).value.0 < 15
  {
    LengthAtIs(data, off);
    if data[off] % 16 == 15 {
      LongLengthRefused(data, off);
    }
  }

  lemma DictRead(reftab: seq<int>, id: int, data: seq<Byte>, reflen: nat, fuel: nat, length: nat, start: nat)
    requires ObjectAt(reftab, id, data, reflen, fuel).Some?
    requires data[reftab[id]] - data[reftab[id]] % 16 == 0xD0 && LengthAt(data, reftab[id]) == Some((length, start))
    ensures fuel > 0
    ensures var entries := Paired(ItemsAt(reftab, start, length, data, reflen, fuel - 1),
                                  ItemsAt(reftab, start + Span(length, reflen), length, data, reflen, fuel - 1));
      entries.Some? && ObjectAt(reftab, id, data, reflen, fuel).value == Dict(entries.value)
  {
  }

  lemma {:induction false} ReadIsShort(reftab: seq<int>, id: int, data: seq<Byte>, reflen: nat, fuel: nat)
    requires ObjectAt(reftab, id, data, reflen, fuel).Some?
    ensures Short(ObjectAt(reftab, id, data, reflen, fuel).value)
    decreases fuel, 0
  {
    var off := reftab[id];
    ShortRead(data, off);
    var (length, start) := LengthAt(data, off).value;
    var kind := data[off] - data[off] % 16;
    if kind == 0xA0 {
      ItemsReadShort(reftab, start, length, data, reflen, fuel - 1);
    } else if kind == 0xD0 {
      DictRead(reftab, id, data, reflen, fuel, length, start);
      EntriesReadShort(reftab, start, start + Span(length, reflen), length, data, reflen, fuel - 1);
    } else {
      LeafReadShort(kind, length, start, data);
    }
  }

  lemma LeafReadShort(kind: nat, length: nat, start: nat, data: seq<Byte>)
    requires length < 15 && LeafAt(kind, length, start, data).Some?
    ensures Short(LeafAt(kind, length, start, data).value)
  {
    if kind == 0x50 {
      CStringNoNul(data[start..start + length]);
    }
  }

  lemma {:induction false} ItemsReadShort(reftab: seq<int>, refs: nat, n: nat, data: seq<Byte>, reflen: nat, fuel: nat)
    requires ItemsAt(reftab, refs, n, data, reflen, fuel).Some?
    ensures ShortItems(ItemsAt(reftab, refs, n, data, reflen, fuel).value)
    decreases fuel, 1, n
  {
    if n > 0 {
      var id := IntegerAt(data, refs, reflen).value;
      ReadIsShort(reftab, id, data, reflen, fuel);
      ItemsReadShort(reftab, refs + reflen, n - 1, data, reflen, fuel);
      var items := ItemsAt(reftab, refs, n, data, reflen, fuel).value;
      assert items[1..] == ItemsAt(reftab, refs + reflen, n - 1, data, reflen, fuel).value;
    }
  }

  lemma {:induction false} EntriesReadShort(reftab: seq<int>, refs: nat, later: nat, n: nat, data: seq<Byte>,
      reflen: nat, fuel: nat)
    requires n < 15
    requires Paired(ItemsAt(reftab, refs, n, data, reflen, fuel), ItemsAt(reftab, later, n, data, reflen, fuel)).Some?
    ensures Short(Dict(Paired(ItemsAt(reftab, refs, n, data, reflen, fuel),
      ItemsAt(reftab, later, n, data, reflen, fuel)).value))
    decreases fuel, 2
  {
    ItemsReadShort(reftab, refs, n, data, reflen, fuel);
    ItemsReadShort(reftab, later, n, data, reflen, fuel);
    PairsShort(ItemsAt(reftab, refs, n, data, reflen, fuel), ItemsAt(reftab, later, n, data, reflen, fuel), n);
  }

  lemma PairsShort(keys: Option<seq<Tree>>, values: Option<seq<Tree>>, n: nat)
    requires n < 15 && Paired(keys, values).Some?
    requires |keys.value| == |values.value| == n && ShortItems(keys.value) && ShortItems(values.value)
    ensures Short(Dict(Paired(keys, values).value))
  {
    ZipShort(keys.value, values.value);
  }

  lemma {:induction false} ZipShort(keys: seq<Tree>, values: seq<Tree>)
    requires |keys| == |values| && ShortItems(keys) && ShortItems(values) && Strings(keys).Some?
    ensures var es := Zip(Strings(keys).value, values); |es| == |keys| && ShortEntries(es)
    decreases keys
  {
    if keys != [] {
      ZipShort(keys[1..], values[1..]);
      var texts := Strings(keys).value;
      assert texts[1..] == Strings(keys[1..]).value;
      var es := Zip(texts, values);
      assert es[1..] == Zip(texts[1..], values[1..]);
    }
  }

  // Reading the trailer

  lemma TrailerSlices(o: nat, r: nat, n: nat, x: nat)
    requires o < 256 && r < 256
    ensures var t := Trailer(o, r, n, x);
            && t[6] == o && t[7] == r && t[8..16] == BigEndian(n, 8) && t[16..24] == BigEndian(0, 8)
                && t[24..32] == BigEndian(x, 8)
  {
    assert Radix(0) == 1;
    assert BigEndian(o, 1)[0] == o && BigEndian(r, 1)[0] == r;
  }

  lemma EightBytes(v: nat)
    requires v < 0x8000_0000_0000_0000
    ensures Signed64(Unsigned(BigEndian(v, 8))) == v
  {
    UnsignedOf(v, 8);
    Radices();
    QuotientUnique(v, Radix(8), 0, v);
  }

  ghost predicate Within(offsets: seq<int>, lo: int, hi: int) {
    forall k :: 0 <= k < |offsets| ==> lo <= offsets[k] < hi
  }

  lemma WithinAppend(a: seq<int>, b: seq<int>, lo: int, mid: int, hi: int)
    requires lo <= mid <= hi && Within(a, lo, mid) && Within(b, mid, hi)
    ensures Within(a + b, lo, hi)
  {
  }

  /** An object's own offset, and those of what lies behind its header and references. */
  lemma BelowInside(t: Tree, off: nat, id: nat, reflen: nat, front: nat, below: seq<int>, size: nat)
    requires reflen > 0 && front > 0 && |Encoded(t, id, reflen)| == front + size
    requires Offsets(t, off, id, reflen) == [off] + below && Within(below, off + front, off + front + size)
      && |below| <= size
    ensures Within(Offsets(t, off, id, reflen), off, off + |Encoded(t, id, reflen)|)
    ensures Objects(t) <= |Encoded(t, id, reflen)|
  {
    WithinAppend([off], below, off, off + front, off + front + size);
  }

  /** The offset of every object lies inside the bytes written. */
  lemma {:induction false} OffsetsInside(t: Tree, off: nat, id: nat, reflen: nat)
    requires reflen > 0
    ensures Within(Offsets(t, off, id, reflen), off, off + |Encoded(t, id, reflen)|)
    ensures Objects(t) <= |Encoded(t, id, reflen)|
    decreases t
  {
    match t
    case Array(items) =>
      var front := |Header(0xA0, |items|)| + Span(|items|, reflen);
      ItemOffsetsInside(items, off + front, id + 1, reflen);
      BelowInside(t, off, id, reflen, front, ItemOffsets(items, off + front, id + 1, reflen),
          |EncodedItems(items, id + 1, reflen)|);
    case Dict(entries) =>
      var front := |Header(0xD0, |entries|)| + Span(|entries|, reflen) + Span(|entries|, reflen);
      EntryOffsetsInside(entries, off + front, id + 1, reflen);
      BelowInside(t, off, id, reflen, front, EntryOffsets(entries, off + front, id + 1, reflen),
                  |EncodedEntries(entries, id + 1, reflen)|);
    case _ =>
  }

  lemma {:induction false} ItemOffsetsInside(items: seq<Tree>, off: nat, id: nat, reflen: nat)
    requires reflen > 0
    ensures Within(ItemOffsets(items, off, id, reflen), off, off + |EncodedItems(items, id, reflen)|)
    ensures ItemObjects(items) <= |EncodedItems(items, id, reflen)|
    decreases items
  {
    if items != [] {
      var mid, id' := off + |Encoded(items[0], id, reflen)|, id + Objects(items[0]);
      assert EncodedItems(items, id, reflen) == Encoded(items[0], id, reflen) + EncodedItems(items[1..], id', reflen);
      OffsetsInside(items[0], off, id, reflen);
      ItemOffsetsInside(items[1..], mid, id', reflen);
      WithinAppend(Offsets(items[0], off, id, reflen), ItemOffsets(items[1..], mid, id', reflen),
                   off, mid, mid + |EncodedItems(items[1..], id', reflen)|);
    }
  }

  lemma {:induction false} EntryOffsetsInside(entries: seq<Entry>, off: nat, id: nat, reflen: nat)
    requires reflen > 0
    ensures Within(EntryOffsets(entries, off, id, reflen), off, off + |EncodedEntries(entries, id, reflen)|)
    ensures EntryObjects(entries) <= |EncodedEntries(entries, id, reflen)|
    decreases entries, 1
  {
    if entries != [] {
      var e, mid, id' := entries[0], off + |EncodedEntry(entries[0], id, reflen)|, id + 1 + Objects(entries[0].value);
      OneEntryInside(e, off, id, reflen);
      EntryOffsetsInside(entries[1..], mid, id', reflen);
      WithinAppend(EntryOffset(e, off, id, reflen), EntryOffsets(entries[1..], mid, id', reflen),
                   off, mid, mid + |EncodedEntries(entries[1..], id', reflen)|);
    }
  }

  lemma {:induction false} OneEntryInside(e: Entry, off: nat, id: nat, reflen: nat)
    requires reflen > 0
    ensures Within(EntryOffset(e, off, id, reflen), off, off + |EncodedEntry(e, id, reflen)|)
    ensures 1 + Objects(e.value) <= |EncodedEntry(e, id, reflen)|
    decreases e, 0
  {
    var valueOff := off + |StringBytes(e.key)|;
    OffsetsInside(e.value, valueOff, id + 1, reflen);
    WithinAppend([off], Offsets(e.value, valueOff, id + 1, reflen), off, valueOff, off + |EncodedEntry(e, id, reflen)|);
  }

  /** The offset table is read back. */
  lemma {:induction false} TableRead(offsets: seq<int>, data: seq<Byte>, off: nat, offlen: nat, bound: nat)
    requires Within(offsets, 0, bound) && Numbers(offlen, bound)
    requires off + |offsets| * offlen <= |data| && Lies(data, off, Table(offsets, offlen))
    ensures ReferenceTable(data, off, offlen, |offsets|) == offsets
    decreases offsets
  {
    if offsets != [] {
      MulDist(offlen, |offsets| - 1, 1);
      LiesSplit(data, off, BigEndian(offsets[0], offlen), Table(offsets[1..], offlen));
      NumberRead(data, off, offlen, offsets[0]);
      TableRead(offsets[1..], data, off + offlen, offlen, bound);
      assert offsets == [offsets[0]] + offsets[1..];
    }
  }

  /** References of the chosen width can number all objects. */
  lemma ReferencesSuffice(t: Tree)
    requires Refs(t) < 0x1_0000_0000
    ensures Numbers(RefLength(t), Objects(t))
  {
    OneReferenceEach(t);
    Radices();
  }

  lemma OffsetsSuffice(t: Tree)
    requires BodySize(t) < 0x1_0000_0000
    ensures Numbers(OffsetLength(t), BodySize(t))
  {
    Radices();
  }

  /** How a file with an exact size lies in memory. */
  lemma FileLaid(t: Tree)
    requires WellTyped(t) && Slack(t) == 0
    ensures var f, reflen := File(t), RefLength(t);
            && Lies(f, 8, Encoded(t, 0, reflen)) && Lies(f, TableOffset(t), Table(Offsets(t, 8, 0, reflen), OffsetLength(t)))
            && f[|f| - TrailerLength..] == Trailer(OffsetLength(t), reflen, Objects(t), TableOffset(t))
  {
    FileIs(t);
    FourParts(Magic, Encoded(t, 0, RefLength(t)), Table(Offsets(t, 8, 0, RefLength(t)), OffsetLength(t)),
              Trailer(OffsetLength(t), RefLength(t), Objects(t), TableOffset(t)));
  }

  lemma FileIs(t: Tree)
    requires Slack(t) == 0
    ensures File(t) == Magic + Encoded(t, 0, RefLength(t)) + Table(Offsets(t, 8, 0, RefLength(t)), OffsetLength(t))
                       + Trailer(OffsetLength(t), RefLength(t), Objects(t), TableOffset(t))
  {
  }

  lemma FourParts(a: seq<Byte>, b: seq<Byte>, c: seq<Byte>, d: seq<Byte>)
    ensures var f := a + b + c + d;
      Lies(f, |a|, b) && Lies(f, |a| + |b|, c) && f[|f| - |d|..] == d
  {
    var f := a + b + c + d;
    LiesIs(f, |a|, b);
    LiesIs(f, |a| + |b|, c);
  }

  /** The sizes stay below 2^32. */
  lemma SizesSmall(t: Tree)
    requires WellTyped(t) && FileSize(t) < 0x1_0000_0000
    ensures Objects(t) < 0x1_0000_0000 && Refs(t) < 0x1_0000_0000 && BodySize(t) < 0x1_0000_0000
    ensures TableOffset(t) + Objects(t) * OffsetLength(t) + TrailerLength + Slack(t) == FileSize(t)
    ensures TableOffset(t) + Slack(t) == BodySize(t) && |File(t)| == FileSize(t)
  {
    FileLength(t);
    OneReferenceEach(t);
    SpanIs(Objects(t), OffsetLength(t));
    SpanAtLeast(Objects(t), OffsetLength(t));
  }

  /** The offset table of a file, as the reader rebuilds it. */
  lemma TableComesBack(t: Tree)
    requires WellTyped(t) && FileSize(t) < 0x1_0000_0000 && Slack(t) == 0
    ensures TableOffset(t) + Objects(t) * OffsetLength(t) <= |File(t)|
    ensures ReferenceTable(File(t), TableOffset(t), OffsetLength(t), Objects(t)) == Offsets(t, 8, 0, RefLength(t))
  {
    SizesSmall(t);
    FileLaid(t);
    OffsetsInside(t, 8, 0, RefLength(t));
    OffsetsSuffice(t);
    TableRead(Offsets(t, 8, 0, RefLength(t)), File(t), TableOffset(t), OffsetLength(t), BodySize(t));
  }

  lemma RootComesBack(t: Tree)
    requires WellTyped(t) && FileSize(t) < 0x1_0000_0000 && Short(t) && Slack(t) == 0
    ensures ObjectAt(Offsets(t, 8, 0, RefLength(t)), 0, File(t), RefLength(t), Objects(t)) == Some(t)
  {
    var offsets := Offsets(t, 8, 0, RefLength(t));
    SizesSmall(t);
    FileLaid(t);
    ReferencesSuffice(t);
    LiesIs(offsets, 0, offsets);
    ObjectRead(t, 0, 8, offsets, File(t), RefLength(t), Objects(t));
    ReadsIs(offsets, 0, File(t), RefLength(t), Objects(t), t);
  }

  /** A tree that fits is read back from its file. */
  lemma FittingComesBack(t: Tree)
    requires WellTyped(t) && FileSize(t) < 0x1_0000_0000 && Short(t) && Slack(t) == 0
    ensures FromBplist(File(t)) == Some(t)
  {
    SizesSmall(t);
    FileLaid(t);
    TableComesBack(t);
    RootComesBack(t);
    FileReads(File(t), OffsetLength(t), RefLength(t), Objects(t), TableOffset(t), Offsets(t, 8, 0, RefLength(t)), t);
  }

  /** The reader on a file whose trailer holds the given numbers. */
  lemma FileReads(f: seq<Byte>, offlen: nat, reflen: nat, objects: nat, off: nat, reftab: seq<int>, t: Tree)
    requires |f| >= TrailerLength && f[|f| - TrailerLength..] == Trailer(offlen, reflen, objects, off)
    requires offlen < 256 && reflen < 256 && 1 <= objects < 0x8000_0000_0000_0000 && 8 <= off < 0x8000_0000_0000_0000
    requires off + objects * offlen <= |f| && ReferenceTable(f, off, offlen, objects) == reftab
    requires ObjectAt(reftab, 0, f, reflen, objects) == Some(t)
    ensures FromBplist(f) == Some(t)
  {
    TrailerNumbers(f, offlen, reflen, objects, off);
  }

  lemma SpanAtLeast(n: nat, width: nat)
    requires width > 0
    ensures Span(n, width) >= n
  {
    SpanIs(n, width);
    MulMonotone(1, width, n);
  }

  lemma TrailerNumbers(f: seq<Byte>, offlen: nat, reflen: nat, objects: nat, off: nat)
    requires |f| >= TrailerLength && f[|f| - TrailerLength..] == Trailer(offlen, reflen, objects, off)
    requires offlen < 256 && reflen < 256 && objects < 0x8000_0000_0000_0000 && off < 0x8000_0000_0000_0000
    ensures var at := |f| - TrailerLength; f[at + 6] == offlen && f[at + 7] == reflen
    ensures TrailerNumber(f, 8) == objects && TrailerNumber(f, 16) == 0 && TrailerNumber(f, 24) == off
  {
    var at, t := |f| - TrailerLength, Trailer(offlen, reflen, objects, off);
    TrailerSlices(offlen, reflen, objects, off);
    assert f[at..][6] == f[at + 6] && f[at..][7] == f[at + 7];
    assert f[at + 8..at + 16] == t[8..16] && f[at + 16..at + 24] == t[16..24] && f[at + 24..at + 32] == t[24..32];
    EightBytes(objects);
    EightBytes(0);
    EightBytes(off);
  }

  // A file whose size was overestimated

  lemma {:induction false} UnsignedAppend(a: seq<Byte>, b: seq<Byte>)
    ensures Unsigned(a + b) == Unsigned(a) * Radix(|b|) + Unsigned(b)
  {
    if a == [] {
      assert a + b == b;
    } else {
      UnsignedAppend(a[1..], b);
      assert (a + b)[0] == a[0] && (a + b)[1..] == a[1..] + b;
      RadixAdd(|a| - 1, |b|);
      AppendArith(a[0], Radix(|a| - 1), Unsigned(a[1..]), Radix(|b|), Unsigned(b));
    }
  }

  lemma AppendArith(d: int, p: int, low: int, q: int, rest: int)
    ensures d * (p * q) + (low * q + rest) == (d * p + low) * q + rest
  {
    MulAssoc(d, p, q);
  }

  lemma {:induction false} RadixAdd(m: nat, n: nat)
    ensures Radix(m + n) == Radix(m) * Radix(n)
  {
    if m > 0 {
      RadixAdd(m - 1, n);
      MulAssoc(256, Radix(m - 1), Radix(n));
    }
  }

  lemma {:induction false} UnsignedZeros(n: nat)
    ensures Unsigned(Zeros(n)) == 0
  {
    if n > 0 {
      ZerosDrop(n, 1);
      UnsignedZeros(n - 1);
    }
  }

  lemma {:induction false} BigEndianDrop(v: int, n: nat, s: nat)
    requires s <= n
    ensures BigEndian(v, n)[s..] == BigEndian(v, n - s)
  {
    if s > 0 {
      BigEndianCons(v, n);
      BigEndianDrop(v, n - 1, s - 1);
      assert BigEndian(v, n)[s..] == BigEndian(v, n)[1..][s - 1..];
    }
  }

  /** Read s bytes too far, the last number of the trailer is empty or shifted. */
  lemma ShiftedOffset(front: seq<Byte>, o: nat, r: nat, n: nat, x: nat, s: nat)
    requires o < 256 && r < 256
    ensures var f := front + Trailer(o, r, n, x) + Zeros(s);
            var v := Unsigned(f[|f| - 8..]);
            if s >= 8 then v == 0 else v == (x % Radix(8 - s)) * Radix(s)
  {
    var trailer := Trailer(o, r, n, x);
    var f := front + trailer + Zeros(s);
    TrailerSlices(o, r, n, x);
    if s >= 8 {
      ZerosDrop(s, s - 8);
      assert f[|f| - 8..] == Zeros(s)[s - 8..];
      UnsignedZeros(8);
    } else {
      var head := BigEndian(x, 8)[s..];
      assert f[|f| - 8..] == head + Zeros(s) by {
        assert trailer[24..32] == BigEndian(x, 8);
        assert f[|f| - 8..] == trailer[24 + s..32] + Zeros(s);
        assert trailer[24 + s..32] == trailer[24..32][s..];
      }
      BigEndianDrop(x, 8, s);
      UnsignedOf(x, 8 - s);
      UnsignedAppend(head, Zeros(s));
      UnsignedZeros(s);
    }
  }

  /** No such offset passes the reader's check. */
  lemma ShiftedRefused(x: nat, size: nat, s: nat, v: int)
    requires s >= 2 && s % 2 == 0 && 1 <= x < size < 0x1_0000_0000 && size < 0x1_0000 * x
    requires if s >= 8 then v == 0 else v == (x % Radix(8 - s)) * Radix(s)
    ensures Signed64(v) < 8 || Signed64(v) > size
  {
    Radices();
    assert Radix(6) == 256 * Radix(5) && Radix(5) == 256 * Radix(4);
    if s == 2 || s == 4 {
      QuotientUnique(x, Radix(8 - s), 0, x);
    }
  }

  lemma LastNumberRefused(f: seq<Byte>, v: int)
    requires |f| >= TrailerLength && f[|f| - 8..] == f[|f| - 8..|f|] && v == Unsigned(f[|f| - 8..])
    requires Signed64(v) < 8 || Signed64(v) > |f|
    ensures !TrailerAccepted(f)
  {
    assert TrailerNumber(f, 24) == Signed64(v);
    var objects, offlen := TrailerNumber(f, 8), f[|f| - TrailerLength + 6];
    if objects > 0 {
      MulMonotone(0, objects, offlen);
    }
  }

  /** If the size was overestimated by an even number, the file is refused. */
  lemma OverestimateRefused(t: Tree)
    requires WellTyped(t) && FileSize(t) < 0x1_0000_0000
    requires 2 <= Slack(t) <= 2 * Objects(t) && Slack(t) % 2 == 0
    ensures !TrailerAccepted(File(t))
  {
    var f, x, n, o, s := File(t), TableOffset(t), Objects(t), OffsetLength(t), Slack(t);
    OverestimateSizes(t);
    ShiftedOffset(Front(t), o, RefLength(t), n, x, s);
    RefusedBy(f, x, n, n * o, s, Unsigned(f[|f| - 8..]));
  }

  lemma OverestimateSizes(t: Tree)
    requires WellTyped(t) && FileSize(t) < 0x1_0000_0000
    ensures var x, n, o := TableOffset(t), Objects(t), OffsetLength(t);
      && |File(t)| == x + n * o + TrailerLength + Slack(t) && n * o <= n * 8 && 1 <= n < x
      && o < 256 && RefLength(t) < 256 && |File(t)| < 0x1_0000_0000
  {
    SizesSmall(t);
    OffsetsInside(t, 8, 0, RefLength(t));
    MulMonotone(OffsetLength(t), 8, Objects(t));
  }

  lemma RefusedBy(f: seq<Byte>, x: nat, objects: nat, table: nat, s: nat, v: int)
    requires |f| == x + table + TrailerLength + s < 0x1_0000_0000 && table <= objects * 8 && 1 <= objects < x
    requires 2 <= s <= 2 * objects && s % 2 == 0 && v == Unsigned(f[|f| - 8..])
    requires if s >= 8 then v == 0 else v == (x % Radix(8 - s)) * Radix(s)
    ensures !TrailerAccepted(f)
  {
    ShiftedRefused(x, |f|, s, v);
    LastNumberRefused(f, v);
  }

  // The definition is kept folded, as in the reader's round trip.

  ghost predicate ReadsAs(f: seq<Byte>, t: Tree, fold: nat := 3) {
    if fold == 0 then FromBplist(f) == Some(t) else ReadsAs(f, t, fold - 1)
  }

  lemma {:induction false} ReadsAsIs(f: seq<Byte>, t: Tree, fold: nat := 3)
    ensures ReadsAs(f, t, fold) <==> FromBplist(f) == Some(t)
  {
    if fold > 0 {
      ReadsAsIs(f, t, fold - 1);
    }
  }

  lemma ReadsAsShort(f: seq<Byte>, t: Tree)
    requires ReadsAs(f, t)
    ensures Short(t) && TrailerAccepted(f)
  {
    ReadsAsIs(f, t);
    var offlen, objects := f[|f| - TrailerLength + 6], TrailerNumber(f, 8);
    ReadIsShort(ReferenceTable(f, TrailerNumber(f, 24), offlen, objects), TrailerNumber(f, 16), f,
        f[|f| - TrailerLength + 7], objects);
  }

  lemma FittingReads(t: Tree)
    requires WellTyped(t) && FileSize(t) < 0x1_0000_0000 && Short(t) && Slack(t) == 0
    ensures ReadsAs(File(t), t)
  {
    FittingComesBack(t);
    ReadsAsIs(File(t), t);
  }

  lemma ReadsExactly(t: Tree)
    requires WellTyped(t) && FileSize(t) < 0x1_0000_0000
    ensures ReadsAs(File(t), t) <==> Fits(t)
  {
    FitsIsExact(t);
    if Fits(t) {
      FittingReads(t);
    } else if ReadsAs(File(t), t) {
      ReadsAsShort(File(t), t);
      OverestimateRefused(t);
    }
  }

  /** The round trip, for every tree whose file length fits 32 bits: it comes back from
      its own file exactly when it fits. */
  lemma RoundTrip(t: Tree)
    requires WellTyped(t) && FileSize(t) < 0x1_0000_0000
    ensures FromBplist(File(t)) == Some(t) <==> Fits(t)
  {
    ReadsExactly(t);
    ReadsAsIs(File(t), t);
  }
}
