/** What the reader makes of the writer's bytes. */
module PlistRoundTrip {
  import opened Arith
  import opened Bytes
  import opened PlistFormat
  import opened PlistReader

  // Some definitions below take a number `fold` that keeps them folded, so that the
  // solver treats them as facts until a lemma opens them.

  /** The part of s from i on begins with a. */
  ghost predicate Lies<T>(s: seq<T>, i: nat, a: seq<T>, fold: nat := 3) {
    if fold == 0 then i + |a| <= |s| && s[i..i + |a|] == a else Lies(s, i, a, fold - 1)
  }

  lemma {:induction false} LiesIs<T>(s: seq<T>, i: nat, a: seq<T>, fold: nat := 3)
    ensures Lies(s, i, a, fold) <==> i + |a| <= |s| && s[i..i + |a|] == a
  {
    if fold > 0 {
      LiesIs(s, i, a, fold - 1);
    }
  }

  lemma LiesSplit<T>(s: seq<T>, i: nat, a: seq<T>, b: seq<T>)
    requires Lies(s, i, a + b)
    ensures Lies(s, i, a) && Lies(s, i + |a|, b) && i + |a| + |b| <= |s|
  {
    var ab := a + b;
    LiesIs(s, i, ab);
    LiesIs(s, i, a);
    LiesIs(s, i + |a|, b);
    assert s[i..i + |a|] == ab[..|a|];
    assert s[i + |a|..i + |ab|] == ab[|a|..];
  }

  lemma LiesHead<T>(s: seq<T>, i: nat, a: seq<T>)
    requires Lies(s, i, a) && |a| > 0
    ensures i + |a| <= |s| && s[i] == a[0]
  {
    LiesIs(s, i, a);
    assert s[i..i + |a|][0] == s[i];
  }

  lemma LiesSlice<T>(s: seq<T>, i: nat, a: seq<T>)
    requires Lies(s, i, a)
    ensures i + |a| <= |s| && s[i..i + |a|] == a
  {
    LiesIs(s, i, a);
  }

  /** The reader refuses every length of 15 or more: after the shift nothing is left
      under the mask. */
  lemma {:induction false} ShiftedOut(n: nat)
    requires n >= 4
    ensures Pow2(n) % 16 == 0
  {
    if n == 4 {
      assert Pow2(1) == 2 && Pow2(2) == 4 && Pow2(3) == 8 && Pow2(4) == 16;
    } else {
      ShiftedOut(n - 1);
    }
  }

  lemma LongLengthRefused(data: seq<Byte>, off: nat)
    requires off < |data| && data[off] % 16 == 15
    ensures LengthAt(data, off).None?
  {
    LengthAtIs(data, off);
    if off + 1 < |data| && data[off + 1] >= 4 {
      ShiftedOut(data[off + 1]);
    }
  }

  lemma ShortLength(data: seq<Byte>, off: nat, kind: nat, length: nat)
    requires length < 15 && kind % 16 == 0 && kind <= 0xF0 && Lies(data, off, Header(kind, length))
    ensures off < |data| && data[off] == kind + length && data[off] - data[off] % 16 == kind
    ensures LengthAt(data, off) == Some((length, off + 1))
  {
    LiesHead(data, off, Header(kind, length));
    LengthAtIs(data, off);
  }

  /** Every length fits the low nibble, and there is no null child. */
  predicate Short(t: Tree)
    decreases t
  {
    match t
    case Null => false
    case Data(bytes) => |bytes| < 15
    case String(text) => |text| < 15
    case Array(items) => |items| < 15 && ShortItems(items)
    case Dict(entries) => |entries| < 15 && ShortEntries(entries)
    case _ => true
  }

  predicate ShortItems(items: seq<Tree>)
    decreases items
  {
    items != [] ==> Short(items[0]) && ShortItems(items[1..])
  }

  predicate ShortEntries(entries: seq<Entry>)
    decreases entries
  {
    entries != [] ==> |entries[0].key| < 15 && Short(entries[0].value) && ShortEntries(entries[1..])
  }

  /** References of this width can number n objects. */
  predicate Numbers(reflen: nat, n: nat) {
    || ((reflen == 1 || reflen == 2 || reflen == 4) && n <= Radix(reflen))
    || (reflen == 8 && n <= 0x8000_0000_0000_0000)
  }

  lemma NumberRead(data: seq<Byte>, off: nat, width: nat, v: nat)
    requires Numbers(width, v + 1) && Lies(data, off, BigEndian(v, width))
    ensures off + width <= |data|
    ensures IntegerAt(data, off, width) == Some(v)
  {
    LiesSlice(data, off, BigEndian(v, width));
    UnsignedOf(v, width);
    Radices();
    QuotientUnique(v, Radix(width), 0, v);
  }

  lemma IntegerRead(data: seq<Byte>, off: nat, v: int)
    requires -0x8000_0000_0000_0000 <= v < 0x8000_0000_0000_0000
    requires Lies(data, off, BigEndian(v, IntegerLength(v)))
    ensures off + IntegerLength(v) <= |data|
    ensures IntegerAt(data, off, IntegerLength(v)) == Some(v)
    ensures Pow2(LengthCode(v)) == IntegerLength(v)
  {
    var n := IntegerLength(v);
    LiesSlice(data, off, BigEndian(v, n));
    UnsignedOf(v, n);
    Radices();
    assert Pow2(0) == 1 && Pow2(1) == 2 && Pow2(2) == 4 && Pow2(3) == 8;
    if v >= 0 {
      QuotientUnique(v, Radix(n), 0, v);
    } else {
      QuotientUnique(v, Radix(8), -1, v + Radix(8));
    }
  }

  ghost predicate LeafReads(t: Tree, data: seq<Byte>, off: nat) {
    && off < |data| && LengthAt(data, off).Some?
    && var (kind, (length, start)) := (data[off] - data[off] % 16, LengthAt(data, off).value);
       kind != 0xA0 && kind != 0xD0 && LeafAt(kind, length, start, data) == Some(t)
  }

  lemma IntegerLeaf(n: int, data: seq<Byte>, off: nat, head: seq<Byte>)
    requires WellTyped(Integer(n)) && head == [0x10 + LengthCode(n)]
    requires Lies(data, off, head + BigEndian(n, IntegerLength(n)))
    ensures LeafReads(Integer(n), data, off)
  {
    LiesSplit(data, off, head, BigEndian(n, IntegerLength(n)));
    LiesHead(data, off, head);
    LengthAtIs(data, off);
    IntegerRead(data, off + 1, n);
  }

  lemma RealLeaf(bits: seq<Byte>, data: seq<Byte>, off: nat, head: seq<Byte>)
    requires |bits| == 8 && head == [0x23] && Lies(data, off, head + bits)
    ensures LeafReads(Real(bits), data, off)
  {
    LiesSplit(data, off, head, bits);
    LiesHead(data, off, head);
    LengthAtIs(data, off);
    LiesSlice(data, off + 1, bits);
    assert Pow2(1) == 2 && Pow2(2) == 4 && Pow2(3) == 8;
  }

  lemma DataLeaf(bytes: seq<Byte>, data: seq<Byte>, off: nat)
    requires |bytes| < 15 && Lies(data, off, Header(0x40, |bytes|) + bytes)
    ensures LeafReads(Data(bytes), data, off)
  {
    LiesSplit(data, off, Header(0x40, |bytes|), bytes);
    LiesSlice(data, off + 1, bytes);
    ShortLength(data, off, 0x40, |bytes|);
  }

  lemma StringLeaf(text: seq<Byte>, data: seq<Byte>, off: nat)
    requires |text| < 15 && NoNul(text) && Lies(data, off, StringBytes(text))
    ensures LeafReads(String(text), data, off)
  {
    LiesSplit(data, off, Header(0x50, |text|), text);
    LiesSlice(data, off + 1, text);
    ShortLength(data, off, 0x50, |text|);
    CStringOf(text);
  }

  /** Leaves come back. */
  lemma LeafRead(t: Tree, data: seq<Byte>, off: nat, id: nat, reflen: nat)
    requires WellTyped(t) && Short(t) && !t.Array? && !t.Dict? && reflen > 0
    requires Lies(data, off, Encoded(t, id, reflen))
    ensures LeafReads(t, data, off)
  {
    var b := Encoded(t, id, reflen);
    match t
    case Primitive(v) =>
      LiesHead(data, off, b);
      LengthAtIs(data, off);
    case Integer(n) => IntegerLeaf(n, data, off, b[..1]) by { assert b[..1] + BigEndian(n, IntegerLength(n)) == b; }
    case Real(bits) => RealLeaf(bits, data, off, b[..1]) by { assert b[..1] + bits == b; }
    case Data(bytes) => DataLeaf(bytes, data, off);
    case String(text) => StringLeaf(text, data, off);
  }

  /** The object numbered id lies in the buffer and in the offset table. */
  ghost predicate Written(t: Tree, id: nat, off: nat, reftab: seq<int>, data: seq<Byte>, reflen: nat)
    requires reflen > 0
  {
    && WellTyped(t) && Short(t) && Numbers(reflen, |reftab|)
    && Lies(reftab, id, Offsets(t, off, id, reflen)) && Lies(data, off, Encoded(t, id, reflen))
  }

  ghost predicate ItemsWritten(items: seq<Tree>, id: nat, off: nat, reftab: seq<int>, data: seq<Byte>, reflen: nat)
    requires reflen > 0
  {
    && WellTypedItems(items) && ShortItems(items) && Numbers(reflen, |reftab|)
    && Lies(reftab, id, ItemOffsets(items, off, id, reflen)) && Lies(data, off, EncodedItems(items, id, reflen))
  }

  ghost predicate EntriesWritten(entries: seq<Entry>, id: nat, off: nat, reftab: seq<int>, data: seq<Byte>, reflen: nat)
    requires reflen > 0
  {
    && WellTypedEntries(entries) && ShortEntries(entries) && Numbers(reflen, |reftab|)
    && Lies(reftab, id, EntryOffsets(entries, off, id, reflen)) && Lies(data, off, EncodedEntries(entries, id, reflen))
  }

  lemma FirstItem(items: seq<Tree>, id: nat, off: nat, reftab: seq<int>, data: seq<Byte>, reflen: nat)
    requires reflen > 0 && items != [] && ItemsWritten(items, id, off, reftab, data, reflen)
    ensures Written(items[0], id, off, reftab, data, reflen)
    ensures ItemsWritten(items[1..], id + Objects(items[0]), off + |Encoded(items[0], id, reflen)|, reftab, data, reflen)
  {
    var first := Encoded(items[0], id, reflen);
    LiesSplit(data, off, first, EncodedItems(items[1..], id + Objects(items[0]), reflen));
    LiesSplit(reftab, id, Offsets(items[0], off, id, reflen),
              ItemOffsets(items[1..], off + |first|, id + Objects(items[0]), reflen));
  }

  lemma EntryBytes(entries: seq<Entry>, id: nat, off: nat, data: seq<Byte>, reflen: nat)
    requires reflen > 0 && entries != [] && Lies(data, off, EncodedEntries(entries, id, reflen))
    ensures var e := entries[0]; var valueOff := off + |StringBytes(e.key)|;
            && Lies(data, off, StringBytes(e.key)) && Lies(data, valueOff, Encoded(e.value, id + 1, reflen))
            && Lies(data, valueOff + |Encoded(e.value, id + 1, reflen)|,
                    EncodedEntries(entries[1..], id + 1 + Objects(e.value), reflen))
  {
    var e := entries[0];
    LiesSplit(data, off, EncodedEntry(e, id, reflen), EncodedEntries(entries[1..], id + 1 + Objects(e.value), reflen));
    LiesSplit(data, off, StringBytes(e.key), Encoded(e.value, id + 1, reflen));
  }

  lemma EntryTable(entries: seq<Entry>, id: nat, off: nat, reftab: seq<int>, reflen: nat)
    requires reflen > 0 && entries != [] && Lies(reftab, id, EntryOffsets(entries, off, id, reflen))
    ensures var e := entries[0]; var valueOff := off + |StringBytes(e.key)|;
            && Lies(reftab, id, [off]) && Lies(reftab, id + 1, Offsets(e.value, valueOff, id + 1, reflen))
            && Lies(reftab, id + 1 + Objects(e.value),
                    EntryOffsets(entries[1..], valueOff + |Encoded(e.value, id + 1, reflen)|, id + 1
                        + Objects(e.value), reflen))
  {
    var e := entries[0];
    var off' := off + |EncodedEntry(e, id, reflen)|;
    assert off' == off + |StringBytes(e.key)| + |Encoded(e.value, id + 1, reflen)|;
    LiesSplit(reftab, id, EntryOffset(e, off, id, reflen), EntryOffsets(entries[1..], off', id + 1 + Objects(e.value),
        reflen));
    var key: seq<int> := [off];
    LiesSplit(reftab, id, key, Offsets(e.value, off + |StringBytes(e.key)|, id + 1, reflen));
  }

  lemma FirstEntry(entries: seq<Entry>, id: nat, off: nat, reftab: seq<int>, data: seq<Byte>, reflen: nat)
    requires reflen > 0 && entries != [] && EntriesWritten(entries, id, off, reftab, data, reflen)
    ensures var e := entries[0]; var valueOff := off + |StringBytes(e.key)|; var id' := id + 1 + Objects(e.value);
            && Written(String(e.key), id, off, reftab, data, reflen)
            && Written(e.value, id + 1, valueOff, reftab, data, reflen)
            && EntriesWritten(entries[1..], id', valueOff + |Encoded(e.value, id + 1, reflen)|, reftab, data, reflen)
  {
    EntryBytes(entries, id, off, data, reflen);
    EntryTable(entries, id, off, reftab, reflen);
    assert Encoded(String(entries[0].key), id, reflen) == StringBytes(entries[0].key);
    assert Offsets(String(entries[0].key), off, id, reflen) == [off];
  }

  // What the reader does, one step at a time

  ghost predicate Reads(reftab: seq<int>, id: int, data: seq<Byte>, reflen: nat, fuel: nat, t: Tree, fold: nat := 3) {
    if fold == 0 then ObjectAt(reftab, id, data, reflen, fuel) == Some(t) else Reads(reftab, id, data, reflen, fuel,
        t, fold - 1)
  }

  lemma {:induction false} ReadsIs(reftab: seq<int>, id: int, data: seq<Byte>, reflen: nat, fuel: nat, t: Tree,
      fold: nat := 3)
    ensures Reads(reftab, id, data, reflen, fuel, t, fold) <==> ObjectAt(reftab, id, data, reflen, fuel) == Some(t)
  {
    if fold > 0 {
      ReadsIs(reftab, id, data, reflen, fuel, t, fold - 1);
    }
  }

  ghost predicate ReadsAll(reftab: seq<int>, refs: nat, data: seq<Byte>, reflen: nat, fuel: nat, items: seq<Tree>,
      fold: nat := 3) {
    if fold == 0 then ItemsAt(reftab, refs, |items|, data, reflen, fuel) == Some(items)
    else ReadsAll(reftab, refs, data, reflen, fuel, items, fold - 1)
  }

  lemma {:induction false} ReadsAllIs(reftab: seq<int>, refs: nat, data: seq<Byte>, reflen: nat, fuel: nat, items: seq<Tree>,
                                      fold: nat := 3)
    ensures ReadsAll(reftab, refs, data, reflen, fuel, items, fold) <==>
            ItemsAt(reftab, refs, |items|, data, reflen, fuel) == Some(items)
  {
    if fold > 0 {
      ReadsAllIs(reftab, refs, data, reflen, fuel, items, fold - 1);
    }
  }

  lemma ItemsNone(reftab: seq<int>, refs: nat, data: seq<Byte>, reflen: nat, fuel: nat)
    ensures ReadsAll(reftab, refs, data, reflen, fuel, [])
  {
    ReadsAllIs(reftab, refs, data, reflen, fuel, []);
  }

  lemma ItemsStep(reftab: seq<int>, refs: nat, data: seq<Byte>, reflen: nat, fuel: nat, id: int, x: Tree,
      xs: seq<Tree>, items: seq<Tree>)
    requires items == [x] + xs
    requires 0 <= id < |reftab| && Numbers(reflen, |reftab|) && Lies(data, refs, BigEndian(id, reflen))
    requires Reads(reftab, id, data, reflen, fuel, x) && ReadsAll(reftab, refs + reflen, data, reflen, fuel, xs)
    ensures ReadsAll(reftab, refs, data, reflen, fuel, items)
  {
    NumberRead(data, refs, reflen, id);
    ReadsIs(reftab, id, data, reflen, fuel, x);
    ReadsAllIs(reftab, refs + reflen, data, reflen, fuel, xs);
    ReadsAllIs(reftab, refs, data, reflen, fuel, items);
  }

  /** Object id starts at off with a type byte and a short length. */
  ghost predicate Starts(reftab: seq<int>, id: nat, data: seq<Byte>, kind: nat, length: nat, off: nat, fold: nat := 3) {
    if fold == 0 then
      && id < |reftab| && reftab[id] == off < |data|
      && data[off] - data[off] % 16 == kind && LengthAt(data, off) == Some((length, off + 1))
    else Starts(reftab, id, data, kind, length, off, fold - 1)
  }

  lemma {:induction false} StartsIs(reftab: seq<int>, id: nat, data: seq<Byte>, kind: nat, length: nat, off: nat,
      fold: nat := 3)
    ensures Starts(reftab, id, data, kind, length, off, fold) <==>
              && id < |reftab| && reftab[id] == off < |data|
              && data[off] - data[off] % 16 == kind && LengthAt(data, off) == Some((length, off + 1))
  {
    if fold > 0 {
      StartsIs(reftab, id, data, kind, length, off, fold - 1);
    }
  }

  lemma StartsHere(reftab: seq<int>, id: nat, data: seq<Byte>, kind: nat, length: nat, off: nat)
    requires id < |reftab| && reftab[id] == off && length < 15 && kind % 16 == 0 && kind <= 0xF0
    requires Lies(data, off, Header(kind, length))
    ensures Starts(reftab, id, data, kind, length, off)
  {
    ShortLength(data, off, kind, length);
    StartsIs(reftab, id, data, kind, length, off);
  }

  lemma ArrayStep(reftab: seq<int>, id: nat, off: nat, data: seq<Byte>, reflen: nat, fuel: nat, items: seq<Tree>)
    requires fuel > 0 && Starts(reftab, id, data, 0xA0, |items|, off) && off + 1 + Span(|items|, reflen) <= |data|
    requires ReadsAll(reftab, off + 1, data, reflen, fuel - 1, items)
    ensures Reads(reftab, id, data, reflen, fuel, Array(items))
  {
    ReadsAllIs(reftab, off + 1, data, reflen, fuel - 1, items);
    StartsIs(reftab, id, data, 0xA0, |items|, off);
    ReadsIs(reftab, id, data, reflen, fuel, Array(items));
  }

  lemma EntriesStep(reftab: seq<int>, refs: nat, data: seq<Byte>, reflen: nat, fuel: nat, entries: seq<Entry>)
    requires ReadsAll(reftab, refs, data, reflen, fuel, Keys(entries))
    requires ReadsAll(reftab, refs + Span(|entries|, reflen), data, reflen, fuel, Values(entries))
    ensures EntriesAt(reftab, refs, |entries|, data, reflen, fuel) == Some(entries)
  {
    ReadsAllIs(reftab, refs, data, reflen, fuel, Keys(entries));
    ReadsAllIs(reftab, refs + Span(|entries|, reflen), data, reflen, fuel, Values(entries));
    StringsZip(entries);
  }

  lemma DictStep(reftab: seq<int>, id: nat, off: nat, data: seq<Byte>, reflen: nat, fuel: nat, entries: seq<Entry>)
    requires fuel > 0 && Starts(reftab, id, data, 0xD0, |entries|, off) && off + 1 + Span(|entries|, reflen)
      + Span(|entries|, reflen) <= |data|
    requires ReadsAll(reftab, off + 1, data, reflen, fuel - 1, Keys(entries))
    requires ReadsAll(reftab, off + 1 + Span(|entries|, reflen), data, reflen, fuel - 1, Values(entries))
    ensures Reads(reftab, id, data, reflen, fuel, Dict(entries))
  {
    EntriesStep(reftab, off + 1, data, reflen, fuel - 1, entries);
    StartsIs(reftab, id, data, 0xD0, |entries|, off);
    ReadsIs(reftab, id, data, reflen, fuel, Dict(entries));
  }

  lemma LeafStep(reftab: seq<int>, id: nat, data: seq<Byte>, reflen: nat, fuel: nat, t: Tree)
    requires fuel > 0 && id < |reftab| && 0 <= reftab[id] && LeafReads(t, data, reftab[id])
    ensures Reads(reftab, id, data, reflen, fuel, t)
  {
    ReadsIs(reftab, id, data, reflen, fuel, t);
  }

  lemma ArrayLaid(items: seq<Tree>, id: nat, off: nat, reftab: seq<int>, data: seq<Byte>, reflen: nat)
    requires reflen > 0 && Written(Array(items), id, off, reftab, data, reflen)
    ensures Lies(data, off, Header(0xA0, |items|)) && Lies(data, off + 1, ItemRefs(items, id + 1, reflen))
    ensures ItemsWritten(items, id + 1, off + 1 + Span(|items|, reflen), reftab, data, reflen)
    ensures off + 1 + Span(|items|, reflen) <= |data|
  {
    var head, refs, body := Header(0xA0, |items|), ItemRefs(items, id + 1, reflen), EncodedItems(items, id + 1, reflen);
    LiesSplit(data, off, head + refs, body);
    LiesSplit(data, off, head, refs);
    var here: seq<int> := [off];
    LiesSplit(reftab, id, here, ItemOffsets(items, off + 1 + Span(|items|, reflen), id + 1, reflen));
  }

  lemma DictLaid(entries: seq<Entry>, id: nat, off: nat, reftab: seq<int>, data: seq<Byte>, reflen: nat)
    requires reflen > 0 && Written(Dict(entries), id, off, reftab, data, reflen)
    ensures var n := |entries|;
            && Lies(data, off, Header(0xD0, n)) && Lies(data, off + 1, KeyRefs(entries, id + 1, reflen))
            && Lies(data, off + 1 + Span(n, reflen), ValueRefs(entries, id + 1, reflen))
            && EntriesWritten(entries, id + 1, off + 1 + Span(n, reflen) + Span(n, reflen), reftab, data, reflen)
            && off + 1 + Span(n, reflen) + Span(n, reflen) <= |data|
  {
    var n := |entries|;
    var head, keys, values := Header(0xD0, n), KeyRefs(entries, id + 1, reflen), ValueRefs(entries, id + 1, reflen);
    LiesSplit(data, off, head + keys + values, EncodedEntries(entries, id + 1, reflen));
    LiesSplit(data, off, head + keys, values);
    LiesSplit(data, off, head, keys);
    var here: seq<int> := [off];
    LiesSplit(reftab, id, here, EntryOffsets(entries, off + 1 + Span(n, reflen) + Span(n, reflen), id + 1, reflen));
  }

  /** The object of a written tree is read back. */
  lemma {:induction false} ObjectRead(t: Tree, id: nat, off: nat, reftab: seq<int>, data: seq<Byte>, reflen: nat, fuel: nat)
    requires reflen > 0 && Written(t, id, off, reftab, data, reflen) && fuel >= Objects(t)
    ensures id < |reftab|
    ensures Reads(reftab, id, data, reflen, fuel, t)
    decreases t
  {
    LiesHead(reftab, id, Offsets(t, off, id, reflen));
    match t
    case Array(items) =>
      ArrayLaid(items, id, off, reftab, data, reflen);
      StartsHere(reftab, id, data, 0xA0, |items|, off);
      ItemsRead(items, id + 1, off + 1, off + 1 + Span(|items|, reflen), reftab, data, reflen, fuel - 1);
      ArrayStep(reftab, id, off, data, reflen, fuel, items);
    case Dict(entries) =>
      DictRead(entries, id, off, reftab, data, reflen, fuel);
    case _ =>
      LeafRead(t, data, off, id, reflen);
      LeafStep(reftab, id, data, reflen, fuel, t);
  }

  lemma {:induction false} DictRead(entries: seq<Entry>, id: nat, off: nat, reftab: seq<int>, data: seq<Byte>,
      reflen: nat, fuel: nat)
    requires reflen > 0 && Written(Dict(entries), id, off, reftab, data, reflen) && fuel >= Objects(Dict(entries))
    requires id < |reftab| && reftab[id] == off
    ensures Reads(reftab, id, data, reflen, fuel, Dict(entries))
    decreases entries, 2
  {
    DictLaid(entries, id, off, reftab, data, reflen);
    DictReadLaid(entries, id, off, Span(|entries|, reflen), reftab, data, reflen, fuel);
  }

  lemma {:induction false} DictReadLaid(entries: seq<Entry>, id: nat, off: nat, n: nat, reftab: seq<int>, data: seq<Byte>,
                                        reflen: nat, fuel: nat)
    requires reflen > 0 && n == Span(|entries|, reflen) && |entries| < 15 && fuel > EntryObjects(entries)
    requires id < |reftab| && reftab[id] == off && off + 1 + n + n <= |data|
    requires Lies(data, off, Header(0xD0, |entries|)) && Lies(data, off + 1, KeyRefs(entries, id + 1, reflen))
    requires Lies(data, off + 1 + n, ValueRefs(entries, id + 1, reflen))
    requires EntriesWritten(entries, id + 1, off + 1 + n + n, reftab, data, reflen)
    ensures Reads(reftab, id, data, reflen, fuel, Dict(entries))
    decreases entries, 1
  {
    StartsHere(reftab, id, data, 0xD0, |entries|, off);
    EntriesRead(entries, id + 1, off + 1, off + 1 + n, off + 1 + n + n, reftab, data, reflen, fuel - 1);
    DictStep(reftab, id, off, data, reflen, fuel, entries);
  }

  lemma {:induction false} ItemsRead(items: seq<Tree>, id: nat, refs: nat, off: nat, reftab: seq<int>,
      data: seq<Byte>, reflen: nat, fuel: nat)
    requires reflen > 0 && ItemsWritten(items, id, off, reftab, data, reflen) && fuel >= ItemObjects(items)
    requires Lies(data, refs, ItemRefs(items, id, reflen))
    ensures ReadsAll(reftab, refs, data, reflen, fuel, items)
    decreases items, 0
  {
    if items == [] {
      ItemsNone(reftab, refs, data, reflen, fuel);
    } else {
      var x, xs := items[0], items[1..];
      var id', off' := id + Objects(x), off + |Encoded(x, id, reflen)|;
      FirstItem(items, id, off, reftab, data, reflen);
      LiesSplit(data, refs, BigEndian(id, reflen), ItemRefs(xs, id', reflen));
      ObjectRead(x, id, off, reftab, data, reflen, fuel);
      ItemsRead(xs, id', refs + reflen, off', reftab, data, reflen, fuel);
      ItemsStep(reftab, refs, data, reflen, fuel, id, x, xs, items);
    }
  }

  function Keys(entries: seq<Entry>): (k: seq<Tree>)
    ensures |k| == |entries|
  {
    if entries == [] then [] else [String(entries[0].key)] + Keys(entries[1..])
  }

  function Values(entries: seq<Entry>): (v: seq<Tree>)
    ensures |v| == |entries|
  {
    if entries == [] then [] else [entries[0].value] + Values(entries[1..])
  }

  lemma {:induction false} StringsZip(entries: seq<Entry>)
    ensures Strings(Keys(entries)).Some? && Zip(Strings(Keys(entries)).value, Values(entries)) == entries
  {
    if entries != [] {
      StringsZip(entries[1..]);
      var ks := Keys(entries);
      assert ks[0] == String(entries[0].key) && ks[1..] == Keys(entries[1..]);
      var texts := Strings(ks).value;
      assert texts[1..] == Strings(Keys(entries[1..])).value;
      assert Values(entries)[1..] == Values(entries[1..]);
    }
  }

  lemma {:induction false} EntriesRead(entries: seq<Entry>, id: nat, krefs: nat, vrefs: nat, off: nat,
                                       reftab: seq<int>, data: seq<Byte>, reflen: nat, fuel: nat)
    requires reflen > 0 && EntriesWritten(entries, id, off, reftab, data, reflen) && fuel >= EntryObjects(entries)
    requires Lies(data, krefs, KeyRefs(entries, id, reflen)) && Lies(data, vrefs, ValueRefs(entries, id, reflen))
    ensures ReadsAll(reftab, krefs, data, reflen, fuel, Keys(entries))
    ensures ReadsAll(reftab, vrefs, data, reflen, fuel, Values(entries))
    decreases entries, 0
  {
    if entries == [] {
      ItemsNone(reftab, krefs, data, reflen, fuel);
      ItemsNone(reftab, vrefs, data, reflen, fuel);
    } else {
      var e, es := entries[0], entries[1..];
      var valueOff, id' := off + |StringBytes(e.key)|, id + 1 + Objects(e.value);
      var off' := valueOff + |Encoded(e.value, id + 1, reflen)|;
      FirstEntry(entries, id, off, reftab, data, reflen);
      RefsSplit(entries, id, krefs, vrefs, data, reflen);
      EntryRead(e, id, off, reftab, data, reflen, fuel);
      EntriesRead(es, id', krefs + reflen, vrefs + reflen, off', reftab, data, reflen, fuel);
      ItemsStep(reftab, krefs, data, reflen, fuel, id, String(e.key), Keys(es), Keys(entries));
      ItemsStep(reftab, vrefs, data, reflen, fuel, id + 1, e.value, Values(es), Values(entries));
    }
  }

  lemma RefsSplit(entries: seq<Entry>, id: nat, krefs: nat, vrefs: nat, data: seq<Byte>, reflen: nat)
    requires entries != []
    requires Lies(data, krefs, KeyRefs(entries, id, reflen)) && Lies(data, vrefs, ValueRefs(entries, id, reflen))
    ensures var id' := id + 1 + Objects(entries[0].value);
            && Lies(data, krefs, BigEndian(id, reflen)) && Lies(data, krefs + reflen, KeyRefs(entries[1..], id', reflen))
            && Lies(data, vrefs, BigEndian(id + 1, reflen)) && Lies(data, vrefs + reflen,
                ValueRefs(entries[1..], id', reflen))
  {
    var id' := id + 1 + Objects(entries[0].value);
    LiesSplit(data, krefs, BigEndian(id, reflen), KeyRefs(entries[1..], id', reflen));
    LiesSplit(data, vrefs, BigEndian(id + 1, reflen), ValueRefs(entries[1..], id', reflen));
  }

  lemma {:induction false} EntryRead(e: Entry, id: nat, off: nat, reftab: seq<int>, data: seq<Byte>, reflen: nat, fuel: nat)
    requires reflen > 0 && fuel >= 1 + Objects(e.value)
    requires Written(String(e.key), id, off, reftab, data, reflen)
    requires Written(e.value, id + 1, off + |StringBytes(e.key)|, reftab, data, reflen)
    ensures id + 1 < |reftab|
    ensures Reads(reftab, id, data, reflen, fuel, String(e.key))
    ensures Reads(reftab, id + 1, data, reflen, fuel, e.value)
    decreases e, 0
  {
    KeyRead(e.key, id, off, reftab, data, reflen, fuel);
    ObjectRead(e.value, id + 1, off + |StringBytes(e.key)|, reftab, data, reflen, fuel);
  }

  lemma KeyRead(key: seq<Byte>, id: nat, off: nat, reftab: seq<int>, data: seq<Byte>, reflen: nat, fuel: nat)
    requires reflen > 0 && fuel >= 1 && Written(String(key), id, off, reftab, data, reflen)
    ensures Reads(reftab, id, data, reflen, fuel, String(key))
  {
    LiesHead(reftab, id, Offsets(String(key), off, id, reflen));
    LeafRead(String(key), data, off, id, reflen);
    LeafStep(reftab, id, data, reflen, fuel, String(key));
  }
}
