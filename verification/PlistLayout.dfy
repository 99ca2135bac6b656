/** Sizes of the layout, and how it grows child by child. */
module PlistLayout {
  import opened Arith
  import opened Bytes
  import opened PlistFormat

  /** The bytes that bplist_analyze counts for a type byte and a length. */
  function HeaderSize(n: nat): (h: nat)
    ensures h >= 1
  {
    if n < 15 then 1 else 1 + 1 + IntegerLength(n)
  }

  /** bplist_analyze: bytes without references. The dictionary header is counted for
      twice its size. */
  function Counted(t: Tree): (b: nat)
    ensures b >= 1
    decreases t
  {
    match t
    case Null => 1
    case Primitive(_) => 1
    case Integer(n) => 1 + IntegerLength(n)
    case Real(_) => 1 + 8
    case Data(bytes) => HeaderSize(|bytes|) + |bytes|
    case String(text) => HeaderSize(|text|) + |text|
    case Array(items) => HeaderSize(|items|) + CountedItems(items)
    case Dict(entries) => HeaderSize(2 * |entries|) + CountedEntries(entries)
  }

  function CountedItems(items: seq<Tree>): nat
    decreases items
  {
    if items == [] then 0 else Counted(items[0]) + CountedItems(items[1..])
  }

  function CountedEntries(entries: seq<Entry>): nat
    decreases entries
  {
    if entries == [] then 0
    else HeaderSize(|entries[0].key|) + |entries[0].key| + Counted(entries[0].value) + CountedEntries(entries[1..])
  }

  /** bplist_analyze: references. */
  function Refs(t: Tree): nat
    decreases t
  {
    match t
    case Array(items) => |items| + ItemsRefs(items)
    case Dict(entries) => 2 * |entries| + EntriesRefs(entries)
    case _ => 0
  }

  function ItemsRefs(items: seq<Tree>): nat
    decreases items
  {
    if items == [] then 0 else Refs(items[0]) + ItemsRefs(items[1..])
  }

  function EntriesRefs(entries: seq<Entry>): nat
    decreases entries
  {
    if entries == [] then 0 else Refs(entries[0].value) + EntriesRefs(entries[1..])
  }

  /** Every object but the root is referred to once. */
  lemma {:induction false} OneReferenceEach(t: Tree)
    ensures Objects(t) == 1 + Refs(t)
    decreases t
  {
    match t
    case Array(items) => OneReferenceEachItem(items);
    case Dict(entries) => OneReferenceEachEntry(entries);
    case _ =>
  }

  lemma {:induction false} OneReferenceEachItem(items: seq<Tree>)
    ensures ItemObjects(items) == |items| + ItemsRefs(items)
    decreases items
  {
    if items != [] {
      OneReferenceEach(items[0]);
      OneReferenceEachItem(items[1..]);
    }
  }

  lemma {:induction false} OneReferenceEachEntry(entries: seq<Entry>)
    ensures EntryObjects(entries) == 2 * |entries| + EntriesRefs(entries)
    decreases entries
  {
    if entries != [] {
      OneReferenceEach(entries[0].value);
      OneReferenceEachEntry(entries[1..]);
    }
  }

  lemma HeaderSizeIs(kind: nat, n: nat)
    requires kind % 16 == 0 && kind < 256
    ensures |Header(kind, n)| == HeaderSize(n)
  {
  }

  /** What the estimate for dictionaries counts too much. */
  function Slack(t: Tree): nat
    decreases t
  {
    match t
    case Array(items) => ItemSlack(items)
    case Dict(entries) => HeaderSize(2 * |entries|) - HeaderSize(|entries|) + EntrySlack(entries)
    case _ => 0
  }

  function ItemSlack(items: seq<Tree>): nat
    decreases items
  {
    if items == [] then 0 else Slack(items[0]) + ItemSlack(items[1..])
  }

  function EntrySlack(entries: seq<Entry>): nat
    decreases entries
  {
    if entries == [] then 0 else Slack(entries[0].value) + EntrySlack(entries[1..])
  }

  /** The bytes written never exceed what was counted, and fall short of it by exactly
      the slack. */
  lemma {:induction false} WrittenSize(t: Tree, id: nat, reflen: nat)
    requires reflen > 0 && WellTyped(t)
    ensures |Encoded(t, id, reflen)| + Slack(t) == Counted(t) + Span(Refs(t), reflen)
    decreases t
  {
    match t
    case Array(items) =>
      WrittenItems(items, id + 1, reflen);
      SpanAdd(|items|, ItemsRefs(items), reflen);
      HeaderSizeIs(0xA0, |items|);
    case Dict(entries) =>
      WrittenEntries(entries, id + 1, reflen);
      SpanAdd(|entries|, |entries|, reflen);
      SpanAdd(|entries| + |entries|, EntriesRefs(entries), reflen);
      HeaderSizeIs(0xD0, |entries|);
    case _ =>
  }

  lemma {:induction false} WrittenItems(items: seq<Tree>, id: nat, reflen: nat)
    requires reflen > 0 && WellTypedItems(items)
    ensures |EncodedItems(items, id, reflen)| + ItemSlack(items) == CountedItems(items) + Span(ItemsRefs(items), reflen)
    decreases items
  {
    if items != [] {
      WrittenSize(items[0], id, reflen);
      WrittenItems(items[1..], id + Objects(items[0]), reflen);
      SpanAdd(Refs(items[0]), ItemsRefs(items[1..]), reflen);
    }
  }

  lemma {:induction false} WrittenEntries(entries: seq<Entry>, id: nat, reflen: nat)
    requires reflen > 0 && WellTypedEntries(entries)
    ensures |EncodedEntries(entries, id, reflen)| + EntrySlack(entries) == CountedEntries(entries)
      + Span(EntriesRefs(entries), reflen)
    decreases entries
  {
    if entries != [] {
      var e := entries[0];
      WrittenSize(e.value, id + 1, reflen);
      WrittenEntries(entries[1..], id + 1 + Objects(e.value), reflen);
      SpanAdd(Refs(e.value), EntriesRefs(entries[1..]), reflen);
      HeaderSizeIs(0x50, |e.key|);
    }
  }

  lemma {:induction false} SpanAdd(m: nat, n: nat, reflen: nat)
    ensures Span(m + n, reflen) == Span(m, reflen) + Span(n, reflen)
  {
    if m > 0 {
      SpanAdd(m - 1, n, reflen);
    }
  }

  // Writing in place. The number `fold` keeps the definition folded, so that the solver
  // treats a write as a whole until a lemma opens it.

  /** s with a written over it from i on. */
  function Patched<T>(s: seq<T>, i: nat, a: seq<T>, fold: nat := 3): (r: seq<T>)
    requires i + |a| <= |s|
    ensures |r| == |s|
  {
    if fold == 0 then s[..i] + a + s[i + |a|..] else Patched(s, i, a, fold - 1)
  }

  lemma {:induction false} PatchedIs<T>(s: seq<T>, i: nat, a: seq<T>, fold: nat := 3)
    requires i + |a| <= |s|
    ensures Patched(s, i, a, fold) == s[..i] + a + s[i + |a|..]
  {
    if fold > 0 {
      PatchedIs(s, i, a, fold - 1);
    }
  }

  lemma PatchNothing<T>(s: seq<T>, i: nat)
    requires i <= |s|
    ensures Patched(s, i, []) == s
  {
    PatchedIs(s, i, []);
  }

  lemma PatchOne<T>(s: seq<T>, i: nat, x: T)
    requires i < |s|
    ensures Patched(s, i, [x]) == s[i := x]
  {
    PatchedIs(s, i, [x]);
  }

  /** Writing a and then b behind it. */
  lemma PatchAppend<T>(s: seq<T>, i: nat, a: seq<T>, b: seq<T>)
    requires i + |a| + |b| <= |s|
    ensures Patched(s, i, a + b) == Patched(Patched(s, i, a), i + |a|, b)
  {
    var t := Patched(s, i, a);
    PatchedIs(s, i, a);
    PatchedIs(s, i, a + b);
    PatchedIs(t, i + |a|, b);
    assert t[..i + |a|] == s[..i] + a;
    assert t[i + |a| + |b|..] == s[i + |a| + |b|..];
    assert s[..i] + (a + b) == (s[..i] + a) + b;
  }

  /** Writes to separate places commute. */
  lemma PatchCommute<T>(s: seq<T>, i: nat, a: seq<T>, j: nat, b: seq<T>)
    requires i + |a| <= j && j + |b| <= |s|
    ensures Patched(Patched(s, i, a), j, b) == Patched(Patched(s, j, b), i, a)
  {
    var l, r := Patched(Patched(s, i, a), j, b), Patched(Patched(s, j, b), i, a);
    forall k | 0 <= k < |s| ensures l[k] == r[k] {
      PatchAt(s, i, a, k);
      PatchAt(s, j, b, k);
      PatchAt(Patched(s, i, a), j, b, k);
      PatchAt(Patched(s, j, b), i, a, k);
    }
  }

  lemma PatchAt<T>(s: seq<T>, i: nat, a: seq<T>, k: nat)
    requires i + |a| <= |s| && k < |s|
    ensures Patched(s, i, a)[k] == if i <= k < i + |a| then a[k - i] else s[k]
  {
    PatchedIs(s, i, a);
  }

  /** References at v and bodies at d, both yet to be written. */
  function Pending<T>(s: seq<T>, v: nat, refs: seq<T>, d: nat, body: seq<T>): (r: seq<T>)
    requires v + |refs| <= d && d + |body| <= |s|
    ensures |r| == |s|
  {
    Patched(Patched(s, v, refs), d, body)
  }

  /** One body and then its reference leave the rest pending. */
  lemma PendingStep<T>(s: seq<T>, v: nat, r: seq<T>, rs: seq<T>, d: nat, b: seq<T>, bs: seq<T>)
    requires v + |r| + |rs| <= d && d + |b| + |bs| <= |s|
    ensures Pending(s, v, r + rs, d, b + bs)
            == Pending(Patched(Patched(s, d, b), v, r), v + |r|, rs, d + |b|, bs)
  {
    PatchAppend(s, v, r, rs);
    var t := Patched(s, v, r);
    PatchAppend(Patched(t, v + |r|, rs), d, b, bs);
    PatchCommute(t, v + |r|, rs, d, b);
    PatchCommute(s, v, r, d, b);
  }

  lemma PendingNothing<T>(s: seq<T>, v: nat, d: nat)
    requires v <= d <= |s|
    ensures Pending(s, v, [], d, []) == s
  {
    PatchNothing(s, v);
    PatchNothing(s, d);
  }

  /** When the references end where the bodies begin, it is one write. */
  lemma PendingWhole<T>(s: seq<T>, v: nat, refs: seq<T>, body: seq<T>)
    requires v + |refs| + |body| <= |s|
    ensures Pending(s, v, refs, v + |refs|, body) == Patched(s, v, refs + body)
  {
    PatchAppend(s, v, refs, body);
  }

  /** Key references, value references and bodies yet to be written. */
  function PendingThree<T>(s: seq<T>, k: nat, keys: seq<T>, v: nat, values: seq<T>, d: nat, body: seq<T>): (r: seq<T>)
    requires k + |keys| <= v && v + |values| <= d && d + |body| <= |s|
    ensures |r| == |s|
  {
    Patched(Patched(Patched(s, k, keys), v, values), d, body)
  }

  lemma PendingThreeStep<T>(s: seq<T>, k: nat, r: seq<T>, rs: seq<T>, v: nat, q: seq<T>, qs: seq<T>, d: nat,
      b: seq<T>, bs: seq<T>)
    requires k + |r| + |rs| <= v && v + |q| + |qs| <= d && d + |b| + |bs| <= |s|
    ensures PendingThree(s, k, r + rs, v, q + qs, d, b + bs)
            == PendingThree(Patched(Patched(Patched(s, d, b), k, r), v, q), k + |r|, rs, v + |q|, qs, d + |b|, bs)
  {
    PatchAppend(s, k, r, rs);
    var x := Patched(s, k, r);
    PatchAppend(Patched(x, k + |r|, rs), v, q, qs);
    PatchCommute(x, k + |r|, rs, v, q);
    PatchAppend(Patched(Patched(Patched(x, v, q), k + |r|, rs), v + |q|, qs), d, b, bs);
    BodyFirst(s, k, r, rs, v, q, qs, d, b);
  }

  /** A write above four others may come first. */
  lemma BodyFirst<T>(s: seq<T>, k: nat, r: seq<T>, rs: seq<T>, v: nat, q: seq<T>, qs: seq<T>, d: nat, b: seq<T>)
    requires k + |r| + |rs| <= v && v + |q| + |qs| <= d && d + |b| <= |s|
    ensures Patched(Patched(Patched(Patched(Patched(s, k, r), v, q), k + |r|, rs), v + |q|, qs), d, b)
            == Patched(Patched(Patched(Patched(Patched(s, d, b), k, r), v, q), k + |r|, rs), v + |q|, qs)
  {
    var x := Patched(s, k, r);
    var z := Patched(x, v, q);
    PatchCommute(Patched(z, k + |r|, rs), v + |q|, qs, d, b);
    PatchCommute(z, k + |r|, rs, d, b);
    PatchCommute(x, v, q, d, b);
    PatchCommute(s, k, r, d, b);
  }

  lemma PendingThreeNothing<T>(s: seq<T>, k: nat, v: nat, d: nat)
    requires k <= v <= d <= |s|
    ensures PendingThree(s, k, [], v, [], d, []) == s
  {
    PatchNothing(s, k);
    PatchNothing(s, v);
    PatchNothing(s, d);
  }

  lemma PendingThreeWhole<T>(s: seq<T>, k: nat, keys: seq<T>, values: seq<T>, body: seq<T>)
    requires k + |keys| + |values| + |body| <= |s|
    ensures PendingThree(s, k, keys, k + |keys|, values, k + |keys| + |values|, body) == Patched(s, k, keys + values + body)
  {
    PatchAppend(s, k, keys, values);
    PatchAppend(s, k, keys + values, body);
  }

  // The children that are still to be written. D and T are the finished buffer and
  // offset table, d and id where the next body and number go, and End where they stop.

  datatype End = End(d: nat, id: nat)

  ghost predicate ItemsLeft(D: seq<Byte>, T: seq<int>, end: End, data: seq<Byte>, v: nat, d: nat, reftab: seq<int>, id: nat,
                            items: seq<Tree>, reflen: nat)
    requires reflen > 0
  {
    && v + Span(|items|, reflen) <= d
    && d + |EncodedItems(items, id, reflen)| == end.d <= |data| && id + ItemObjects(items) == end.id <= |reftab|
    && Pending(data, v, ItemRefs(items, id, reflen), d, EncodedItems(items, id, reflen)) == D
    && Patched(reftab, id, ItemOffsets(items, d, id, reflen)) == T
  }

  lemma ItemsLeftStep(D: seq<Byte>, T: seq<int>, end: End, data: seq<Byte>, v: nat, d: nat, reftab: seq<int>, id: nat,
                      items: seq<Tree>, reflen: nat)
    requires reflen > 0 && items != [] && ItemsLeft(D, T, end, data, v, d, reftab, id, items, reflen)
    ensures var b := Encoded(items[0], id, reflen); var o := Offsets(items[0], d, id, reflen);
            && v + reflen <= d && d + |b| <= |data| && id + |o| <= |reftab|
            && ItemsLeft(D, T, end, Patched(Patched(data, d, b), v, BigEndian(id, reflen)), v + reflen, d + |b|,
                         Patched(reftab, id, o), id + |o|, items[1..], reflen)
  {
    var b, o := Encoded(items[0], id, reflen), Offsets(items[0], d, id, reflen);
    var id' := id + Objects(items[0]);
    PendingStep(data, v, BigEndian(id, reflen), ItemRefs(items[1..], id', reflen), d, b,
        EncodedItems(items[1..], id', reflen));
    PatchAppend(reftab, id, o, ItemOffsets(items[1..], d + |b|, id', reflen));
  }

  lemma ItemsLeftNone(D: seq<Byte>, T: seq<int>, end: End, data: seq<Byte>, v: nat, d: nat, reftab: seq<int>, id: nat,
      reflen: nat)
    requires reflen > 0 && ItemsLeft(D, T, end, data, v, d, reftab, id, [], reflen)
    ensures data == D && reftab == T && d == end.d && id == end.id
  {
    PendingNothing(data, v, d);
    PatchNothing(reftab, id);
  }

  ghost predicate EntriesLeft(D: seq<Byte>, T: seq<int>, end: End, data: seq<Byte>, k: nat, v: nat, d: nat,
      reftab: seq<int>, id: nat,
                              entries: seq<Entry>, reflen: nat)
    requires reflen > 0
  {
    && k + Span(|entries|, reflen) <= v && v + Span(|entries|, reflen) <= d
    && d + |EncodedEntries(entries, id, reflen)| == end.d <= |data| && id + EntryObjects(entries) == end.id <= |reftab|
    && PendingThree(data, k, KeyRefs(entries, id, reflen), v, ValueRefs(entries, id, reflen),
                    d, EncodedEntries(entries, id, reflen)) == D
    && Patched(reftab, id, EntryOffsets(entries, d, id, reflen)) == T
  }

  lemma EntriesLeftStep(D: seq<Byte>, T: seq<int>, end: End, data: seq<Byte>, k: nat, v: nat, d: nat,
      reftab: seq<int>, id: nat,
                        entries: seq<Entry>, reflen: nat)
    requires reflen > 0 && entries != [] && EntriesLeft(D, T, end, data, k, v, d, reftab, id, entries, reflen)
    ensures var b := EncodedEntry(entries[0], id, reflen); var o := EntryOffset(entries[0], d, id, reflen);
            && k + reflen <= v && v + reflen <= d && d + |b| <= |data| && id + |o| <= |reftab|
            && EntriesLeft(D, T, end, Patched(Patched(Patched(data, d, b), k, BigEndian(id, reflen)), v,
                BigEndian(id + 1, reflen)),
                           k + reflen, v + reflen, d + |b|, Patched(reftab, id, o), id + |o|, entries[1..], reflen)
  {
    var b, o := EncodedEntry(entries[0], id, reflen), EntryOffset(entries[0], d, id, reflen);
    var id' := id + 1 + Objects(entries[0].value);
    assert EntryOffsets(entries, d, id, reflen) == o + EntryOffsets(entries[1..], d + |b|, id', reflen);
    PendingThreeStep(data, k, BigEndian(id, reflen), KeyRefs(entries[1..], id', reflen),
                     v, BigEndian(id + 1, reflen), ValueRefs(entries[1..], id', reflen),
                     d, b, EncodedEntries(entries[1..], id', reflen));
    PatchAppend(reftab, id, o, EntryOffsets(entries[1..], d + |b|, id', reflen));
  }

  lemma EntriesLeftNone(D: seq<Byte>, T: seq<int>, end: End, data: seq<Byte>, k: nat, v: nat, d: nat,
      reftab: seq<int>, id: nat, reflen: nat)
    requires reflen > 0 && EntriesLeft(D, T, end, data, k, v, d, reftab, id, [], reflen)
    ensures data == D && reftab == T && d == end.d && id == end.id
  {
    PendingThreeNothing(data, k, v, d);
    PatchNothing(reftab, id);
  }
}
