/** Property-list trees and the byte layout that plist.c gives them. */
module PlistFormat {
  import opened Arith
  import opened Bytes

  /** A plist object. Null stands for a null child pointer. A real is kept as the eight
      bytes of its double, or as the four bytes of a float that was read. */
  datatype Tree =
    | Null
    | Primitive(value: nat)
    | Integer(number: int)
    | Real(bits: seq<Byte>)
    | Data(bytes: seq<Byte>)
    | String(text: seq<Byte>)
    | Array(items: seq<Tree>)
    | Dict(entries: seq<Entry>)

  datatype Entry = Entry(key: seq<Byte>, value: Tree)

  /** What the C types guarantee of an object. */
  predicate WellTyped(t: Tree)
    decreases t
  {
    match t
    case Primitive(v) => v < 15
    case Integer(n) => -0x8000_0000_0000_0000 <= n < 0x8000_0000_0000_0000
    case Real(bits) => |bits| == 8
    case String(text) => NoNul(text)
    case Array(items) => WellTypedItems(items)
    case Dict(entries) => WellTypedEntries(entries)
    case _ => true
  }

  predicate WellTypedItems(items: seq<Tree>)
    decreases items
  {
    items != [] ==> WellTyped(items[0]) && WellTypedItems(items[1..])
  }

  predicate WellTypedEntries(entries: seq<Entry>)
    decreases entries
  {
    entries != [] ==> NoNul(entries[0].key) && WellTyped(entries[0].value) && WellTypedEntries(entries[1..])
  }

  /** integer_length */
  function IntegerLength(v: int): (n: nat)
    ensures n == 1 || n == 2 || n == 4 || n == 8
  {
    if 0 < v < 0x100 then 1 else if 0 < v < 0x1_0000 then 2 else if 0 < v < 0x1_0000_0000 then 4 else 8
  }

  /** blist_integer_length: the logarithm of the former. */
  function LengthCode(v: int): (k: nat)
    ensures k <= 3
  {
    if 0 < v < 0x100 then 0 else if 0 < v < 0x1_0000 then 1 else if 0 < v < 0x1_0000_0000 then 2 else 3
  }

  /** A type byte and a length: in the low nibble, or as an integer after it. */
  function Header(kind: nat, length: nat): (h: seq<Byte>)
    requires kind % 16 == 0 && kind < 256
    ensures |h| >= 1
  {
    if length < 15 then [kind + length]
    else [kind + 15, 0x10 + LengthCode(length)] + BigEndian(length, IntegerLength(length))
  }

  function StringBytes(text: seq<Byte>): (b: seq<Byte>)
    ensures |b| >= 1
  {
    Header(0x50, |text|) + text
  }

  // Objects are numbered in the order in which they are written: a node, then its
  // children, and in a dictionary each key before its value.

  function Objects(t: Tree): (n: nat)
    ensures n >= 1
    decreases t
  {
    match t
    case Array(items) => 1 + ItemObjects(items)
    case Dict(entries) => 1 + EntryObjects(entries)
    case _ => 1
  }

  function ItemObjects(items: seq<Tree>): nat
    decreases items
  {
    if items == [] then 0 else Objects(items[0]) + ItemObjects(items[1..])
  }

  function EntryObjects(entries: seq<Entry>): nat
    decreases entries
  {
    if entries == [] then 0 else 1 + Objects(entries[0].value) + EntryObjects(entries[1..])
  }

  /** The bytes that n references take. */
  function Span(n: nat, reflen: nat): (b: nat)
  {
    if n == 0 then 0 else reflen + Span(n - 1, reflen)
  }

  lemma {:induction false} SpanIs(n: nat, reflen: nat)
    ensures Span(n, reflen) == n * reflen
  {
    if n > 0 {
      SpanIs(n - 1, reflen);
      MulDist(reflen, 1, n - 1);
    }
  }

  /** The references of children that start at object id. */
  function ItemRefs(items: seq<Tree>, id: nat, reflen: nat): (b: seq<Byte>)
    ensures |b| == Span(|items|, reflen)
  {
    if items == [] then [] else
      BigEndian(id, reflen) + ItemRefs(items[1..], id + Objects(items[0]), reflen)
  }

  function KeyRefs(entries: seq<Entry>, id: nat, reflen: nat): (b: seq<Byte>)
    ensures |b| == Span(|entries|, reflen)
  {
    if entries == [] then [] else
      BigEndian(id, reflen) + KeyRefs(entries[1..], id + 1 + Objects(entries[0].value), reflen)
  }

  function ValueRefs(entries: seq<Entry>, id: nat, reflen: nat): (b: seq<Byte>)
    ensures |b| == Span(|entries|, reflen)
  {
    if entries == [] then [] else
      BigEndian(id + 1, reflen) + ValueRefs(entries[1..], id + 1 + Objects(entries[0].value), reflen)
  }

  /** The bytes of the object numbered id, with everything below it. */
  function Encoded(t: Tree, id: nat, reflen: nat): (b: seq<Byte>)
    requires reflen > 0
    ensures |b| >= 1
    decreases t
  {
    match t
    case Null => [0]
    case Primitive(v) => [v % 256]
    case Integer(n) => [0x10 + LengthCode(n)] + BigEndian(n, IntegerLength(n))
    case Real(bits) => [0x23] + bits
    case Data(bytes) => Header(0x40, |bytes|) + bytes
    case String(text) => StringBytes(text)
    case Array(items) => Header(0xA0, |items|) + ItemRefs(items, id + 1, reflen) + EncodedItems(items, id + 1, reflen)
    case Dict(entries) =>
      Header(0xD0, |entries|) + KeyRefs(entries, id + 1, reflen) + ValueRefs(entries, id + 1, reflen)
      + EncodedEntries(entries, id + 1, reflen)
  }

  function EncodedItems(items: seq<Tree>, id: nat, reflen: nat): seq<Byte>
    requires reflen > 0
    decreases items
  {
    if items == [] then [] else
      Encoded(items[0], id, reflen) + EncodedItems(items[1..], id + Objects(items[0]), reflen)
  }

  function EncodedEntries(entries: seq<Entry>, id: nat, reflen: nat): seq<Byte>
    requires reflen > 0
    decreases entries
  {
    if entries == [] then [] else
      EncodedEntry(entries[0], id, reflen) + EncodedEntries(entries[1..], id + 1 + Objects(entries[0].value), reflen)
  }

  function EncodedEntry(e: Entry, id: nat, reflen: nat): seq<Byte>
    requires reflen > 0
    decreases e
  {
    StringBytes(e.key) + Encoded(e.value, id + 1, reflen)
  }

  /** Where each object starts, when the first is at `off`. */
  function Offsets(t: Tree, off: nat, id: nat, reflen: nat): (o: seq<int>)
    requires reflen > 0
    ensures |o| == Objects(t) && o[0] == off
    decreases t
  {
    match t
    case Array(items) =>
      [off] + ItemOffsets(items, off + |Header(0xA0, |items|)| + Span(|items|, reflen), id + 1, reflen)
    case Dict(entries) =>
      [off] + EntryOffsets(entries, off + |Header(0xD0, |entries|)| + Span(|entries|, reflen)
          + Span(|entries|, reflen), id + 1, reflen)
    case _ => [off]
  }

  function ItemOffsets(items: seq<Tree>, off: nat, id: nat, reflen: nat): (o: seq<int>)
    requires reflen > 0
    ensures |o| == ItemObjects(items)
    decreases items
  {
    if items == [] then [] else
      Offsets(items[0], off, id, reflen)
      + ItemOffsets(items[1..], off + |Encoded(items[0], id, reflen)|, id + Objects(items[0]), reflen)
  }

  function EntryOffsets(entries: seq<Entry>, off: nat, id: nat, reflen: nat): (o: seq<int>)
    requires reflen > 0
    ensures |o| == EntryObjects(entries)
    decreases entries
  {
    if entries == [] then [] else
      EntryOffset(entries[0], off, id, reflen)
      + EntryOffsets(entries[1..], off + |EncodedEntry(entries[0], id, reflen)|, id + 1 + Objects(entries[0].value), reflen)
  }

  function EntryOffset(e: Entry, off: nat, id: nat, reflen: nat): (o: seq<int>)
    requires reflen > 0
    ensures |o| == 1 + Objects(e.value)
    decreases e
  {
    [off] + Offsets(e.value, off + |StringBytes(e.key)|, id + 1, reflen)
  }
}
