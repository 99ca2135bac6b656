/** plist_object_to_bplist: the whole file, and when it can be read back. */
module PlistFile {
  import opened Arith
  import opened Bytes
  import opened PlistFormat
  import opened PlistLayout
  import opened PlistReader
  import opened PlistWriter

  const Magic: seq<Byte> := ['b' as int, 'p' as int, 'l' as int, 'i' as int, 's' as int, 't' as int, '0' as int, '0' as int]

  function Zeros(n: nat): (z: seq<Byte>)
    ensures |z| == n
  {
    seq(n, _ => 0)
  }

  function RefLength(t: Tree): nat { IntegerLength(Refs(t)) }

  /** The buffer length before the offset table. */
  function BodySize(t: Tree): nat { 8 + Counted(t) + Span(Refs(t), RefLength(t)) }

  function OffsetLength(t: Tree): nat { IntegerLength(BodySize(t)) }

  function FileSize(t: Tree): nat { BodySize(t) + Span(Objects(t), OffsetLength(t)) + TrailerLength }

  /** The offset table's bytes. */
  function Table(offsets: seq<int>, offlen: nat): (b: seq<Byte>)
    ensures |b| == Span(|offsets|, offlen)
  {
    if offsets == [] then [] else BigEndian(offsets[0], offlen) + Table(offsets[1..], offlen)
  }

  function Trailer(offlen: nat, reflen: nat, objects: nat, reftaboffset: nat): (b: seq<Byte>)
    ensures |b| == TrailerLength
  {
    Zeros(6) + BigEndian(offlen, 1) + BigEndian(reflen, 1) + BigEndian(objects, 8) + BigEndian(0, 8)
        + BigEndian(reftaboffset, 8)
  }

  /** Header, objects and offset table. */
  function Front(t: Tree): seq<Byte> {
    Magic + Encoded(t, 0, RefLength(t)) + Table(Offsets(t, 8, 0, RefLength(t)), OffsetLength(t))
  }

  function TableOffset(t: Tree): nat { 8 + |Encoded(t, 0, RefLength(t))| }

  /** The file: what the estimate counted too much stays zero behind the trailer. */
  function File(t: Tree): seq<Byte> {
    Front(t) + Trailer(OffsetLength(t), RefLength(t), Objects(t), TableOffset(t)) + Zeros(Slack(t))
  }

  lemma FileLength(t: Tree)
    requires WellTyped(t)
    ensures |File(t)| == FileSize(t) && |Front(t)| + TrailerLength + Slack(t) == FileSize(t)
    ensures TableOffset(t) + Slack(t) == BodySize(t)
  {
    WrittenSize(t, 0, RefLength(t));
  }

  /** bplist_analyze: the three totals, accumulated over the tree. */
  method Analyze(t: Tree, objects: nat, bytes: nat, refs: nat) returns (objects': nat, bytes': nat, refs': nat)
    ensures objects' == objects + Objects(t) && bytes' == bytes + Counted(t) && refs' == refs + Refs(t)
    decreases t
  {
    objects', bytes', refs' := objects + 1, bytes, refs;
    match t
    case Null => bytes' := bytes' + 1;
    case Primitive(_) => bytes' := bytes' + 1;
    case Integer(n) => bytes' := bytes' + 1 + IntegerLength(n);
    case Real(_) => bytes' := bytes' + 1 + 8;
    case Data(data) => bytes' := bytes' + HeaderSize(|data|) + |data|;
    case String(text) => bytes' := bytes' + HeaderSize(|text|) + |text|;
    case Array(items) =>
      bytes', refs' := bytes' + HeaderSize(|items|), refs' + |items|;
      var i := 0;
      assert items[0..] == items;
      while i < |items|
        invariant 0 <= i <= |items|
        invariant objects' + ItemObjects(items[i..]) == objects + Objects(t)
        invariant bytes' + CountedItems(items[i..]) == bytes + Counted(t)
        invariant refs' + ItemsRefs(items[i..]) == refs + Refs(t)
      {
        assert items[i..][0] == items[i] && items[i..][1..] == items[i + 1..];
        objects', bytes', refs' := Analyze(items[i], objects', bytes', refs');
        i := i + 1;
      }
      assert items[i..] == [];
    case Dict(entries) =>
      bytes', refs' := bytes' + HeaderSize(2 * |entries|), refs' + 2 * |entries|;
      var i := 0;
      assert entries[0..] == entries;
      while i < |entries|
        invariant 0 <= i <= |entries|
        invariant objects' + EntryObjects(entries[i..]) == objects + Objects(t)
        invariant bytes' + CountedEntries(entries[i..]) == bytes + Counted(t)
        invariant refs' + EntriesRefs(entries[i..]) == refs + Refs(t)
      {
        var e := entries[i];
        assert entries[i..][0] == e && entries[i..][1..] == entries[i + 1..];
        objects', bytes' := objects' + 1, bytes' + HeaderSize(|e.key|) + |e.key|;
        objects', bytes', refs' := Analyze(e.value, objects', bytes', refs');
        i := i + 1;
      }
      assert entries[i..] == [];
  }

  /** plist_object_to_bplist. The source keeps the length in 32 bits. */
  method ToBplist(t: Tree) returns (out: Option<seq<Byte>>)
    requires WellTyped(t) && FileSize(t) < 0x1_0000_0000
    ensures out == if t.Null? then None else Some(File(t))
  {
    if t.Null? {
      return None;
    }
    var objects, bytes, refs := Analyze(t, 0, 0, 0);
    var reflen := IntegerLength(refs);
    SpanIs(refs, reflen);
    var buflen := 8 + bytes + refs * reflen;
    var offlen := IntegerLength(buflen);
    SpanIs(objects, offlen);
    buflen := buflen + objects * offlen + TrailerLength;
    var w := new Writer(buflen, objects);
    FileLength(t);
    var reftaboffset := WriteFront(w, t, reflen, offlen);
    StillBlank(buflen, Front(t));
    WriteTrailer(w, offlen, reflen, objects, reftaboffset);
    WholeFile(Front(t), Trailer(offlen, reflen, objects, reftaboffset), Slack(t));
    out := Some(w.data);
  }

  /** Magic, objects and offset table. */
  method WriteFront(w: Writer, t: Tree, reflen: nat, offlen: nat) returns (reftaboffset: nat)
    requires WellTyped(t) && w.dataidx == 0 && w.reftabidx == 0 && |w.reftab| == Objects(t)
    requires reflen == RefLength(t) && offlen == OffsetLength(t) && |Front(t)| <= |w.data|
    modifies w
    ensures w.dataidx == |Front(t)| && w.data == Patched(old(w.data), 0, Front(t)) && reftaboffset == TableOffset(t)
  {
    w.PutBytes(Magic);
    var rootid := w.SerializeObject(t, reflen);
    PatchAppend(old(w.data), 0, Magic, Encoded(t, 0, reflen));
    WholeTable(old(w.reftab), Offsets(t, 8, 0, reflen));
    reftaboffset := w.dataidx;
    WriteTable(w, offlen);
    PatchAppend(old(w.data), 0, Magic + Encoded(t, 0, reflen), Table(Offsets(t, 8, 0, reflen), offlen));
  }

  lemma StillBlank(size: nat, front: seq<Byte>)
    requires |front| + 6 <= size
    ensures Patched(Zeros(size), 0, front)[|front|..|front| + 6] == Zeros(6)
  {
    PatchedIs(Zeros(size), 0, front);
  }

  lemma WholeFile(front: seq<Byte>, trailer: seq<Byte>, slack: nat)
    ensures var blank := Zeros(|front| + |trailer| + slack);
            Patched(Patched(blank, 0, front), |front|, trailer) == front + trailer + Zeros(slack)
  {
    var blank, whole := Zeros(|front| + |trailer| + slack), front + trailer;
    PatchAppend(blank, 0, front, trailer);
    PatchedIs(blank, 0, whole);
    ZerosDrop(|whole| + slack, |whole|);
    assert blank[..0] + whole == whole;
  }

  lemma ZerosDrop(n: nat, k: nat)
    requires k <= n
    ensures Zeros(n)[k..] == Zeros(n - k) && Zeros(n)[..k] == Zeros(k)
  {
  }

  lemma WholeTable(s: seq<int>, a: seq<int>)
    requires |s| == |a|
    ensures Patched(s, 0, a) == a
  {
    PatchedIs(s, 0, a);
  }

  /** The offset table behind the objects. */
  method WriteTable(w: Writer, offlen: nat)
    requires w.dataidx + Span(|w.reftab|, offlen) <= |w.data|
    modifies w`data, w`dataidx
    ensures w.dataidx == old(w.dataidx) + Span(|w.reftab|, offlen)
    ensures w.data == Patched(old(w.data), old(w.dataidx), Table(w.reftab, offlen))
  {
    var i := 0;
    ghost var D, end := Patched(w.data, w.dataidx, Table(w.reftab, offlen)), w.dataidx + Span(|w.reftab|, offlen);
    assert w.reftab[0..] == w.reftab;
    while i < |w.reftab|
      invariant 0 <= i <= |w.reftab| && w.dataidx + Span(|w.reftab| - i, offlen) == end <= |w.data|
      invariant Patched(w.data, w.dataidx, Table(w.reftab[i..], offlen)) == D
    {
      ghost var rest := w.reftab[i..];
      assert rest[0] == w.reftab[i] && rest[1..] == w.reftab[i + 1..];
      PatchAppend(w.data, w.dataidx, BigEndian(rest[0], offlen), Table(rest[1..], offlen));
      w.dataidx := w.PutInteger(w.dataidx, offlen, w.reftab[i]);
      i := i + 1;
    }
    assert w.reftab[i..] == [];
    PatchNothing(w.data, w.dataidx);
  }

  /** The trailer: six unused bytes, then the five numbers. */
  method WriteTrailer(w: Writer, offlen: nat, reflen: nat, objects: nat, reftaboffset: nat)
    requires w.dataidx + TrailerLength <= |w.data|
    requires w.data[w.dataidx..w.dataidx + 6] == Zeros(6)
    modifies w`data, w`dataidx
    ensures w.dataidx == old(w.dataidx) + TrailerLength
    ensures w.data == Patched(old(w.data), old(w.dataidx), Trailer(offlen, reflen, objects, reftaboffset))
  {
    ghost var s, i := w.data, w.dataidx;
    PatchedIs(s, i, Zeros(6));
    assert s[..i] + Zeros(6) + s[i + 6..] == s;
    w.dataidx := w.dataidx + 6;
    w.dataidx := w.PutInteger(w.dataidx, 1, offlen);
    PatchAppend(s, i, Zeros(6), BigEndian(offlen, 1));
    w.dataidx := w.PutInteger(w.dataidx, 1, reflen);
    PatchAppend(s, i, Zeros(6) + BigEndian(offlen, 1), BigEndian(reflen, 1));
    w.dataidx := w.PutInteger(w.dataidx, 8, objects);
    ghost var a := Zeros(6) + BigEndian(offlen, 1) + BigEndian(reflen, 1);
    PatchAppend(s, i, a, BigEndian(objects, 8));
    w.dataidx := w.PutInteger(w.dataidx, 8, 0);
    PatchAppend(s, i, a + BigEndian(objects, 8), BigEndian(0, 8));
    w.dataidx := w.PutInteger(w.dataidx, 8, reftaboffset);
    PatchAppend(s, i, a + BigEndian(objects, 8) + BigEndian(0, 8), BigEndian(reftaboffset, 8));
  }
}
