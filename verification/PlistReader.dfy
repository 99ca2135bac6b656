/** bplist_parse_object and plist_object_from_bplist. Every failure of the source returns
    a null pointer, here None. Recursion is bounded by `fuel`; the source follows
    references without a bound, and PlistDepth shows that the bound changes nothing that is
    read. */
module PlistReader {
  import opened Arith
  import opened Bytes
  import opened PlistFormat

  datatype Option<T> = None | Some(value: T)

  const TrailerLength: nat := 32

  /** parse_integer */
  function IntegerAt(data: seq<Byte>, off: nat, length: nat): Option<int>
    requires off + length <= |data|
  {
    if length == 1 || length == 2 || length == 4 then Some(Unsigned(data[off..off + length]))
    else if length == 8 then Some(Signed64(Unsigned(data[off..off + length])))
    else None
  }

  /** The length after a type byte at `off`, and where the content starts. The source
      shifts before it masks, (1 << lentype) & 0x0f. */
  function LengthOf(data: seq<Byte>, off: nat): (r: Option<(nat, nat)>)
    requires off < |data|
    ensures r.Some? ==> r.value.1 <= |data|
  {
    if data[off] % 16 < 15 then Some((data[off] % 16, off + 1))
    else if off + 1 >= |data| then None
    else
      var lentype := data[off + 1];
      var lenlength := Pow2(lentype) % 16;
      if lentype - lentype % 16 != 0x10 || off + 2 + lenlength > |data| then None
      else match IntegerAt(data, off + 2, lenlength)
        case None => None
        case Some(v) => if v < 0 then None else Some((v, off + 2 + lenlength))
  }

  /** The same, folded: lemma LengthAtIs opens it. */
  function LengthAt(data: seq<Byte>, off: nat, fold: nat := 3): (r: Option<(nat, nat)>)
    requires off < |data|
    ensures r.Some? ==> r.value.1 <= |data|
  {
    if fold > 0 then LengthAt(data, off, fold - 1) else LengthOf(data, off)
  }

  lemma {:induction false} LengthAtIs(data: seq<Byte>, off: nat, fold: nat := 3)
    requires off < |data|
    ensures LengthAt(data, off, fold) == LengthOf(data, off)
  {
    if fold > 0 {
      LengthAtIs(data, off, fold - 1);
    }
  }

  function ObjectAt(reftab: seq<int>, id: int, data: seq<Byte>, reflen: nat, fuel: nat): Option<Tree>
    decreases fuel, 0
  {
    if fuel == 0 || !(0 <= id < |reftab|) || !(0 <= reftab[id] < |data|) then None
    else
      var kind := data[reftab[id]] - data[reftab[id]] % 16;
      match LengthAt(data, reftab[id])
      case None => None
      case Some((length, start)) =>
        if kind == 0xA0 then
          if start + Span(length, reflen) > |data| then None
          else match ItemsAt(reftab, start, length, data, reflen, fuel - 1)
            case None => None
            case Some(items) => Some(Array(items))
        else if kind == 0xD0 then
          if start + Span(length, reflen) + Span(length, reflen) > |data| then None
          else match EntriesAt(reftab, start, length, data, reflen, fuel - 1)
            case None => None
            case Some(entries) => Some(Dict(entries))
        else LeafAt(kind, length, start, data)
  }

  /** Objects without references. A float read with a length below eight bytes near the
      end of the buffer is out of bounds in the source; here it fails. */
  function LeafAt(kind: nat, length: nat, start: nat, data: seq<Byte>): Option<Tree> {
    if kind == 0x00 then Some(Primitive(length))
    else if kind == 0x10 then
      if length > 14 || start + Pow2(length) > |data| then None
      else match IntegerAt(data, start, Pow2(length))
        case None => None
        case Some(v) => Some(Integer(v))
    else if kind == 0x20 then
      if length > 14 || start + Pow2(length) > |data| then None
      else if length == 2 then Some(Real(data[start..start + 4]))
      else if start + 8 > |data| then None
      else Some(Real(data[start..start + 8]))
    else if kind == 0x40 then
      if start + length > |data| then None else Some(Data(data[start..start + length]))
    else if kind == 0x50 then
      if start + length > |data| then None else Some(String(CString(data[start..start + length])))
    else None
  }

  /** n references at `refs`, each followed. */
  function ItemsAt(reftab: seq<int>, refs: nat, n: nat, data: seq<Byte>, reflen: nat, fuel: nat): (r: Option<seq<Tree>>)
    ensures r.Some? ==> |r.value| == n
    decreases fuel, 1, n
  {
    if n == 0 then Some([])
    else if refs + reflen > |data| then None
    else match IntegerAt(data, refs, reflen)
      case None => None
      case Some(id) =>
        match ObjectAt(reftab, id, data, reflen, fuel)
        case None => None
        case Some(first) =>
          match ItemsAt(reftab, refs + reflen, n - 1, data, reflen, fuel)
          case None => None
          case Some(rest) => Some([first] + rest)
  }

  function Strings(items: seq<Tree>): Option<seq<seq<Byte>>> {
    if items == [] then Some([])
    else if !items[0].String? then None
    else match Strings(items[1..])
      case None => None
      case Some(rest) => Some([items[0].text] + rest)
  }

  function Zip(keys: seq<seq<Byte>>, values: seq<Tree>): seq<Entry> {
    if keys == [] || values == [] then [] else [Entry(keys[0], values[0])] + Zip(keys[1..], values[1..])
  }

  /** n key references, then n value references. */
  function EntriesAt(reftab: seq<int>, refs: nat, n: nat, data: seq<Byte>, reflen: nat, fuel: nat): Option<seq<Entry>>
    decreases fuel, 2
  {
    Paired(ItemsAt(reftab, refs, n, data, reflen, fuel), ItemsAt(reftab, refs + Span(n, reflen), n, data, reflen, fuel))
  }

  /** Keys, all of them strings, and the values that go with them. */
  function Paired(keys: Option<seq<Tree>>, values: Option<seq<Tree>>): Option<seq<Entry>> {
    if keys.None? || Strings(keys.value).None? || values.None? then None
    else Some(Zip(Strings(keys.value).value, values.value))
  }

  /** A 64-bit number of the trailer, the last 32 bytes. */
  function TrailerNumber(data: seq<Byte>, at: nat): int
    requires |data| >= TrailerLength && at + 8 <= TrailerLength
  {
    var start := |data| - TrailerLength + at;
    Signed64(Unsigned(data[start..start + 8]))
  }

  /** The checks of plist_object_from_bplist on its trailer. */
  predicate TrailerAccepted(data: seq<Byte>) {
    |data| >= TrailerLength &&
    var offlen := data[|data| - TrailerLength + 6];
    var objects, rootid, reftaboffset := TrailerNumber(data, 8), TrailerNumber(data, 16), TrailerNumber(data, 24);
    && objects > 0 && 0 <= rootid < objects
    && reftaboffset >= 8 && reftaboffset + objects * offlen <= |data|
  }

  /** plist_object_from_bplist */
  function FromBplist(data: seq<Byte>): Option<Tree> {
    if !TrailerAccepted(data) then None
    else
      var trailer := |data| - TrailerLength;
      var offlen, reflen, objects := data[trailer + 6], data[trailer + 7], TrailerNumber(data, 8);
      ObjectAt(ReferenceTable(data, TrailerNumber(data, 24), offlen, objects), TrailerNumber(data, 16), data, reflen,
          objects)
  }

  /** The offset table; an entry of an impossible width stays zero. */
  function ReferenceTable(data: seq<Byte>, off: nat, offlen: nat, n: nat): (t: seq<int>)
    requires off + n * offlen <= |data|
    ensures |t| == n
    decreases n
  {
    if n == 0 then [] else
      MulDist(offlen, n - 1, 1);
      [match IntegerAt(data, off, offlen) case None => 0 case Some(v) => v]
      + ReferenceTable(data, off + offlen, offlen, n - 1)
  }

  // The parser itself, with its loops over references

  /** bplist_parse_object */
  method ParseObject(reftab: seq<int>, id: int, data: seq<Byte>, reflen: nat, fuel: nat) returns (obj: Option<Tree>)
    ensures obj == ObjectAt(reftab, id, data, reflen, fuel)
    decreases fuel, 0
  {
    if fuel == 0 || !(0 <= id < |reftab|) || !(0 <= reftab[id] < |data|) {
      return None;
    }
    var kind, header := data[reftab[id]] - data[reftab[id]] % 16, LengthAt(data, reftab[id]);
    if header.None? {
      return None;
    }
    var (length, start) := header.value;
    SpanIs(length, reflen);
    if kind == 0xA0 {
      if start + length * reflen > |data| {
        return None;
      }
      var items := ParseItems(reftab, start, length, data, reflen, fuel - 1);
      obj := if items.None? then None else Some(Array(items.value));
    } else if kind == 0xD0 {
      MulAssoc(2, length, reflen);
      if start + 2 * length * reflen > |data| {
        return None;
      }
      var entries := ParseEntries(reftab, start, length, data, reflen, fuel - 1);
      obj := if entries.None? then None else Some(Dict(entries.value));
    } else {
      obj := LeafAt(kind, length, start, data);
    }
  }

  /** Items read so far, and what the rest of the references gives. */
  function Joined(done: seq<Tree>, rest: Option<seq<Tree>>): Option<seq<Tree>> {
    if rest.None? then None else Some(done + rest.value)
  }

  /** The first of several references: whether it can be followed, and what comes before the others. */
  lemma ItemsNext(reftab: seq<int>, refs: nat, n: nat, data: seq<Byte>, reflen: nat, fuel: nat)
    requires n > 0
    ensures var r := ItemsAt(reftab, refs, n, data, reflen, fuel);
      if refs + reflen > |data| || IntegerAt(data, refs, reflen).None?
         || ObjectAt(reftab, IntegerAt(data, refs, reflen).value, data, reflen, fuel).None? then r == None
      else
        var first := ObjectAt(reftab, IntegerAt(data, refs, reflen).value, data, reflen, fuel).value;
        var rest := ItemsAt(reftab, refs + reflen, n - 1, data, reflen, fuel);
        r == if rest.None? then None else Some([first] + rest.value)
  {
  }

  /** The loop over a row of references. */
  method ParseItems(reftab: seq<int>, refs: nat, n: nat, data: seq<Byte>, reflen: nat,
      fuel: nat) returns (items: Option<seq<Tree>>)
    ensures items == ItemsAt(reftab, refs, n, data, reflen, fuel)
    decreases fuel, 1
  {
    var values: seq<Tree>, dataidx: nat, i := [], refs, 0;
    JoinedNothing(ItemsAt(reftab, refs, n, data, reflen, fuel));
    while i < n
      invariant 0 <= i <= n
      invariant Joined(values, ItemsAt(reftab, dataidx, n - i, data, reflen, fuel)) == ItemsAt(reftab, refs, n, data,
        reflen, fuel)
    {
      ItemsNext(reftab, dataidx, n - i, data, reflen, fuel);
      if dataidx + reflen > |data| {
        return None;
      }
      var id := IntegerAt(data, dataidx, reflen);
      if id.None? {
        return None;
      }
      var value := ParseObject(reftab, id.value, data, reflen, fuel);
      if value.None? {
        return None;
      }
      JoinedStep(values, value.value, ItemsAt(reftab, dataidx + reflen, n - i - 1, data, reflen, fuel));
      assert n - (i + 1) == n - i - 1;
      values, dataidx, i := values + [value.value], dataidx + reflen, i + 1;
    }
    items := Some(values);
    assert values + [] == values;
  }

  lemma JoinedNothing(rest: Option<seq<Tree>>)
    ensures Joined([], rest) == rest
  {
    if rest.Some? {
      assert [] + rest.value == rest.value;
    }
  }

  lemma JoinedStep(done: seq<Tree>, x: Tree, rest: Option<seq<Tree>>)
    ensures Joined(done, if rest.None? then None else Some([x] + rest.value)) == Joined(done + [x], rest)
  {
    if rest.Some? {
      assert done + ([x] + rest.value) == (done + [x]) + rest.value;
    }
  }

  /** The two loops of a dictionary. The source goes on to the values when a key fails,
      and gives up after both. */
  method ParseEntries(reftab: seq<int>, refs: nat, n: nat, data: seq<Byte>, reflen: nat,
      fuel: nat) returns (entries: Option<seq<Entry>>)
    ensures entries == EntriesAt(reftab, refs, n, data, reflen, fuel)
    decreases fuel, 2
  {
    var keys := ParseItems(reftab, refs, n, data, reflen, fuel);
    SpanIs(n, reflen);
    var values := ParseItems(reftab, refs + n * reflen, n, data, reflen, fuel);
    entries := Paired(keys, values);
  }
}
