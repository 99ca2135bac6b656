/** How deep the reader of property lists can go: an object that is read at any depth of
    recursion is read within as many levels as there are objects. */
module PlistDepth {
  import opened Bytes
  import opened PlistFormat
  import opened PlistReader

  /** What the reader works on. */
  datatype Source = Source(reftab: seq<int>, data: seq<Byte>, reflen: nat)

  /** Object id is read as t with this much fuel. Lemma ReadsIs opens the definition. */
  ghost predicate Reads(f: Source, id: int, t: Tree, fuel: nat, fold: nat := 3) {
    if fold > 0 then Reads(f, id, t, fuel, fold - 1) else ObjectAt(f.reftab, id, f.data, f.reflen, fuel) == Some(t)
  }

  lemma {:induction false} ReadsIs(f: Source, id: int, t: Tree, fuel: nat, fold: nat := 3)
    ensures Reads(f, id, t, fuel, fold) <==> ObjectAt(f.reftab, id, f.data, f.reflen, fuel) == Some(t)
  {
    if fold > 0 {
      ReadsIs(f, id, t, fuel, fold - 1);
    }
  }

  /** What is read below t with fuel a is also read with fuel b. */
  ghost predicate Carries(f: Source, t: Tree, a: nat, b: nat) {
    forall id: int, x :: Objects(x) < Objects(t) && Reads(f, id, x, a) ==> Reads(f, id, x, b)
  }

  ghost predicate Below(items: seq<Tree>, t: Tree) {
    forall i :: 0 <= i < |items| ==> Objects(items[i]) < Objects(t)
  }

  /** The n references at `refs` are read as these items. Lemma RowIs opens the
      definition. */
  ghost predicate Row(f: Source, refs: nat, n: nat, items: seq<Tree>, fuel: nat, fold: nat := 3) {
    if fold > 0 then Row(f, refs, n, items, fuel, fold - 1)
    else ItemsAt(f.reftab, refs, n, f.data, f.reflen, fuel) == Some(items)
  }

  lemma {:induction false} RowIs(f: Source, refs: nat, n: nat, items: seq<Tree>, fuel: nat, fold: nat := 3)
    ensures Row(f, refs, n, items, fuel, fold) <==> ItemsAt(f.reftab, refs, n, f.data, f.reflen, fuel) == Some(items)
  {
    if fold > 0 {
      RowIs(f, refs, n, items, fuel, fold - 1);
    }
  }

  /** A row is its first item and the rest. */
  lemma RowNext(f: Source, refs: nat, n: nat, items: seq<Tree>, fuel: nat)
    requires n > 0
    ensures Row(f, refs, n, items, fuel) <==>
              && items != [] && refs + f.reflen <= |f.data| && IntegerAt(f.data, refs, f.reflen).Some?
              && Reads(f, IntegerAt(f.data, refs, f.reflen).value, items[0], fuel)
              && Row(f, refs + f.reflen, n - 1, items[1..], fuel)
  {
    RowIs(f, refs, n, items, fuel);
    ItemsNext(f.reftab, refs, n, f.data, f.reflen, fuel);
    if items != [] && refs + f.reflen <= |f.data| && IntegerAt(f.data, refs, f.reflen).Some? {
      ReadsIs(f, IntegerAt(f.data, refs, f.reflen).value, items[0], fuel);
      RowIs(f, refs + f.reflen, n - 1, items[1..], fuel);
      assert items == [items[0]] + items[1..];
    }
  }

  lemma {:induction false} RowCarries(f: Source, refs: nat, n: nat, items: seq<Tree>, t: Tree, a: nat, b: nat)
    requires Carries(f, t, a, b) && Row(f, refs, n, items, a) && Below(items, t)
    ensures Row(f, refs, n, items, b)
    decreases n
  {
    if n == 0 {
      RowIs(f, refs, 0, items, a);
      RowIs(f, refs, 0, items, b);
    } else {
      RowNext(f, refs, n, items, a);
      RowNext(f, refs, n, items, b);
      assert forall i :: 0 <= i < |items| - 1 ==> items[1..][i] == items[i + 1];
      RowCarries(f, refs + f.reflen, n - 1, items[1..], t, a, b);
    }
  }

  lemma ItemsCarry(f: Source, refs: nat, n: nat, t: Tree, a: nat, b: nat)
    requires Carries(f, t, a, b)
    requires var r := ItemsAt(f.reftab, refs, n, f.data, f.reflen, a); r.Some? && Below(r.value, t)
    ensures ItemsAt(f.reftab, refs, n, f.data, f.reflen, b) == ItemsAt(f.reftab, refs, n, f.data, f.reflen, a)
  {
    var items := ItemsAt(f.reftab, refs, n, f.data, f.reflen, a).value;
    RowIs(f, refs, n, items, a);
    RowCarries(f, refs, n, items, t, a, b);
    RowIs(f, refs, n, items, b);
  }

  lemma {:induction false} ItemsBelow(items: seq<Tree>, i: nat)
    requires i < |items|
    ensures Objects(items[i]) <= ItemObjects(items)
  {
    if i > 0 {
      ItemsBelow(items[1..], i - 1);
    }
  }

  lemma {:induction false} ValuesBelow(keys: seq<seq<Byte>>, values: seq<Tree>, i: nat)
    requires i < |keys| == |values|
    ensures Objects(values[i]) <= EntryObjects(Zip(keys, values))
  {
    if i > 0 {
      ValuesBelow(keys[1..], values[1..], i - 1);
    }
  }

  lemma {:induction false} StringItems(items: seq<Tree>, i: nat)
    requires Strings(items).Some? && i < |items|
    ensures items[i].String? && |Strings(items).value| == |items|
  {
    if i > 0 {
      StringItems(items[1..], i - 1);
    }
    if |items| == 1 {
      assert Strings(items[1..]) == Some([]);
    } else if i == 0 {
      StringItems(items[1..], 0);
    }
  }

  /** Keys and values lie below their dictionary. */
  lemma PairsBelow(keys: seq<Tree>, values: seq<Tree>)
    requires |keys| == |values| && Paired(Some(keys), Some(values)).Some?
    ensures var t := Dict(Paired(Some(keys), Some(values)).value); Below(keys, t) && Below(values, t)
  {
    var texts, t := Strings(keys).value, Dict(Paired(Some(keys), Some(values)).value);
    forall i | 0 <= i < |keys|
      ensures Objects(keys[i]) < Objects(t) && Objects(values[i]) < Objects(t)
    {
      StringItems(keys, i);
      ValuesBelow(texts, values, i);
    }
  }

  lemma EntriesCarry(f: Source, refs: nat, n: nat, a: nat, b: nat)
    requires var r := EntriesAt(f.reftab, refs, n, f.data, f.reflen, a); r.Some? && Carries(f, Dict(r.value), a, b)
    ensures EntriesAt(f.reftab, refs, n, f.data, f.reflen, b) == EntriesAt(f.reftab, refs, n, f.data, f.reflen, a)
  {
    var t := Dict(EntriesAt(f.reftab, refs, n, f.data, f.reflen, a).value);
    var keys := ItemsAt(f.reftab, refs, n, f.data, f.reflen, a).value;
    var values := ItemsAt(f.reftab, refs + Span(n, f.reflen), n, f.data, f.reflen, a).value;
    PairsBelow(keys, values);
    ItemsCarry(f, refs, n, t, a, b);
    ItemsCarry(f, refs + Span(n, f.reflen), n, t, a, b);
  }

  /** One level of the reader. */
  lemma LevelCarries(f: Source, id: int, t: Tree, a: nat, b: nat)
    requires Reads(f, id, t, a + 1) && Carries(f, t, a, b)
    ensures Reads(f, id, t, b + 1) && 0 <= id < |f.reftab|
  {
    ReadsIs(f, id, t, a + 1);
    ReadsIs(f, id, t, b + 1);
    var (length, start) := LengthAt(f.data, f.reftab[id]).value;
    if t.Array? {
      forall i | 0 <= i < |t.items|
        ensures Objects(t.items[i]) < Objects(t)
      {
        ItemsBelow(t.items, i);
      }
      ItemsCarry(f, start, length, t, a, b);
    } else if t.Dict? {
      EntriesCarry(f, start, length, a, b);
    }
  }

  /** More fuel reads no less. */
  lemma {:induction false} MoreFuel(f: Source, id: int, t: Tree, a: nat, b: nat)
    requires Reads(f, id, t, a) && a <= b
    ensures Reads(f, id, t, b)
    decreases a
  {
    ReadsIs(f, id, t, a);
    var less: nat, more: nat := a - 1, b - 1;
    forall id': int, x | Objects(x) < Objects(t) && Reads(f, id', x, less)
      ensures Reads(f, id', x, more)
    {
      MoreFuel(f, id', x, less, more);
    }
    LevelCarries(f, id, t, less, more);
  }

  /** The object o is being read, and t lies below it. */
  ghost predicate Holds(f: Source, o: int, t: Tree) {
    0 <= o < |f.reftab| && exists u, fuel: nat :: Reads(f, o, u, fuel) && Objects(u) > Objects(t)
  }

  /** An object cannot lie below itself. */
  lemma NotInside(f: Source, id: int, t: Tree, fuel: nat)
    requires Reads(f, id, t, fuel)
    ensures !Holds(f, id, t)
  {
    forall u, k: nat | Reads(f, id, u, k)
      ensures u == t
    {
      var most := if k > fuel then k else fuel;
      MoreFuel(f, id, t, fuel, most);
      MoreFuel(f, id, u, k, most);
      ReadsIs(f, id, t, most);
      ReadsIs(f, id, u, most);
    }
  }

  /** The numbers below n. */
  function Interval(n: nat): (s: set<int>)
    ensures |s| == n && forall x :: x in s <==> 0 <= x < n
  {
    if n == 0 then {} else Interval(n - 1) + {n - 1}
  }

  lemma Counted(s: set<int>, n: nat)
    requires forall x :: x in s ==> 0 <= x < n
    ensures |s| <= n
  {
    var all := Interval(n);
    assert all * s == s;
    assert |all - s| == |all| - |all * s|;
  }

  /** Below the objects that are being read, the rest of the levels suffices. */
  lemma {:induction false} Shallow(f: Source, id: int, t: Tree, fuel: nat, open: set<int>)
    requires Reads(f, id, t, fuel) && forall o :: o in open ==> Holds(f, o, t)
    ensures |open| < |f.reftab| && Reads(f, id, t, |f.reftab| - |open|)
    decreases fuel
  {
    ReadsIs(f, id, t, fuel);
    NotInside(f, id, t, fuel);
    var open' := open + {id};
    Counted(open', |f.reftab|);
    var less: nat, rest: nat := fuel - 1, |f.reftab| - |open'|;
    forall id': int, x | Objects(x) < Objects(t) && Reads(f, id', x, less)
      ensures Reads(f, id', x, rest)
    {
      assert forall o :: o in open' ==> Holds(f, o, x);
      Shallow(f, id', x, less, open');
    }
    LevelCarries(f, id, t, less, rest);
  }

  /** As many levels as there are objects are enough for every buffer, cyclic references
      included: no depth of recursion reads anything else. */
  lemma FuelSuffices(reftab: seq<int>, id: int, data: seq<Byte>, reflen: nat, fuel: nat)
    requires fuel >= |reftab|
    ensures ObjectAt(reftab, id, data, reflen, fuel) == ObjectAt(reftab, id, data, reflen, |reftab|)
  {
    var f := Source(reftab, data, reflen);
    var deep, enough := ObjectAt(reftab, id, data, reflen, fuel), ObjectAt(reftab, id, data, reflen, |reftab|);
    if deep.Some? {
      ReadsIs(f, id, deep.value, fuel);
      Shallow(f, id, deep.value, fuel, {});
      ReadsIs(f, id, deep.value, |reftab|);
    } else if enough.Some? {
      ReadsIs(f, id, enough.value, |reftab|);
      MoreFuel(f, id, enough.value, |reftab|, fuel);
      ReadsIs(f, id, enough.value, fuel);
    }
  }
}
