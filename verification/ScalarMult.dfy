/** Scalar multiplication in ed25519/ge.c over any commutative group: the signed-window
    combination a*A + b*B, and the fixed-base radix-16 multiplication. */
module ScalarMult {
  import opened Arith
  import opened Bytes
  import opened Groups
  import opened Recoding

  /** The multiples 1, 3, 5, ... 15 of an element. */
  ghost predicate AreOddMultiples<G(!new)>(g: Group<G>, t: seq<G>, x: G) {
    |t| == 8 && forall k :: 0 <= k < 8 ==> t[k] == Times(g, 2 * k + 1, x)
  }

  /** The same, folded: lemma OddMultiplesAre opens it. */
  ghost predicate OddMultiples<G(!new)>(g: Group<G>, t: seq<G>, x: G, fold: nat := 3) {
    if fold == 0 then AreOddMultiples(g, t, x) else OddMultiples(g, t, x, fold - 1)
  }

  lemma {:induction false} OddMultiplesAre<G(!new)>(g: Group<G>, t: seq<G>, x: G, fold: nat := 3)
    ensures OddMultiples(g, t, x, fold) <==> AreOddMultiples(g, t, x)
  {
    if fold > 0 {
      OddMultiplesAre(g, t, x, fold - 1);
    }
  }

  /** ge_double_scalarmult_vartime's table of A: each entry is the one before plus 2A. */
  method OddTable<G(!new)>(g: Group<G>, x: G) returns (t: seq<G>)
    requires Abelian(g)
    ensures OddMultiples(g, t, x)
  {
    t := [x];
    TimesOne(g, x);
    var double := g.add(x, x);
    var k := 1;
    while k < 8
      invariant 1 <= k <= 8 && |t| == k
      invariant forall j :: 0 <= j < k ==> t[j] == Times(g, 2 * j + 1, x)
    {
      TimesAdd(g, 2, 2 * k - 1, x);
      t := t + [g.add(double, t[k - 1])];
      k := k + 1;
    }
    OddMultiplesAre(g, t, x);
  }

  /** Adds or subtracts the table entry for a digit. */
  method AddDigit<G(!new)>(g: Group<G>, t: G, table: seq<G>, ghost x: G, digit: int) returns (u: G)
    requires Abelian(g) && OddMultiples(g, table, x)
    requires IsDigit(digit)
    ensures u == g.add(t, Times(g, digit, x))
  {
    u := t;
    OddMultiplesAre(g, table, x);
    if digit > 0 {
      u := g.add(t, table[digit / 2]);
    } else if digit < 0 {
      TimesNeg(g, -digit, x);
      u := g.add(t, g.neg(table[(-digit) / 2]));
    } else {
      Zero(g, t);
    }
  }

  /** Doubling and adding two digits moves one place down. */
  lemma HornerStep<G(!new)>(g: Group<G>, m: int, n: int, d: int, e: int, x: G, y: G)
    requires Abelian(g)
    ensures var r := g.add(Times(g, m, x), Times(g, n, y));
            g.add(g.add(g.add(r, r), Times(g, d, x)), Times(g, e, y)) == g.add(Times(g, d + 2 * m, x),
                Times(g, e + 2 * n, y))
  {
    var r := g.add(Times(g, m, x), Times(g, n, y));
    PairAdd(g, m, n, m, n, x, y);
    Assoc(g, g.add(r, r), Times(g, d, x), Times(g, e, y));
    PairAdd(g, 2 * m, 2 * n, d, e, x, y);
  }

  /** ge_double_scalarmult_vartime: a times A plus b times B. The table of B is the
      precomputed one. */
  method DoubleScalarMult<G(!new)>(g: Group<G>, a: seq<Byte>, A: G, b: seq<Byte>, Bi: seq<G>, ghost B: G) returns (r: G)
    requires Abelian(g) && OddMultiples(g, Bi, B) && 8 * |a| == 8 * |b| == 256
    requires LittleEndian(a) <= Pow2(8 * |a| - 1) && LittleEndian(b) <= Pow2(8 * |b| - 1)
    ensures r == Pair(g, LittleEndian(a), A, LittleEndian(b), B)
  {
    var aslide, bslide := new int[256], new int[256];
    Slide(aslide, a);
    Slide(bslide, b);
    var Ai := OddTable(g, A);
    r := Combine(g, aslide[..], A, Ai, bslide[..], B, Bi);
  }

  /** The highest place where either scalar has a digit, or -1. */
  method TopDigit(aslide: seq<int>, bslide: seq<int>) returns (i: int)
    requires |aslide| == |bslide|
    ensures -1 <= i < |aslide|
    ensures Binary(aslide[i + 1..]) == 0 && Binary(bslide[i + 1..]) == 0
  {
    i := |aslide| - 1;
    while i >= 0
      invariant -1 <= i < |aslide|
      invariant Binary(aslide[i + 1..]) == 0 && Binary(bslide[i + 1..]) == 0
    {
      if aslide[i] != 0 || bslide[i] != 0 {
        break;
      }
      assert aslide[i..][1..] == aslide[i + 1..] && bslide[i..][1..] == bslide[i + 1..];
      i := i - 1;
    }
  }

  /** m*x + n*y, the value carried through the loop. */
  ghost function Pair<G>(g: Group<G>, m: int, x: G, n: int, y: G): G {
    g.add(Times(g, m, x), Times(g, n, y))
  }

  lemma PairZero<G(!new)>(g: Group<G>, x: G, y: G)
    requires Abelian(g)
    ensures Pair(g, 0, x, 0, y) == g.zero
  {
    Zero(g, g.zero);
  }

  lemma BinaryTail(s: seq<int>, i: nat)
    requires i < |s|
    ensures Binary(s[i..]) == s[i] + 2 * Binary(s[i + 1..])
  {
    assert s[i..][1..] == s[i + 1..];
  }

  /** One turn: double, then add or subtract a table entry for each digit. */
  method DigitStep<G(!new)>(g: Group<G>, r: G, ghost m: int, d: int, ghost A: G, Ai: seq<G>,
                            ghost n: int, e: int, ghost B: G, Bi: seq<G>) returns (u: G)
    requires Abelian(g) && OddMultiples(g, Ai, A) && OddMultiples(g, Bi, B)
    requires IsDigit(d) && IsDigit(e) && r == Pair(g, m, A, n, B)
    ensures u == Pair(g, d + 2 * m, A, e + 2 * n, B)
  {
    HornerStep(g, m, n, d, e, A, B);
    u := g.add(r, r);
    u := AddDigit(g, u, Ai, A, d);
    u := AddDigit(g, u, Bi, B, e);
  }

  /** The state of the loop: the digits from place i on have been used. */
  ghost predicate IsAccumulated<G(!new)>(g: Group<G>, aslide: seq<int>, A: G, bslide: seq<int>, B: G, i: nat, r: G) {
    && i <= |aslide| == |bslide| && Recoded(aslide) && Recoded(bslide)
    && r == Pair(g, Binary(aslide[i..]), A, Binary(bslide[i..]), B)
  }

  /** The same, folded: lemma AccumulatedIs opens it. */
  ghost predicate Accumulated<G(!new)>(g: Group<G>, aslide: seq<int>, A: G, bslide: seq<int>, B: G, i: nat, r: G,
      fold: nat := 3) {
    if fold == 0 then IsAccumulated(g, aslide, A, bslide, B, i, r)
    else Accumulated(g, aslide, A, bslide, B, i, r, fold - 1)
  }

  lemma {:induction false} AccumulatedIs<G(!new)>(g: Group<G>, aslide: seq<int>, A: G, bslide: seq<int>, B: G, i: nat,
      r: G, fold: nat := 3)
    ensures Accumulated(g, aslide, A, bslide, B, i, r, fold) <==> IsAccumulated(g, aslide, A, bslide, B, i, r)
  {
    if fold > 0 {
      AccumulatedIs(g, aslide, A, bslide, B, i, r, fold - 1);
    }
  }

  lemma AccumulatedStart<G(!new)>(g: Group<G>, aslide: seq<int>, A: G, bslide: seq<int>, B: G, i: nat)
    requires Abelian(g) && i <= |aslide| == |bslide| && Recoded(aslide) && Recoded(bslide)
    requires Binary(aslide[i..]) == 0 && Binary(bslide[i..]) == 0
    ensures Accumulated(g, aslide, A, bslide, B, i, g.zero)
  {
    PairZero(g, A, B);
    AccumulatedIs(g, aslide, A, bslide, B, i, g.zero);
  }

  lemma AccumulatedEnd<G(!new)>(g: Group<G>, aslide: seq<int>, A: G, bslide: seq<int>, B: G, r: G)
    requires Accumulated(g, aslide, A, bslide, B, 0, r)
    ensures r == Pair(g, Binary(aslide), A, Binary(bslide), B)
  {
    AccumulatedIs(g, aslide, A, bslide, B, 0, r);
    assert aslide[0..] == aslide && bslide[0..] == bslide;
  }

  /** The turn of the loop at place i. */
  method PlaceStep<G(!new)>(g: Group<G>, aslide: seq<int>, ghost A: G, Ai: seq<G>, bslide: seq<int>, ghost B: G, Bi: seq<G>,
                            i: nat, r: G) returns (u: G)
    requires Abelian(g) && OddMultiples(g, Ai, A) && OddMultiples(g, Bi, B)
    requires i < |aslide| == |bslide| && Accumulated(g, aslide, A, bslide, B, i + 1, r)
    ensures Accumulated(g, aslide, A, bslide, B, i, u)
  {
    AccumulatedIs(g, aslide, A, bslide, B, i + 1, r);
    BinaryTail(aslide, i);
    BinaryTail(bslide, i);
    u := DigitStep(g, r, Binary(aslide[i + 1..]), aslide[i], A, Ai, Binary(bslide[i + 1..]), bslide[i], B, Bi);
    AccumulatedIs(g, aslide, A, bslide, B, i, u);
  }

  /** The loop over the digits, from the highest nonzero one down. */
  method Combine<G(!new)>(g: Group<G>, aslide: seq<int>, ghost A: G, Ai: seq<G>, bslide: seq<int>, ghost B: G, Bi: seq<G>)
    returns (r: G)
    requires Abelian(g) && OddMultiples(g, Ai, A) && OddMultiples(g, Bi, B)
    requires |aslide| == |bslide| && Recoded(aslide) && Recoded(bslide)
    ensures r == Pair(g, Binary(aslide), A, Binary(bslide), B)
  {
    r := g.zero;
    var i := TopDigit(aslide, bslide);
    AccumulatedStart(g, aslide, A, bslide, B, i + 1);
    while i >= 0
      invariant -1 <= i < |aslide| && Accumulated(g, aslide, A, bslide, B, i + 1, r)
    {
      r := PlaceStep(g, aslide, A, Ai, bslide, B, Bi, i, r);
      i := i - 1;
    }
    AccumulatedEnd(g, aslide, A, bslide, B, r);
  }

  // Radix 16

  /** Digits read in base sixteen, least significant first. */
  function Hexadecimal(e: seq<int>): int {
    if e == [] then 0 else e[0] + 16 * Hexadecimal(e[1..])
  }

  /** base[pos][j] is (j + 1) * 256^pos * B. */
  ghost predicate IsBaseTable<G(!new)>(g: Group<G>, base: seq<seq<G>>, B: G) {
    && |base| == 32
    && forall pos :: 0 <= pos < 32 ==> BaseRow(g, base[pos], Times(g, Radix(pos), B))
  }

  ghost predicate BaseRow<G>(g: Group<G>, row: seq<G>, unit: G) {
    |row| == 8 && forall j :: 0 <= j < 8 ==> row[j] == Times(g, j + 1, unit)
  }

  /** The same, folded: lemma BaseTableIs opens it. */
  ghost predicate BaseTable<G(!new)>(g: Group<G>, base: seq<seq<G>>, B: G, fold: nat := 3) {
    if fold == 0 then IsBaseTable(g, base, B) else BaseTable(g, base, B, fold - 1)
  }

  lemma {:induction false} BaseTableIs<G(!new)>(g: Group<G>, base: seq<seq<G>>, B: G, fold: nat := 3)
    ensures BaseTable(g, base, B, fold) <==> IsBaseTable(g, base, B)
  {
    if fold > 0 {
      BaseTableIs(g, base, B, fold - 1);
    }
  }

  /** select: the table entry for |b|, negated for negative b, looked up by comparing
      with every entry. */
  method Select<G(!new)>(g: Group<G>, base: seq<seq<G>>, ghost B: G, pos: nat, b: int) returns (t: G)
    requires Abelian(g) && BaseTable(g, base, B) && pos < 32 && -8 <= b <= 8
    ensures t == Times(g, b * Radix(pos), B)
  {
    var babs := if b < 0 then -b else b;
    ghost var unit := Times(g, Radix(pos), B);
    BaseTableIs(g, base, B);
    assert BaseRow(g, base[pos], unit);
    t := Lookup(g, base[pos], unit, babs);
    TimesMul(g, babs, Radix(pos), B);
    if b < 0 {
      TimesNeg(g, babs * Radix(pos), B);
      NegMul(babs, Radix(pos));
      t := g.neg(t);
    }
  }

  lemma NegMul(x: int, y: int)
    ensures (-x) * y == -(x * y)
  {
  }

  /** The constant-time lookup. */
  method Lookup<G>(g: Group<G>, row: seq<G>, ghost unit: G, babs: nat) returns (t: G)
    requires BaseRow(g, row, unit) && babs <= 8
    ensures t == Times(g, babs, unit)
  {
    t := g.zero;
    var j := 0;
    while j < 8
      invariant 0 <= j <= 8
      invariant t == if 1 <= babs <= j then Times(g, babs, unit) else g.zero
    {
      if babs == j + 1 {
        t := row[j];
      }
      j := j + 1;
    }
  }

  /** The recoding of ge_scalarmult_base: from digits 0..15 to -8..8, the last one
      taking the final carry. */
  method Balance(e: array<int>)
    requires e.Length >= 1 && (forall k :: 0 <= k < e.Length ==> 0 <= e[k] <= 15) && e[e.Length - 1] <= 7
    modifies e
    ensures forall k :: 0 <= k < e.Length ==> -8 <= e[k] <= 8
    ensures Hexadecimal(e[..]) == old(Hexadecimal(e[..]))
  {
    var carry, i := 0, 0;
    assert e[0..] == e[..] && e[..0] == [];
    while i < e.Length - 1
      invariant 0 <= i <= e.Length - 1 && 0 <= carry <= 1
      invariant forall k :: 0 <= k < i ==> -8 <= e[k] <= 7
      invariant forall k :: i <= k < e.Length ==> 0 <= e[k] <= 15
      invariant e[e.Length - 1] <= 7
      invariant Hexadecimal(e[..i]) + Weight(i) * (Hexadecimal(e[i..]) + carry) == old(Hexadecimal(e[..]))
    {
      carry := BalanceDigit(e, i, carry);
      i := i + 1;
    }
    ghost var s := e[..];
    BalanceLast(s, i, carry);
    e[i] := e[i] + carry;
    assert e[..] == s[i := s[i] + carry];
  }

  /** One digit of the recoding: it keeps the total of the digits so far and of those to
      come with the carry. */
  method BalanceDigit(e: array<int>, i: nat, c: int) returns (carry: int)
    requires i < e.Length && 0 <= e[i] <= 15 && 0 <= c <= 1
    modifies e
    ensures forall k :: 0 <= k < e.Length && k != i ==> e[k] == old(e[k])
    ensures -8 <= e[i] <= 7 && 0 <= carry <= 1
    ensures Hexadecimal(e[..i + 1]) + Weight(i + 1) * (Hexadecimal(e[i + 1..]) + carry)
            == old(Hexadecimal(e[..i])) + Weight(i) * (old(Hexadecimal(e[i..])) + c)
  {
    ghost var s := e[..];
    e[i] := e[i] + c;
    carry := (e[i] + 8) / 16;
    e[i] := e[i] - 16 * carry;
    BalanceStep(s, i, c, carry, e[i]);
    assert e[..] == s[i := e[i]] && e[..][..i + 1] == e[..i + 1] && e[..][i + 1..] == e[i + 1..];
    assert s[..i] == old(e[..i]) && s[i..] == old(e[i..]);
  }

  /** 16 to the power n. */
  function Weight(n: nat): int { if n == 0 then 1 else 16 * Weight(n - 1) }

  lemma {:induction false} HexSplit(e: seq<int>, i: nat)
    requires i <= |e|
    ensures Hexadecimal(e) == Hexadecimal(e[..i]) + Weight(i) * Hexadecimal(e[i..])
  {
    if i == 0 {
      assert e[..0] == [] && e[0..] == e;
    } else {
      HexSplit(e[1..], i - 1);
      assert e[1..][..i - 1] == e[..i][1..] && e[1..][i - 1..] == e[i..];
      MulAssoc(16, Weight(i - 1), Hexadecimal(e[i..]));
    }
  }

  lemma HexSnoc(s: seq<int>, i: nat)
    requires i < |s|
    ensures Hexadecimal(s[..i + 1]) == Hexadecimal(s[..i]) + Weight(i) * s[i]
  {
    var t := s[..i + 1];
    HexSplit(t, i);
    assert t[..i] == s[..i] && t[i..] == [s[i]] && Hexadecimal([s[i]][1..]) == 0;
  }

  lemma BalanceStep(s: seq<int>, i: nat, c: int, c': int, d: int)
    requires i < |s| && d == s[i] + c - 16 * c'
    ensures var t := s[i := d];
            Hexadecimal(t[..i + 1]) + Weight(i + 1) * (Hexadecimal(t[i + 1..]) + c')
            == Hexadecimal(s[..i]) + Weight(i) * (Hexadecimal(s[i..]) + c)
  {
    var t := s[i := d];
    HexSnoc(t, i);
    assert t[..i] == s[..i] && t[i + 1..] == s[i + 1..] && s[i..][1..] == s[i + 1..];
    var h := Hexadecimal(s[i + 1..]);
    assert Hexadecimal(s[i..]) == s[i] + 16 * h;
    CarryArith(Weight(i), s[i], c, c', h);
  }

  lemma CarryArith(w: int, x: int, c: int, c': int, h: int)
    ensures w * (x + c - 16 * c') + 16 * w * (h + c') == w * (x + 16 * h + c)
  {
    MulDist(w, x + c - 16 * c', 16 * (h + c'));
    MulAssoc(w, 16, h + c');
  }

  lemma BalanceLast(s: seq<int>, i: nat, c: int)
    requires i == |s| - 1
    ensures Hexadecimal(s[i := s[i] + c]) == Hexadecimal(s[..i]) + Weight(i) * (Hexadecimal(s[i..]) + c)
  {
    var t := s[i := s[i] + c];
    HexSplit(t, i);
    assert t[..i] == s[..i] && t[i..] == [s[i] + c] && s[i..] == [s[i]];
    assert [s[i] + c][1..] == [] && [s[i]][1..] == [];
  }

  /** The nibbles of a little-endian number have its value. */
  lemma {:induction false} NibblesValue(e: seq<int>, a: seq<Byte>)
    requires |e| == 2 * |a|
    requires forall k :: 0 <= k < |a| ==> e[2 * k] == a[k] % 16 && e[2 * k + 1] == a[k] / 16
    ensures Hexadecimal(e) == LittleEndian(a)
  {
    if a != [] {
      var rest := e[2..];
      assert e[1..][1..] == rest && e[0] == e[2 * 0] && e[1..][0] == e[2 * 0 + 1];
      forall k | 0 <= k < |a| - 1 ensures rest[2 * k] == a[1..][k] % 16 && rest[2 * k + 1] == a[1..][k] / 16 {
        assert rest[2 * k] == e[2 * (k + 1)] && rest[2 * k + 1] == e[2 * (k + 1) + 1];
      }
      NibblesValue(rest, a[1..]);
    }
  }

  /** Every second digit from `first` on, read in base 256: k of them. */
  function Alternate(e: seq<int>, first: nat, k: nat): int
    requires first <= 1 && 2 * k <= |e|
  {
    if k == 0 then 0 else Alternate(e, first, k - 1) + e[2 * (k - 1) + first] * Radix(k - 1)
  }

  lemma {:induction false} WeightOfPair(k: nat)
    ensures Weight(2 * k) == Radix(k) && Weight(2 * k + 1) == 16 * Radix(k)
  {
    if k > 0 {
      WeightOfPair(k - 1);
      assert Weight(2 * k) == 16 * Weight(2 * (k - 1) + 1);
    }
  }

  /** The two passes of the fixed-base loop read all the digits. */
  lemma {:induction false} TwoPasses(e: seq<int>, k: nat)
    requires 2 * k <= |e|
    ensures Hexadecimal(e[..2 * k]) == 16 * Alternate(e, 1, k) + Alternate(e, 0, k)
  {
    if k > 0 {
      var j := k - 1;
      TwoPasses(e, j);
      HexSnoc(e, 2 * j);
      HexSnoc(e, 2 * j + 1);
      WeightOfPair(j);
      assert 2 * j + 1 + 1 == 2 * k;
      PassArith(Radix(j), e[2 * j], e[2 * j + 1]);
    }
  }

  lemma PassArith(w: int, lo: int, hi: int)
    ensures w * lo + (16 * w) * hi == 16 * (hi * w) + lo * w
  {
  }

  lemma PassPosition(i: nat, first: nat)
    requires first <= 1 && first <= i && (i - first) % 2 == 0
    ensures (i - first) / 2 == i / 2 && i == 2 * (i / 2) + first
    ensures (i + 2 - first) / 2 == i / 2 + 1 && (i + 2 - first) % 2 == 0
  {
  }

  /** One table entry added. */
  method PassStep<G(!new)>(g: Group<G>, base: seq<seq<G>>, ghost B: G, pos: nat, digit: int, h: G, ghost n: int)
    returns (r: G)
    requires Abelian(g) && BaseTable(g, base, B) && pos < 32 && -8 <= digit <= 8 && h == Times(g, n, B)
    ensures r == Times(g, n + digit * Radix(pos), B)
  {
    var t := Select(g, base, B, pos, digit);
    TimesAdd(g, n, digit * Radix(pos), B);
    r := g.add(h, t);
  }

  /** One pass: adds the table entries of every second digit. */
  method Pass<G(!new)>(g: Group<G>, base: seq<seq<G>>, ghost B: G, e: seq<int>, first: nat, h: G, ghost n: int)
    returns (r: G)
    requires Abelian(g) && BaseTable(g, base, B) && |e| == 64 && first <= 1
    requires (forall k :: 0 <= k < 64 ==> -8 <= e[k] <= 8) && h == Times(g, n, B)
    ensures r == Times(g, n + Alternate(e, first, 32), B)
  {
    r := h;
    var i := first;
    while i < 64
      invariant first <= i <= 64 + first && (i - first) % 2 == 0
      invariant r == Times(g, n + Alternate(e, first, (i - first) / 2), B)
    {
      PassPosition(i, first);
      r := PassStep(g, base, B, i / 2, e[i], r, n + Alternate(e, first, i / 2));
      i := i + 2;
    }
    PassPosition(i, first);
  }

  /** ge_scalarmult_base: a times the base point, for the precomputed table. */
  method ScalarMultBase<G(!new)>(g: Group<G>, base: seq<seq<G>>, ghost B: G, a: seq<Byte>) returns (h: G)
    requires Abelian(g) && BaseTable(g, base, B) && |a| == 32 && a[31] <= 127
    ensures h == Times(g, LittleEndian(a), B)
  {
    var e := Nibbles(a);
    Balance(e);
    h := TwoPassSum(g, base, B, e[..]);
  }

  /** The 64 nibbles of the scalar. */
  method Nibbles(a: seq<Byte>) returns (e: array<int>)
    requires |a| == 32 && a[31] <= 127
    ensures fresh(e) && e.Length == 64 && (forall k :: 0 <= k < 64 ==> 0 <= e[k] <= 15) && e[63] <= 7
    ensures Hexadecimal(e[..]) == LittleEndian(a)
  {
    e := new int[64];
    var i := 0;
    while i < 32
      invariant 0 <= i <= 32
      invariant forall k :: 0 <= k < i ==> e[2 * k] == a[k] % 16 && e[2 * k + 1] == a[k] / 16
      invariant forall k :: 0 <= k < 2 * i ==> 0 <= e[k] <= 15
      invariant i == 32 ==> e[63] <= 7
    {
      e[2 * i], e[2 * i + 1] := a[i] % 16, a[i] / 16;
      i := i + 1;
    }
    NibblesValue(e[..], a);
  }

  /** Odd digits, four doublings, even digits. */
  method TwoPassSum<G(!new)>(g: Group<G>, base: seq<seq<G>>, ghost B: G, e: seq<int>) returns (h: G)
    requires Abelian(g) && BaseTable(g, base, B) && |e| == 64 && forall k :: 0 <= k < 64 ==> -8 <= e[k] <= 8
    ensures h == Times(g, Hexadecimal(e), B)
  {
    TwoPasses(e, 32);
    assert e[..2 * 32] == e;
    ghost var odd := Alternate(e, 1, 32);
    h := Pass(g, base, B, e, 1, g.zero, 0);
    h := SixteenFold(g, h, B, odd);
    h := Pass(g, base, B, e, 0, h, 16 * odd);
  }

  /** The four doublings between the passes. */
  method SixteenFold<G(!new)>(g: Group<G>, h: G, ghost B: G, ghost n: int) returns (r: G)
    requires Abelian(g) && h == Times(g, n, B)
    ensures r == Times(g, 16 * n, B)
  {
    TimesAdd(g, n, n, B);
    TimesAdd(g, 2 * n, 2 * n, B);
    TimesAdd(g, 4 * n, 4 * n, B);
    TimesAdd(g, 8 * n, 8 * n, B);
    r := g.add(h, h);
    r := g.add(r, r);
    r := g.add(r, r);
    r := g.add(r, r);
  }
}
