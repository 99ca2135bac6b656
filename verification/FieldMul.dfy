/** fe_mul, fe_sq and fe_sq2 of ed25519/fe.c. Machine integers are range-checked types, so every
    sum and product below is shown not to overflow. */
module FieldMul {
  import opened Machine
  import opened FieldLimbs

  /** 1.65 * 2^26 and 1.65 * 2^25: the bounds the code states for its inputs. */
  const EVEN := 110729625
  const ODD := 55364812

  /** Above every column of a product, and above twice as much. */
  const COLUMN := 0x2800_0000_0000_0000
  const TWICE := 0x5000_0000_0000_0000

  predicate Below(x: int, b: int) { -b <= x <= b }

  predicate Bounded(x: Limbs, even: int, odd: int) {
    && Below(x.h0, even) && Below(x.h1, odd) && Below(x.h2, even) && Below(x.h3, odd) && Below(x.h4, even)
    && Below(x.h5, odd) && Below(x.h6, even) && Below(x.h7, odd) && Below(x.h8, even) && Below(x.h9, odd)
  }

  /** The input bounds of fe_mul, fe_sq and fe_sq2. */
  predicate Loose(x: Limbs) { Bounded(x, EVEN, ODD) }

  /** Their output bounds: 1.01 * 2^25 and 1.01 * 2^24. */
  predicate Tight(x: Limbs) { Bounded(x, 33889976, 16944988) }

  /** The limbs held in an array. */
  function Of(s: seq<Int32>): Limbs
    requires |s| == 10
  {
    Limbs(s[0], s[1], s[2], s[3], s[4], s[5], s[6], s[7], s[8], s[9])
  }

  lemma ProductBound(x: int, c: int, y: int, d: int)
    requires Below(x, c) && Below(y, d)
    ensures Below(x * y, c * d)
  {
    Arith.MulMonotone(if x < 0 then -x else x, c, d);
    Arith.MulMonotone(if y < 0 then -y else y, d, if x < 0 then -x else x);
  }

  /** The 64-bit product of two 32-bit words. */
  function Wide(x: Int32, y: Int32): (r: Int64)
    requires Below(x, 2 * EVEN) && Below(y, 19 * EVEN)
    ensures r as int == x * y && Below(r as int, 38 * EVEN * EVEN)
  {
    ProductBound(x, 2 * EVEN, y, 19 * EVEN);
    (x * y) as Int64
  }

  method MulColumn0(f: Limbs, g: Limbs) returns (h: Int64)
    requires Loose(f) && Loose(g)
    ensures h as int == Product(f, g).h0 && Below(h as int, TWICE)
  {
    Column0Is(f, g);
    h := Wide(f.h0, g.h0) + Wide(2 * f.h1, 19 * g.h9) + Wide(f.h2, 19 * g.h8) + Wide(2 * f.h3, 19 * g.h7)
        + Wide(f.h4, 19 * g.h6)
       + Wide(2 * f.h5, 19 * g.h5) + Wide(f.h6, 19 * g.h4) + Wide(2 * f.h7, 19 * g.h3) + Wide(f.h8, 19 * g.h2)
           + Wide(2 * f.h9, 19 * g.h1);
  }

  method MulColumn1(f: Limbs, g: Limbs) returns (h: Int64)
    requires Loose(f) && Loose(g)
    ensures h as int == Product(f, g).h1 && Below(h as int, TWICE)
  {
    Column1Is(f, g);
    h := Wide(f.h0, g.h1) + Wide(f.h1, g.h0) + Wide(f.h2, 19 * g.h9) + Wide(f.h3, 19 * g.h8) + Wide(f.h4, 19 * g.h7)
       + Wide(f.h5, 19 * g.h6) + Wide(f.h6, 19 * g.h5) + Wide(f.h7, 19 * g.h4) + Wide(f.h8, 19 * g.h3)
           + Wide(f.h9, 19 * g.h2);
  }

  method MulColumn2(f: Limbs, g: Limbs) returns (h: Int64)
    requires Loose(f) && Loose(g)
    ensures h as int == Product(f, g).h2 && Below(h as int, TWICE)
  {
    Column2Is(f, g);
    h := Wide(f.h0, g.h2) + Wide(2 * f.h1, g.h1) + Wide(f.h2, g.h0) + Wide(2 * f.h3, 19 * g.h9) + Wide(f.h4, 19 * g.h8)
       + Wide(2 * f.h5, 19 * g.h7) + Wide(f.h6, 19 * g.h6) + Wide(2 * f.h7, 19 * g.h5) + Wide(f.h8, 19 * g.h4)
           + Wide(2 * f.h9, 19 * g.h3);
  }

  method MulColumn3(f: Limbs, g: Limbs) returns (h: Int64)
    requires Loose(f) && Loose(g)
    ensures h as int == Product(f, g).h3 && Below(h as int, TWICE)
  {
    Column3Is(f, g);
    h := Wide(f.h0, g.h3) + Wide(f.h1, g.h2) + Wide(f.h2, g.h1) + Wide(f.h3, g.h0) + Wide(f.h4, 19 * g.h9)
       + Wide(f.h5, 19 * g.h8) + Wide(f.h6, 19 * g.h7) + Wide(f.h7, 19 * g.h6) + Wide(f.h8, 19 * g.h5)
           + Wide(f.h9, 19 * g.h4);
  }

  method MulColumn4(f: Limbs, g: Limbs) returns (h: Int64)
    requires Loose(f) && Loose(g)
    ensures h as int == Product(f, g).h4 && Below(h as int, TWICE)
  {
    Column4Is(f, g);
    h := Wide(f.h0, g.h4) + Wide(2 * f.h1, g.h3) + Wide(f.h2, g.h2) + Wide(2 * f.h3, g.h1) + Wide(f.h4, g.h0)
       + Wide(2 * f.h5, 19 * g.h9) + Wide(f.h6, 19 * g.h8) + Wide(2 * f.h7, 19 * g.h7) + Wide(f.h8, 19 * g.h6)
           + Wide(2 * f.h9, 19 * g.h5);
  }

  method MulColumn5(f: Limbs, g: Limbs) returns (h: Int64)
    requires Loose(f) && Loose(g)
    ensures h as int == Product(f, g).h5 && Below(h as int, TWICE)
  {
    Column5Is(f, g);
    h := Wide(f.h0, g.h5) + Wide(f.h1, g.h4) + Wide(f.h2, g.h3) + Wide(f.h3, g.h2) + Wide(f.h4, g.h1)
       + Wide(f.h5, g.h0) + Wide(f.h6, 19 * g.h9) + Wide(f.h7, 19 * g.h8) + Wide(f.h8, 19 * g.h7) + Wide(f.h9, 19 * g.h6);
  }

  method MulColumn6(f: Limbs, g: Limbs) returns (h: Int64)
    requires Loose(f) && Loose(g)
    ensures h as int == Product(f, g).h6 && Below(h as int, TWICE)
  {
    Column6Is(f, g);
    h := Wide(f.h0, g.h6) + Wide(2 * f.h1, g.h5) + Wide(f.h2, g.h4) + Wide(2 * f.h3, g.h3) + Wide(f.h4, g.h2)
       + Wide(2 * f.h5, g.h1) + Wide(f.h6, g.h0) + Wide(2 * f.h7, 19 * g.h9) + Wide(f.h8, 19 * g.h8)
           + Wide(2 * f.h9, 19 * g.h7);
  }

  method MulColumn7(f: Limbs, g: Limbs) returns (h: Int64)
    requires Loose(f) && Loose(g)
    ensures h as int == Product(f, g).h7 && Below(h as int, TWICE)
  {
    Column7Is(f, g);
    h := Wide(f.h0, g.h7) + Wide(f.h1, g.h6) + Wide(f.h2, g.h5) + Wide(f.h3, g.h4) + Wide(f.h4, g.h3)
       + Wide(f.h5, g.h2) + Wide(f.h6, g.h1) + Wide(f.h7, g.h0) + Wide(f.h8, 19 * g.h9) + Wide(f.h9, 19 * g.h8);
  }

  method MulColumn8(f: Limbs, g: Limbs) returns (h: Int64)
    requires Loose(f) && Loose(g)
    ensures h as int == Product(f, g).h8 && Below(h as int, TWICE)
  {
    Column8Is(f, g);
    h := Wide(f.h0, g.h8) + Wide(2 * f.h1, g.h7) + Wide(f.h2, g.h6) + Wide(2 * f.h3, g.h5) + Wide(f.h4, g.h4)
       + Wide(2 * f.h5, g.h3) + Wide(f.h6, g.h2) + Wide(2 * f.h7, g.h1) + Wide(f.h8, g.h0) + Wide(2 * f.h9, 19 * g.h9);
  }

  method MulColumn9(f: Limbs, g: Limbs) returns (h: Int64)
    requires Loose(f) && Loose(g)
    ensures h as int == Product(f, g).h9 && Below(h as int, TWICE)
  {
    Column9Is(f, g);
    h := Wide(f.h0, g.h9) + Wide(f.h1, g.h8) + Wide(f.h2, g.h7) + Wide(f.h3, g.h6) + Wide(f.h4, g.h5)
       + Wide(f.h5, g.h4) + Wide(f.h6, g.h3) + Wide(f.h7, g.h2) + Wide(f.h8, g.h1) + Wide(f.h9, g.h0);
  }

  method SquareColumn0(f: Limbs) returns (h: Int64)
    requires Loose(f)
    ensures h as int == Product(f, f).h0 && Below(h as int, COLUMN)
  {
    Column0Is(f, f);
    h := Wide(f.h0, f.h0) + Wide(2 * f.h1, 38 * f.h9) + Wide(2 * f.h2, 19 * f.h8) + Wide(2 * f.h3, 38 * f.h7)
        + Wide(2 * f.h4, 19 * f.h6)
       + Wide(f.h5, 38 * f.h5);
  }

  method SquareColumn1(f: Limbs) returns (h: Int64)
    requires Loose(f)
    ensures h as int == Product(f, f).h1 && Below(h as int, COLUMN)
  {
    Column1Is(f, f);
    h := Wide(2 * f.h0, f.h1) + Wide(f.h2, 38 * f.h9) + Wide(2 * f.h3, 19 * f.h8) + Wide(f.h4, 38 * f.h7)
        + Wide(2 * f.h5, 19 * f.h6);
  }

  method SquareColumn2(f: Limbs) returns (h: Int64)
    requires Loose(f)
    ensures h as int == Product(f, f).h2 && Below(h as int, COLUMN)
  {
    Column2Is(f, f);
    h := Wide(2 * f.h0, f.h2) + Wide(2 * f.h1, f.h1) + Wide(2 * f.h3, 38 * f.h9) + Wide(2 * f.h4, 19 * f.h8)
        + Wide(2 * f.h5, 38 * f.h7)
       + Wide(f.h6, 19 * f.h6);
  }

  method SquareColumn3(f: Limbs) returns (h: Int64)
    requires Loose(f)
    ensures h as int == Product(f, f).h3 && Below(h as int, COLUMN)
  {
    Column3Is(f, f);
    h := Wide(2 * f.h0, f.h3) + Wide(2 * f.h1, f.h2) + Wide(f.h4, 38 * f.h9) + Wide(2 * f.h5, 19 * f.h8)
        + Wide(f.h6, 38 * f.h7);
  }

  method SquareColumn4(f: Limbs) returns (h: Int64)
    requires Loose(f)
    ensures h as int == Product(f, f).h4 && Below(h as int, COLUMN)
  {
    Column4Is(f, f);
    h := Wide(2 * f.h0, f.h4) + Wide(2 * f.h1, 2 * f.h3) + Wide(f.h2, f.h2) + Wide(2 * f.h5, 38 * f.h9)
        + Wide(2 * f.h6, 19 * f.h8)
       + Wide(f.h7, 38 * f.h7);
  }

  method SquareColumn5(f: Limbs) returns (h: Int64)
    requires Loose(f)
    ensures h as int == Product(f, f).h5 && Below(h as int, COLUMN)
  {
    Column5Is(f, f);
    h := Wide(2 * f.h0, f.h5) + Wide(2 * f.h1, f.h4) + Wide(2 * f.h2, f.h3) + Wide(f.h6, 38 * f.h9)
        + Wide(2 * f.h7, 19 * f.h8);
  }

  method SquareColumn6(f: Limbs) returns (h: Int64)
    requires Loose(f)
    ensures h as int == Product(f, f).h6 && Below(h as int, COLUMN)
  {
    Column6Is(f, f);
    h := Wide(2 * f.h0, f.h6) + Wide(2 * f.h1, 2 * f.h5) + Wide(2 * f.h2, f.h4) + Wide(2 * f.h3, f.h3)
        + Wide(2 * f.h7, 38 * f.h9)
       + Wide(f.h8, 19 * f.h8);
  }

  method SquareColumn7(f: Limbs) returns (h: Int64)
    requires Loose(f)
    ensures h as int == Product(f, f).h7 && Below(h as int, COLUMN)
  {
    Column7Is(f, f);
    h := Wide(2 * f.h0, f.h7) + Wide(2 * f.h1, f.h6) + Wide(2 * f.h2, f.h5) + Wide(2 * f.h3, f.h4) + Wide(f.h8, 38 * f.h9);
  }

  method SquareColumn8(f: Limbs) returns (h: Int64)
    requires Loose(f)
    ensures h as int == Product(f, f).h8 && Below(h as int, COLUMN)
  {
    Column8Is(f, f);
    h := Wide(2 * f.h0, f.h8) + Wide(2 * f.h1, 2 * f.h7) + Wide(2 * f.h2, f.h6) + Wide(2 * f.h3, 2 * f.h5) + Wide(f.h4, f.h4)
       + Wide(f.h9, 38 * f.h9);
  }

  method SquareColumn9(f: Limbs) returns (h: Int64)
    requires Loose(f)
    ensures h as int == Product(f, f).h9 && Below(h as int, COLUMN)
  {
    Column9Is(f, f);
    h := Wide(2 * f.h0, f.h9) + Wide(2 * f.h1, f.h8) + Wide(2 * f.h2, f.h7) + Wide(2 * f.h3, f.h6) + Wide(2 * f.h4, f.h5);
  }

  /** x / w to the nearest integer. Lemma RoundedIs opens the definition. */
  function Rounded(x: int, w: int, fold: nat := 3): int
    requires w > 0
  {
    if fold > 0 then Rounded(x, w, fold - 1) else (x + w / 2) / w
  }

  lemma {:induction false} RoundedIs(x: int, w: int, fold: nat := 3)
    requires w > 0
    ensures Rounded(x, w, fold) == (x + w / 2) / w
  {
    if fold > 0 {
      RoundedIs(x, w, fold - 1);
    }
  }

  /** The carry out of a limb of 26 bits, by adding half and shifting right. */
  method Carry26(h: Int64) returns (carry: Int64)
    requires Below(h as int, TWICE + TWICE / 2)
    ensures carry as int == Rounded(h as int, 0x4000000)
    ensures Below(carry as int, 0x2000000000)
    ensures -0x2000000 <= h as int - 0x4000000 * carry as int < 0x2000000
  {
    RoundedIs(h as int, 0x4000000);
    carry := (h + 0x2000000) / 0x4000000;
  }

  /** The carry out of a limb of 25 bits. */
  method Carry25(h: Int64) returns (carry: Int64)
    requires Below(h as int, TWICE + TWICE / 2)
    ensures carry as int == Rounded(h as int, 0x2000000)
    ensures Below(carry as int, 0x4000000000)
    ensures -0x1000000 <= h as int - 0x2000000 * carry as int < 0x1000000
  {
    RoundedIs(h as int, 0x2000000);
    carry := (h + 0x1000000) / 0x2000000;
  }

  /** Limb i hands its carry to the next one; past the top the carry is worth 19. */
  function Settle(x: Limbs, i: nat): Limbs
    requires i < 10
  {
    match i
    case 0 => x.(h0 := x.h0 - 0x4000000 * Rounded(x.h0, 0x4000000), h1 := x.h1 + Rounded(x.h0, 0x4000000))
    case 1 => x.(h1 := x.h1 - 0x2000000 * Rounded(x.h1, 0x2000000), h2 := x.h2 + Rounded(x.h1, 0x2000000))
    case 2 => x.(h2 := x.h2 - 0x4000000 * Rounded(x.h2, 0x4000000), h3 := x.h3 + Rounded(x.h2, 0x4000000))
    case 3 => x.(h3 := x.h3 - 0x2000000 * Rounded(x.h3, 0x2000000), h4 := x.h4 + Rounded(x.h3, 0x2000000))
    case 4 => x.(h4 := x.h4 - 0x4000000 * Rounded(x.h4, 0x4000000), h5 := x.h5 + Rounded(x.h4, 0x4000000))
    case 5 => x.(h5 := x.h5 - 0x2000000 * Rounded(x.h5, 0x2000000), h6 := x.h6 + Rounded(x.h5, 0x2000000))
    case 6 => x.(h6 := x.h6 - 0x4000000 * Rounded(x.h6, 0x4000000), h7 := x.h7 + Rounded(x.h6, 0x4000000))
    case 7 => x.(h7 := x.h7 - 0x2000000 * Rounded(x.h7, 0x2000000), h8 := x.h8 + Rounded(x.h7, 0x2000000))
    case 8 => x.(h8 := x.h8 - 0x4000000 * Rounded(x.h8, 0x4000000), h9 := x.h9 + Rounded(x.h8, 0x4000000))
    case _ => x.(h9 := x.h9 - 0x2000000 * Rounded(x.h9, 0x2000000), h0 := x.h0 + 19 * Rounded(x.h9, 0x2000000))
  }

  lemma SettleWeighted(x: Limbs, i: nat)
    requires i < 10
    ensures Weighted(Settle(x, i)) == if i < 9 then Weighted(x) else Weighted(x) - P * Rounded(x.h9, 0x2000000)
  {
  }

  lemma SettleValue(x: Limbs, i: nat)
    requires i < 10
    ensures Val(Settle(x, i)) == if i < 9 then Val(x) else Val(x) - P * Rounded(x.h9, 0x2000000)
  {
    ValIs(x);
    ValIs(Settle(x, i));
    SettleWeighted(x, i);
  }

  /** The twelve carries of the code, in its order. */
  function Chained(x: Limbs): Limbs {
    Settle(Settle(Settle(Settle(Settle(Settle(Settle(Settle(Settle(Settle(Settle(Settle(x, 0), 4), 1), 5), 2), 6), 3),
        7), 4), 8), 9), 0)
  }

  function Chain(x: Limbs, fold: nat := 3): Limbs {
    if fold > 0 then Chain(x, fold - 1) else Chained(x)
  }

  lemma {:induction false} ChainIs(x: Limbs, fold: nat := 3)
    ensures Chain(x, fold) == Chained(x)
  {
    if fold > 0 {
      ChainIs(x, fold - 1);
    }
  }

  /** Carrying keeps the value modulo the prime. */
  lemma ChainValue(x: Limbs)
    ensures Congruent(Val(Chain(x)), Val(x))
  {
    ChainIs(x);
    var x1 := Settle(x, 0);
    SettleValue(x, 0);
    var x2 := Settle(x1, 4);
    SettleValue(x1, 4);
    var x3 := Settle(x2, 1);
    SettleValue(x2, 1);
    var x4 := Settle(x3, 5);
    SettleValue(x3, 5);
    var x5 := Settle(x4, 2);
    SettleValue(x4, 2);
    var x6 := Settle(x5, 6);
    SettleValue(x5, 6);
    var x7 := Settle(x6, 3);
    SettleValue(x6, 3);
    var x8 := Settle(x7, 7);
    SettleValue(x7, 7);
    var x9 := Settle(x8, 4);
    SettleValue(x8, 4);
    var x10 := Settle(x9, 8);
    SettleValue(x9, 8);
    var x11 := Settle(x10, 9);
    SettleValue(x10, 9);
    var x12 := Settle(x11, 0);
    SettleValue(x11, 0);
    CongruentBy(Val(Chain(x)), Val(x), -Rounded(x10.h9, 0x2000000));
  }

  datatype Wides = Wides(h0: Int64, h1: Int64, h2: Int64, h3: Int64, h4: Int64, h5: Int64, h6: Int64, h7: Int64,
      h8: Int64, h9: Int64)

  function Longs(w: Wides): Limbs {
    Limbs(w.h0 as int, w.h1 as int, w.h2 as int, w.h3 as int, w.h4 as int, w.h5 as int, w.h6 as int, w.h7 as int,
        w.h8 as int, w.h9 as int)
  }

  /** What the first six carries leave: only limbs 3, 7, 8 and 9 are still large. */
  predicate HalfCarried(x: Limbs) {
    && Below(x.h0, 0x2000000) && Below(x.h1, 0x1000000) && Below(x.h2, 0x2000000)
    && Below(x.h4, 0x2000000) && Below(x.h5, 0x1000000) && Below(x.h6, 0x2000000)
    && Below(x.h3, TWICE + 0x4000000000) && Below(x.h7, TWICE + 0x4000000000) && Below(x.h8, TWICE) && Below(x.h9, TWICE)
  }

  /** The carries out of limbs 0, 4, 1, 5, 2 and 6. */
  method FirstCarries(a: Wides) returns (w: Wides)
    requires Bounded(Longs(a), TWICE, TWICE)
    ensures Longs(w) == Settle(Settle(Settle(Settle(Settle(Settle(Longs(a), 0), 4), 1), 5), 2), 6) && HalfCarried(Longs(w))
  {
    var Wides(h0, h1, h2, h3, h4, h5, h6, h7, h8, h9) := a;
    ghost var x := Longs(a);
    var carry := Carry26(h0);
    h1 := h1 + carry;
    h0 := h0 - carry * 0x4000000;
    x := Settle(x, 0);
    assert x.h0 == h0 as int && x.h1 == h1 as int;
    carry := Carry26(h4);
    h5 := h5 + carry;
    h4 := h4 - carry * 0x4000000;
    x := Settle(x, 4);
    assert x.h4 == h4 as int && x.h5 == h5 as int;
    carry := Carry25(h1);
    h2 := h2 + carry;
    h1 := h1 - carry * 0x2000000;
    x := Settle(x, 1);
    assert x.h1 == h1 as int && x.h2 == h2 as int;
    carry := Carry25(h5);
    h6 := h6 + carry;
    h5 := h5 - carry * 0x2000000;
    x := Settle(x, 5);
    assert x.h5 == h5 as int && x.h6 == h6 as int;
    carry := Carry26(h2);
    h3 := h3 + carry;
    h2 := h2 - carry * 0x4000000;
    x := Settle(x, 2);
    assert x.h2 == h2 as int && x.h3 == h3 as int;
    carry := Carry26(h6);
    h7 := h7 + carry;
    h6 := h6 - carry * 0x4000000;
    x := Settle(x, 6);
    assert x.h6 == h6 as int && x.h7 == h7 as int;
    w := Wides(h0, h1, h2, h3, h4, h5, h6, h7, h8, h9);
  }

  /** What nine carries leave: only limbs 8 and 9 are still large. */
  predicate MostlyCarried(x: Limbs) {
    && Below(x.h0, 0x2000000) && Below(x.h1, 0x1000000) && Below(x.h2, 0x2000000) && Below(x.h3, 0x1000000)
    && Below(x.h4, 0x2000000) && Below(x.h5, 0x1010000) && Below(x.h6, 0x2000000) && Below(x.h7, 0x1000000)
    && Below(x.h8, TWICE + 0x8000000000) && Below(x.h9, TWICE)
  }

  /** The carries out of limbs 3, 7 and 4. */
  method MiddleCarries(a: Wides) returns (w: Wides)
    requires HalfCarried(Longs(a))
    ensures Longs(w) == Settle(Settle(Settle(Longs(a), 3), 7), 4) && MostlyCarried(Longs(w))
  {
    var Wides(h0, h1, h2, h3, h4, h5, h6, h7, h8, h9) := a;
    ghost var x := Longs(a);
    var carry := Carry25(h3);
    h4 := h4 + carry;
    h3 := h3 - carry * 0x2000000;
    x := Settle(x, 3);
    assert x.h3 == h3 as int && x.h4 == h4 as int;
    carry := Carry25(h7);
    h8 := h8 + carry;
    h7 := h7 - carry * 0x2000000;
    x := Settle(x, 7);
    assert x.h7 == h7 as int && x.h8 == h8 as int;
    carry := Carry26(h4);
    h5 := h5 + carry;
    h4 := h4 - carry * 0x4000000;
    x := Settle(x, 4);
    assert x.h4 == h4 as int && x.h5 == h5 as int;
    w := Wides(h0, h1, h2, h3, h4, h5, h6, h7, h8, h9);
  }

  /** The carries out of limbs 8, 9 and 0. */
  method LastCarries(a: Wides) returns (w: Wides)
    requires MostlyCarried(Longs(a))
    ensures Longs(w) == Settle(Settle(Settle(Longs(a), 8), 9), 0) && Tight(Longs(w))
  {
    var Wides(h0, h1, h2, h3, h4, h5, h6, h7, h8, h9) := a;
    ghost var x := Longs(a);
    var carry := Carry26(h8);
    h9 := h9 + carry;
    h8 := h8 - carry * 0x4000000;
    x := Settle(x, 8);
    assert x.h8 == h8 as int && x.h9 == h9 as int;
    carry := Carry25(h9);
    h0 := h0 + carry * 19;
    h9 := h9 - carry * 0x2000000;
    x := Settle(x, 9);
    assert x.h9 == h9 as int && x.h0 == h0 as int;
    carry := Carry26(h0);
    h1 := h1 + carry;
    h0 := h0 - carry * 0x4000000;
    x := Settle(x, 0);
    assert x.h0 == h0 as int && x.h1 == h1 as int;
    w := Wides(h0, h1, h2, h3, h4, h5, h6, h7, h8, h9);
  }

  /** The carry chain that fe_mul, fe_sq and fe_sq2 share. */
  method CarryChain(a: Wides) returns (w: Limbs)
    requires Bounded(Longs(a), TWICE, TWICE)
    ensures w == Chain(Longs(a)) && Tight(w)
  {
    ChainIs(Longs(a));
    var b := FirstCarries(a);
    b := MiddleCarries(b);
    b := LastCarries(b);
    w := Longs(b);
  }

  /** The product fe_mul leaves. */
  function Reduced(f: Limbs, g: Limbs): Limbs { Chain(Product(f, g)) }

  /** It is the product modulo the prime. */
  lemma ReducedValue(f: Limbs, g: Limbs)
    ensures Congruent(Val(Reduced(f, g)), Val(f) * Val(g))
  {
    ChainValue(Product(f, g));
    var k := ProductValue(f, g);
    CongruentBy(Val(Product(f, g)), Val(f) * Val(g), -k);
  }

  lemma ReducedTwiceValue(f: Limbs)
    ensures Congruent(Val(ReducedTwice(f)), 2 * (Val(f) * Val(f)))
  {
    var p := Product(f, f);
    ChainValue(Sum(p, p));
    SumValue(p, p);
    var k := ProductValue(f, f);
    CongruentBy(Val(Sum(p, p)), 2 * (Val(f) * Val(f)), -2 * k);
  }

  /** The doubled square fe_sq2 leaves. */
  function ReducedTwice(f: Limbs): Limbs { Chain(Sum(Product(f, f), Product(f, f))) }


  method Write(h: array<Int32>, w: Limbs)
    requires h.Length == 10 && Tight(w)
    modifies h
    ensures Of(h[..]) == w
  {
    h[0] := w.h0;
    h[1] := w.h1;
    h[2] := w.h2;
    h[3] := w.h3;
    h[4] := w.h4;
    h[5] := w.h5;
    h[6] := w.h6;
    h[7] := w.h7;
    h[8] := w.h8;
    h[9] := w.h9;
  }

  /** fe_mul on limbs. */
  method Multiply(f: Limbs, g: Limbs) returns (h: Limbs)
    requires Loose(f) && Loose(g)
    ensures h == Reduced(f, g) && Tight(h)
    ensures Congruent(Val(h), Val(f) * Val(g))
  {
    var h0 := MulColumn0(f, g);
    var h1 := MulColumn1(f, g);
    var h2 := MulColumn2(f, g);
    var h3 := MulColumn3(f, g);
    var h4 := MulColumn4(f, g);
    var h5 := MulColumn5(f, g);
    var h6 := MulColumn6(f, g);
    var h7 := MulColumn7(f, g);
    var h8 := MulColumn8(f, g);
    var h9 := MulColumn9(f, g);
    ReducedValue(f, g);
    h := CarryChain(Wides(h0, h1, h2, h3, h4, h5, h6, h7, h8, h9));
  }

  /** fe_sq on limbs: the same result as fe_mul of f with itself. */
  method Squared(f: Limbs) returns (h: Limbs)
    requires Loose(f)
    ensures h == Reduced(f, f) && Tight(h)
    ensures Congruent(Val(h), Val(f) * Val(f))
  {
    var h0 := SquareColumn0(f);
    var h1 := SquareColumn1(f);
    var h2 := SquareColumn2(f);
    var h3 := SquareColumn3(f);
    var h4 := SquareColumn4(f);
    var h5 := SquareColumn5(f);
    var h6 := SquareColumn6(f);
    var h7 := SquareColumn7(f);
    var h8 := SquareColumn8(f);
    var h9 := SquareColumn9(f);
    ReducedValue(f, f);
    h := CarryChain(Wides(h0, h1, h2, h3, h4, h5, h6, h7, h8, h9));
  }

  /** fe_sq2 on limbs. */
  method SquaredTwice(f: Limbs) returns (h: Limbs)
    requires Loose(f)
    ensures h == ReducedTwice(f) && Tight(h)
    ensures Congruent(Val(h), 2 * (Val(f) * Val(f)))
  {
    var h0 := SquareColumn0(f);
    var h1 := SquareColumn1(f);
    var h2 := SquareColumn2(f);
    var h3 := SquareColumn3(f);
    var h4 := SquareColumn4(f);
    var h5 := SquareColumn5(f);
    var h6 := SquareColumn6(f);
    var h7 := SquareColumn7(f);
    var h8 := SquareColumn8(f);
    var h9 := SquareColumn9(f);
    h0, h1, h2, h3, h4, h5, h6, h7, h8, h9 :=
      h0 + h0, h1 + h1, h2 + h2, h3 + h3, h4 + h4, h5 + h5, h6 + h6, h7 + h7, h8 + h8, h9 + h9;
    ReducedTwiceValue(f);
    h := CarryChain(Wides(h0, h1, h2, h3, h4, h5, h6, h7, h8, h9));
  }

  /** fe_mul: h may be f or g. */
  method Mul(h: array<Int32>, f: array<Int32>, g: array<Int32>)
    requires h.Length == 10 && f.Length == 10 && g.Length == 10
    requires Loose(Of(f[..])) && Loose(Of(g[..]))
    modifies h
    ensures Of(h[..]) == Reduced(old(Of(f[..])), old(Of(g[..]))) && Tight(Of(h[..]))
    ensures Congruent(Val(Of(h[..])), Val(old(Of(f[..]))) * Val(old(Of(g[..]))))
  {
    var r := Multiply(Of(f[..]), Of(g[..]));
    Write(h, r);
  }

  /** fe_sq: h may be f. */
  method Square(h: array<Int32>, f: array<Int32>)
    requires h.Length == 10 && f.Length == 10
    requires Loose(Of(f[..]))
    modifies h
    ensures Of(h[..]) == Reduced(old(Of(f[..])), old(Of(f[..]))) && Tight(Of(h[..]))
    ensures Congruent(Val(Of(h[..])), Val(old(Of(f[..]))) * Val(old(Of(f[..]))))
  {
    var r := Squared(Of(f[..]));
    Write(h, r);
  }

  /** fe_sq2: h may be f. */
  method SquareTwice(h: array<Int32>, f: array<Int32>)
    requires h.Length == 10 && f.Length == 10
    requires Loose(Of(f[..]))
    modifies h
    ensures Of(h[..]) == ReducedTwice(old(Of(f[..]))) && Tight(Of(h[..]))
    ensures Congruent(Val(Of(h[..])), 2 * (Val(old(Of(f[..]))) * Val(old(Of(f[..])))))
  {
    var r := SquaredTwice(Of(f[..]));
    Write(h, r);
  }
}
