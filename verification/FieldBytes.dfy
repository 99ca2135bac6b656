/** fe_tobytes and fe_frombytes of ed25519/fe.c: the 32-byte form of a field element. */
module FieldBytes {
  import opened Machine
  import opened Arith
  import opened Bytes
  import opened FieldLimbs
  import opened FieldMul

  /** The number that bytes stand for from index i on, least significant byte first. */
  function From(s: seq<int>, i: nat): int
    requires i <= |s|
    decreases |s| - i
  {
    if i == |s| then 0 else s[i] + 256 * From(s, i + 1)
  }

  /** A little-endian number. */
  function Number(s: seq<Byte>): (v: nat)
    ensures v < Radix(|s|)
  {
    FromBelow(s, 0);
    From(s, 0)
  }

  lemma {:induction false} FromBelow(s: seq<Byte>, i: nat)
    requires i <= |s|
    ensures 0 <= From(s, i) < Radix(|s| - i)
    decreases |s| - i
  {
    if i < |s| {
      FromBelow(s, i + 1);
    }
  }

  /** The n low bytes of v, least significant first. */
  function Digits(v: nat, n: nat): (s: seq<Byte>)
    ensures |s| == n
  {
    if n == 0 then [] else [v % 256] + Digits(v / 256, n - 1)
  }

  lemma {:induction false} FromTail(s: seq<int>, i: nat)
    requires 1 <= i <= |s|
    ensures From(s, i) == From(s[1..], i - 1)
    decreases |s| - i
  {
    if i < |s| {
      FromTail(s, i + 1);
    }
  }

  lemma FirstDigit(d: Byte, v: nat)
    ensures (d + 256 * v) % 256 == d && (d + 256 * v) / 256 == v
  {
  }

  /** Bytes are the digits of their number, so equal numbers of equal length have equal bytes. */
  lemma {:induction false} DigitsOfNumber(s: seq<Byte>)
    ensures Digits(Number(s), |s|) == s
  {
    if s != [] {
      FromTail(s, 1);
      DigitsOfNumber(s[1..]);
      FirstDigit(s[0], Number(s[1..]));
    }
  }

  /** The canonical 32 bytes of a field value. */
  function Canonical(v: int): seq<Byte> { Digits(v % P, 32) }

  /** What fe_tobytes requires: 1.1 * 2^26 and 1.1 * 2^25. */
  predicate Encodable(x: Limbs) { Bounded(x, 73819750, 36909875) }

  /** Every limb within its own bits. */
  predicate Settled(x: Limbs) {
    && 0 <= x.h0 < 0x4000000 && 0 <= x.h1 < 0x2000000 && 0 <= x.h2 < 0x4000000 && 0 <= x.h3 < 0x2000000
    && 0 <= x.h4 < 0x4000000 && 0 <= x.h5 < 0x2000000 && 0 <= x.h6 < 0x4000000 && 0 <= x.h7 < 0x2000000
    && 0 <= x.h8 < 0x4000000 && 0 <= x.h9 < 0x2000000
  }

  /** An arithmetic shift right by 26, with what it drops. */
  method Shift26(x: Int32) returns (c: Int32, ghost r: int)
    ensures x == 0x4000000 * c + r && 0 <= r < 0x4000000
  {
    c, r := x / 0x4000000, x % 0x4000000;
  }

  /** An arithmetic shift right by 25, with what it drops. */
  method Shift25(x: Int32) returns (c: Int32, ghost r: int)
    ensures x == 0x2000000 * c + r && 0 <= r < 0x2000000
  {
    c, r := x / 0x2000000, x % 0x2000000;
  }

  /** The estimate of the quotient is never off: d is what the nine low limbs add to 2^230 h9. */
  lemma EstimateExact(v: int, h9: int, d: int, first: int, r: int, q: int, rest: int)
    requires v == 0x4000000000000000000000000000000000000000000000000000000000 * h9 + d
    requires Below(h9, 36909875) && Below(d, 0x8000000000000000000000000000000000000000000000000000000000)
    requires 19 * h9 + 0x1000000 == 0x2000000 * first + r && 0 <= r < 0x2000000
    requires v + first == (P + 19) * q + rest && 0 <= rest < P + 19
    ensures 0 <= v - P * q < P && Below(q, 2)
  {
    assert Below(first, 22);
    assert Below(q, 2);
    var t := first - 19 * q;
    assert v - P * q == rest - t;
    assert Below(t, 60);
    assert Below((P + 19) * t - 19 * (rest - first), (P + 19) / 2
        + 0x200000000000000000000000000000000000000000000000000000000000);
  }

  lemma ValidQuotient(v: int, q: int)
    requires 0 <= v - P * q < P
    ensures q == v / P && v - P * q == v % P
  {
    QuotientUnique(v, P, q, v - P * q);
  }

  /** x = w * c + r for each limb, where a limb takes in the carry of the one before. */
  predicate CarriesOf(c: Limbs, h: Limbs, r: Limbs, first: int) {
    && h.h0 + first == 0x4000000 * c.h0 + r.h0
    && h.h1 + c.h0 == 0x2000000 * c.h1 + r.h1
    && h.h2 + c.h1 == 0x4000000 * c.h2 + r.h2
    && h.h3 + c.h2 == 0x2000000 * c.h3 + r.h3
    && h.h4 + c.h3 == 0x4000000 * c.h4 + r.h4
    && h.h5 + c.h4 == 0x2000000 * c.h5 + r.h5
    && h.h6 + c.h5 == 0x4000000 * c.h6 + r.h6
    && h.h7 + c.h6 == 0x2000000 * c.h7 + r.h7
    && h.h8 + c.h7 == 0x4000000 * c.h8 + r.h8
    && h.h9 + c.h8 == 0x2000000 * c.h9 + r.h9
  }

  lemma CarriesAdd(c: Limbs, h: Limbs, r: Limbs, first: int)
    requires CarriesOf(c, h, r, first)
    ensures Val(h) + first == Val(r) + (P + 19) * c.h9
  {
    ValIs(h);
    ValIs(r);
    CarriesWeighted(c, h, r, first);
  }

  lemma CarriesWeighted(c: Limbs, h: Limbs, r: Limbs, first: int)
    requires CarriesOf(c, h, r, first)
    ensures Weighted(h) + first == Weighted(r) + (P + 19) * c.h9
  {
  }

  lemma SettledBelow(x: Limbs)
    requires Settled(x)
    ensures 0 <= Val(x) < P + 19
  {
    ValIs(x);
    SettledWeighted(x);
  }

  lemma SettledWeighted(x: Limbs)
    requires Settled(x)
    ensures 0 <= Weighted(x) < P + 19
  {
  }

  lemma LowLimbs(h: Limbs)
    requires Encodable(h)
    ensures Val(h) == 0x4000000000000000000000000000000000000000000000000000000000 * h.h9 + Val(h.(h9 := 0))
    ensures Below(Val(h.(h9 := 0)), 0x8000000000000000000000000000000000000000000000000000000000)
  {
    ValIs(h);
    ValIs(h.(h9 := 0));
    LowWeighted(h.(h9 := 0));
  }

  lemma LowWeighted(h: Limbs)
    requires Encodable(h) && h.h9 == 0
    ensures Below(Weighted(h), 0x8000000000000000000000000000000000000000000000000000000000)
  {
  }

  /** The carries that would run out of the top limb: the value divided by the prime. */
  method Quotient(h: Limbs) returns (q: Int32)
    requires Encodable(h)
    ensures q == Val(h) / P && Below(q, 2)
  {
    ghost var low: int;
    var scaled: Int32 := 19 * h.h9;
    q, low := Shift25(scaled + 0x1000000);
    ghost var first := q;
    ghost var r0: int;
    q, r0 := Shift26(h.h0 + q);
    ghost var c0 := q;
    ghost var r1: int;
    q, r1 := Shift25(h.h1 + q);
    ghost var c1 := q;
    ghost var r2: int;
    q, r2 := Shift26(h.h2 + q);
    ghost var c2 := q;
    ghost var r3: int;
    q, r3 := Shift25(h.h3 + q);
    ghost var c3 := q;
    ghost var r4: int;
    q, r4 := Shift26(h.h4 + q);
    ghost var c4 := q;
    ghost var r5: int;
    q, r5 := Shift25(h.h5 + q);
    ghost var c5 := q;
    ghost var r6: int;
    q, r6 := Shift26(h.h6 + q);
    ghost var c6 := q;
    ghost var r7: int;
    q, r7 := Shift25(h.h7 + q);
    ghost var c7 := q;
    ghost var r8: int;
    q, r8 := Shift26(h.h8 + q);
    ghost var c8 := q;
    ghost var r9: int;
    q, r9 := Shift25(h.h9 + q);
    ghost var c9 := q;
    ghost var rest := Limbs(r0, r1, r2, r3, r4, r5, r6, r7, r8, r9);
    CarriesAdd(Limbs(c0, c1, c2, c3, c4, c5, c6, c7, c8, c9), h, rest, first);
    SettledBelow(rest);
    LowLimbs(h);
    EstimateExact(Val(h), h.h9, Val(h.(h9 := 0)), first, low, q, Val(rest));
    ValidQuotient(Val(h), q);
  }

  /** The limbs of the value less q primes, each within its own bits. */
  method Complete(h: Limbs, q: Int32) returns (r: Limbs)
    requires Encodable(h) && q == Val(h) / P && Below(q, 2)
    ensures Settled(r) && Val(r) == Val(h) % P
  {
    var h0: Int32, h1: Int32, h2: Int32, h3: Int32, h4: Int32, h5: Int32, h6: Int32, h7: Int32, h8: Int32, h9: Int32 :=
      h.h0 + 19 * q, h.h1, h.h2, h.h3, h.h4, h.h5, h.h6, h.h7, h.h8, h.h9;
    var carry0, _ := Shift26(h0);
    h1 := h1 + carry0;
    h0 := h0 - carry0 * 0x4000000;
    var carry1, _ := Shift25(h1);
    h2 := h2 + carry1;
    h1 := h1 - carry1 * 0x2000000;
    var carry2, _ := Shift26(h2);
    h3 := h3 + carry2;
    h2 := h2 - carry2 * 0x4000000;
    var carry3, _ := Shift25(h3);
    h4 := h4 + carry3;
    h3 := h3 - carry3 * 0x2000000;
    var carry4, _ := Shift26(h4);
    h5 := h5 + carry4;
    h4 := h4 - carry4 * 0x4000000;
    var carry5, _ := Shift25(h5);
    h6 := h6 + carry5;
    h5 := h5 - carry5 * 0x2000000;
    var carry6, _ := Shift26(h6);
    h7 := h7 + carry6;
    h6 := h6 - carry6 * 0x4000000;
    var carry7, _ := Shift25(h7);
    h8 := h8 + carry7;
    h7 := h7 - carry7 * 0x2000000;
    var carry8, _ := Shift26(h8);
    h9 := h9 + carry8;
    h8 := h8 - carry8 * 0x4000000;
    var carry9, _ := Shift25(h9);
    h9 := h9 - carry9 * 0x2000000;
    r := Limbs(h0, h1, h2, h3, h4, h5, h6, h7, h8, h9);
    CarriesAdd(Limbs(carry0, carry1, carry2, carry3, carry4, carry5, carry6, carry7, carry8, carry9), h, r, 19 * q);
    SettledBelow(r);
    ResultExact(Val(h), q, Val(r), carry9);
  }

  lemma ResultExact(v: int, q: int, r: int, c: int)
    requires q == v / P && 0 <= r < P + 19 && v + 19 * q == r + (P + 19) * c
    ensures c == q && r == v % P
  {
    assert v == P * q + v % P;
  }

  /** The low eight bits. Lemma LowIs opens the definition. */
  function Low(x: nat, fold: nat := 3): Byte {
    if fold > 0 then Low(x, fold - 1) else x % 256
  }

  lemma {:induction false} LowIs(x: nat, fold: nat := 3)
    ensures Low(x, fold) == x % 256
  {
    if fold > 0 {
      LowIs(x, fold - 1);
    }
  }

  /** x shifted right to drop a power of two p. Lemma ShrIs opens the definition. */
  function Shr(x: nat, p: nat, fold: nat := 3): nat
    requires p > 0
  {
    if fold > 0 then Shr(x, p, fold - 1) else x / p
  }

  lemma {:induction false} ShrIs(x: nat, p: nat, fold: nat := 3)
    requires p > 0
    ensures Shr(x, p, fold) == x / p
  {
    if fold > 0 {
      ShrIs(x, p, fold - 1);
    }
  }

  /** The low eight bits of a | b. Lemma SharedIs opens the definition. */
  function Shared(a: nat, b: nat, fold: nat := 3): Byte {
    if fold > 0 then Shared(a, b, fold - 1) else BitOr(a, b) % 256
  }

  lemma {:induction false} SharedIs(a: nat, b: nat, fold: nat := 3)
    ensures Shared(a, b, fold) == BitOr(a, b) % 256
  {
    if fold > 0 {
      SharedIs(a, b, fold - 1);
    }
  }

  /** A byte shared by two limbs: the top bits of one below the low bits of the next. */
  lemma SharedByte(a: nat, b: nat, k: nat, p: nat, s: nat)
    requires p == Pow2(k) && p * s == 256 && a < p
    ensures Shared(a, b * p) == a + p * (b % s)
  {
    assert b * p == p * b;
    BitOrDisjoint(a, b, k);
    SharedIs(a, b * p);
    SharedArith(a, b, p, s);
  }

  lemma SharedArith(a: nat, b: nat, p: int, s: int)
    requires p > 0 && s > 0 && p * s == 256 && a < p
    ensures (a + p * b) % 256 == a + p * (b % s)
  {
    var q, r := b / s, b % s;
    assert p * b == 256 * q + p * r by {
      assert b == s * q + r;
      MulDist(p, s * q, r);
      MulAssoc(p, s, q);
    }
    MulMonotone(r, s - 1, p);
    MulDist(p, s, -1);
    QuotientUnique(a + p * b, 256, q, a + p * r);
  }

  lemma SmallPowers()
    ensures Pow2(1) == 2 && Pow2(2) == 4 && Pow2(3) == 8 && Pow2(4) == 16
    ensures Pow2(5) == 32 && Pow2(6) == 64 && Pow2(7) == 128 && Pow2(8) == 256
  {
  }

  lemma NumberOf16(s: seq<int>)
    requires |s| == 16
    ensures From(s, 0) == s[0] + 0x100 * s[1] + 0x10000 * s[2] + 0x1000000 * s[3] + 0x100000000 * s[4]
      + 0x10000000000 * s[5] + 0x1000000000000 * s[6] + 0x100000000000000 * s[7] + 0x10000000000000000 * s[8]
      + 0x1000000000000000000 * s[9] + 0x100000000000000000000 * s[10] + 0x10000000000000000000000 * s[11]
      + 0x1000000000000000000000000 * s[12] + 0x100000000000000000000000000 * s[13]
      + 0x10000000000000000000000000000 * s[14] + 0x1000000000000000000000000000000 * s[15]
  {
    assert From(s, 15) == s[15] + 256 * From(s, 16);
    assert From(s, 14) == s[14] + 256 * From(s, 15);
    assert From(s, 13) == s[13] + 256 * From(s, 14);
    assert From(s, 12) == s[12] + 256 * From(s, 13);
    assert From(s, 11) == s[11] + 256 * From(s, 12);
    assert From(s, 10) == s[10] + 256 * From(s, 11);
    assert From(s, 9) == s[9] + 256 * From(s, 10);
    assert From(s, 8) == s[8] + 256 * From(s, 9);
    assert From(s, 7) == s[7] + 256 * From(s, 8);
    assert From(s, 6) == s[6] + 256 * From(s, 7);
    assert From(s, 5) == s[5] + 256 * From(s, 6);
    assert From(s, 4) == s[4] + 256 * From(s, 5);
    assert From(s, 3) == s[3] + 256 * From(s, 4);
    assert From(s, 2) == s[2] + 256 * From(s, 3);
    assert From(s, 1) == s[1] + 256 * From(s, 2);
    assert From(s, 0) == s[0] + 256 * From(s, 1);
  }

  lemma QuotientTwice(h: nat, p: int, q: int)
    requires p > 0 && q > 0
    ensures p * q > 0 && h / (p * q) == (h / p) / q
  {
    var a, b := h / p, (h / p) / q;
    MulMonotone(1, p, q);
    TwiceArith(p, q, b, a % q, h % p);
    QuotientUnique(h, p * q, b, p * (a % q) + h % p);
  }

  lemma TwiceArith(p: int, q: int, b: int, x: int, y: int)
    requires p > 0 && 0 <= x < q && 0 <= y < p
    ensures p * (q * b + x) + y == (p * q) * b + (p * x + y) && 0 <= p * x + y < p * q
  {
    MulDist(p, q * b, x);
    MulAssoc(p, q, b);
    MulMonotone(x, q - 1, p);
    MulMonotone(0, x, p);
    MulDist(p, q, -1);
  }

  lemma ThreeBytes(h: nat, p: int)
    requires p > 0
    ensures h / p >= 0
    ensures h / p == (h / p) % 256 + 256 * (((h / p) / 256) % 256) + 65536 * ((h / p) / 65536)
  {
    QuotientIs(h, p);
    BytesOf(h / p);
  }

  lemma BytesOf(a: nat)
    ensures a == a % 256 + 256 * ((a / 256) % 256) + 65536 * (a / 65536)
  {
  }

  /** A limb cut into the part below p, two bytes, and the rest. */
  lemma Pieces(h: nat, p: int)
    requires p > 0
    ensures h == h % p + p * Low(Shr(h, p)) + (p * 256) * Low(Shr(h, p * 256)) + (p * 65536) * Shr(h, p * 65536)
  {
    var a := h / p;
    var b, c := a / 256, a / 65536;
    assert h == p * a + h % p;
    ThreeBytes(h, p);
    QuotientTwice(h, p, 256);
    QuotientTwice(h, p, 65536);
    ShrIs(h, p);
    ShrIs(h, p * 256);
    ShrIs(h, p * 65536);
    LowIs(a);
    LowIs(b);
    PiecesArith(p, a % 256, b % 256, c);
  }

  /** Below 256 a limb's top part is a byte itself. */
  lemma TopByte(h: nat, p: int)
    requires p > 0 && h < 256 * p
    ensures Low(Shr(h, p)) == Shr(h, p) == h / p
  {
    ShrIs(h, p);
    QuotientBelow(h, p, 256);
    LowIs(h / p);
  }

  lemma TopPart(h: nat, p: int, b: int)
    requires p > 0 && h < b * p
    ensures Shr(h, p) < b
  {
    ShrIs(h, p);
    QuotientBelow(h, p, b);
  }

  lemma PiecesArith(p: int, x: int, y: int, z: int)
    ensures p * (x + 256 * y + 65536 * z) == p * x + (p * 256) * y + (p * 65536) * z
  {
  }

  /** The pieces of limbs 0 to 4, put together. */
  lemma LowArith(h0: int, h1: int, h2: int, h3: int, h4: int, b0: int, b1: int, b2: int, b3: int, b4: int,
      b5: int, b6: int, b7: int, b8: int, b9: int, b10: int, b11: int, b12: int, b13: int, b14: int,
      b15: int, t0: int, t1: int, t2: int, t3: int, u1: int, u2: int, u3: int, u4: int)
    requires b3 == t0 + 4 * u1
    requires h0 == b0 + 0x100 * b1 + 0x10000 * b2 + 0x1000000 * t0
    requires b6 == t1 + 8 * u2
    requires h1 == u1 + 0x40 * b4 + 0x4000 * b5 + 0x400000 * t1
    requires b9 == t2 + 32 * u3
    requires h2 == u2 + 0x20 * b7 + 0x2000 * b8 + 0x200000 * t2
    requires b12 == t3 + 64 * u4
    requires h3 == u3 + 0x8 * b10 + 0x800 * b11 + 0x80000 * t3
    requires h4 == u4 + 0x4 * b13 + 0x400 * b14 + 0x40000 * b15
    ensures h0 + 0x4000000 * h1 + 0x8000000000000 * h2 + 0x20000000000000000000 * h3 + 0x40000000000000000000000000 * h4 ==
      b0 + 0x100 * b1 + 0x10000 * b2 + 0x1000000 * b3 + 0x100000000 * b4 + 0x10000000000 * b5 + 0x1000000000000 * b6
          + 0x100000000000000 * b7 + 0x10000000000000000 * b8 + 0x1000000000000000000 * b9
          + 0x100000000000000000000 * b10 + 0x10000000000000000000000 * b11 + 0x1000000000000000000000000 * b12
          + 0x100000000000000000000000000 * b13 + 0x10000000000000000000000000000 * b14
          + 0x1000000000000000000000000000000 * b15
  {
  }

  /** The pieces of limbs 5 to 9, put together. */
  lemma HighArith(h5: int, h6: int, h7: int, h8: int, h9: int, b0: int, b1: int, b2: int, b3: int, b4: int,
      b5: int, b6: int, b7: int, b8: int, b9: int, b10: int, b11: int, b12: int, b13: int, b14: int,
      b15: int, t5: int, t6: int, t7: int, t8: int, u6: int, u7: int, u8: int, u9: int)
    requires b3 == t5 + 2 * u6
    requires h5 == b0 + 0x100 * b1 + 0x10000 * b2 + 0x1000000 * t5
    requires b6 == t6 + 8 * u7
    requires h6 == u6 + 0x80 * b4 + 0x8000 * b5 + 0x800000 * t6
    requires b9 == t7 + 16 * u8
    requires h7 == u7 + 0x20 * b7 + 0x2000 * b8 + 0x200000 * t7
    requires b12 == t8 + 64 * u9
    requires h8 == u8 + 0x10 * b10 + 0x1000 * b11 + 0x100000 * t8
    requires h9 == u9 + 0x4 * b13 + 0x400 * b14 + 0x40000 * b15
    ensures h5 + 0x2000000 * h6 + 0x8000000000000 * h7 + 0x10000000000000000000 * h8 + 0x40000000000000000000000000 * h9 ==
      b0 + 0x100 * b1 + 0x10000 * b2 + 0x1000000 * b3 + 0x100000000 * b4 + 0x10000000000 * b5 + 0x1000000000000 * b6
          + 0x100000000000000 * b7 + 0x10000000000000000 * b8 + 0x1000000000000000000 * b9
          + 0x100000000000000000000 * b10 + 0x10000000000000000000000 * b11 + 0x1000000000000000000000000 * b12
          + 0x100000000000000000000000000 * b13 + 0x10000000000000000000000000000 * b14
          + 0x1000000000000000000000000000000 * b15
  {
  }

  /** The first 16 bytes of fe_tobytes, from limbs 0 to 4. */
  function PackedLow(r: Limbs): (s: seq<Byte>)
    requires Settled(r)
    ensures |s| == 16
  {
    [
      Low(r.h0), Low(Shr(r.h0, 0x100)), Low(Shr(r.h0, 0x10000)), Shared(Shr(r.h0, 0x1000000), r.h1 * 4),
      Low(Shr(r.h1, 0x40)), Low(Shr(r.h1, 0x4000)), Shared(Shr(r.h1, 0x400000), r.h2 * 8), Low(Shr(r.h2, 0x20)),
      Low(Shr(r.h2, 0x2000)), Shared(Shr(r.h2, 0x200000), r.h3 * 32), Low(Shr(r.h3, 0x8)), Low(Shr(r.h3, 0x800)),
      Shared(Shr(r.h3, 0x80000), r.h4 * 64), Low(Shr(r.h4, 0x4)), Low(Shr(r.h4, 0x400)), Low(Shr(r.h4, 0x40000))
    ]
  }

  lemma PackedLowValue(r: Limbs)
    requires Settled(r)
    ensures Number(PackedLow(r)) == r.h0 + 0x4000000 * r.h1 + 0x8000000000000 * r.h2 + 0x20000000000000000000 * r.h3
      + 0x40000000000000000000000000 * r.h4
  {
    SmallPowers();
    Pieces(r.h0, 0x100);
    Pieces(r.h1, 0x40);
    Pieces(r.h2, 0x20);
    Pieces(r.h3, 0x8);
    Pieces(r.h4, 0x4);
    TopPart(r.h0, 0x1000000, 0x4);
    SharedByte(Shr(r.h0, 0x1000000), r.h1, 2, 4, 64);
    TopPart(r.h1, 0x400000, 0x8);
    SharedByte(Shr(r.h1, 0x400000), r.h2, 3, 8, 32);
    TopPart(r.h2, 0x200000, 0x20);
    SharedByte(Shr(r.h2, 0x200000), r.h3, 5, 32, 8);
    TopPart(r.h3, 0x80000, 0x40);
    SharedByte(Shr(r.h3, 0x80000), r.h4, 6, 64, 4);
    TopByte(r.h4, 0x40000);
    LowIs(r.h0);
    var s := PackedLow(r);
    NumberOf16(s);
    LowArith(r.h0, r.h1, r.h2, r.h3, r.h4, s[0], s[1], s[2], s[3], s[4], s[5], s[6], s[7], s[8], s[9], s[10], s[11],
        s[12], s[13], s[14], s[15], Shr(r.h0, 0x1000000), Shr(r.h1, 0x400000), Shr(r.h2, 0x200000),
        Shr(r.h3, 0x80000), r.h1 % 64, r.h2 % 32, r.h3 % 8, r.h4 % 4);
  }

  /** The other 16 bytes, from limbs 5 to 9. */
  function PackedHigh(r: Limbs): (s: seq<Byte>)
    requires Settled(r)
    ensures |s| == 16
  {
    [
      Low(r.h5), Low(Shr(r.h5, 0x100)), Low(Shr(r.h5, 0x10000)), Shared(Shr(r.h5, 0x1000000), r.h6 * 2),
      Low(Shr(r.h6, 0x80)), Low(Shr(r.h6, 0x8000)), Shared(Shr(r.h6, 0x800000), r.h7 * 8), Low(Shr(r.h7, 0x20)),
      Low(Shr(r.h7, 0x2000)), Shared(Shr(r.h7, 0x200000), r.h8 * 16), Low(Shr(r.h8, 0x10)), Low(Shr(r.h8, 0x1000)),
      Shared(Shr(r.h8, 0x100000), r.h9 * 64), Low(Shr(r.h9, 0x4)), Low(Shr(r.h9, 0x400)), Low(Shr(r.h9, 0x40000))
    ]
  }

  lemma PackedHighValue(r: Limbs)
    requires Settled(r)
    ensures Number(PackedHigh(r)) == r.h5 + 0x2000000 * r.h6 + 0x8000000000000 * r.h7 + 0x10000000000000000000 * r.h8
      + 0x40000000000000000000000000 * r.h9
  {
    SmallPowers();
    Pieces(r.h5, 0x100);
    Pieces(r.h6, 0x80);
    Pieces(r.h7, 0x20);
    Pieces(r.h8, 0x10);
    Pieces(r.h9, 0x4);
    TopPart(r.h5, 0x1000000, 0x2);
    SharedByte(Shr(r.h5, 0x1000000), r.h6, 1, 2, 128);
    TopPart(r.h6, 0x800000, 0x8);
    SharedByte(Shr(r.h6, 0x800000), r.h7, 3, 8, 32);
    TopPart(r.h7, 0x200000, 0x10);
    SharedByte(Shr(r.h7, 0x200000), r.h8, 4, 16, 16);
    TopPart(r.h8, 0x100000, 0x40);
    SharedByte(Shr(r.h8, 0x100000), r.h9, 6, 64, 4);
    TopByte(r.h9, 0x40000);
    LowIs(r.h5);
    var s := PackedHigh(r);
    NumberOf16(s);
    HighArith(r.h5, r.h6, r.h7, r.h8, r.h9, s[0], s[1], s[2], s[3], s[4], s[5], s[6], s[7], s[8], s[9], s[10], s[11],
        s[12], s[13], s[14], s[15], Shr(r.h5, 0x1000000), Shr(r.h6, 0x800000), Shr(r.h7, 0x200000),
        Shr(r.h8, 0x100000), r.h6 % 128, r.h7 % 32, r.h8 % 16, r.h9 % 4);
  }

  lemma {:induction false} NumberAppend(a: seq<int>, b: seq<int>)
    ensures From(a + b, 0) == From(a, 0) + Radix(|a|) * From(b, 0)
  {
    if a == [] {
      assert a + b == b;
    } else {
      FromTail(a, 1);
      FromTail(a + b, 1);
      NumberAppend(a[1..], b);
      assert (a + b)[1..] == a[1..] + b;
      MulAssoc(256, Radix(|a| - 1), From(b, 0));
    }
  }

  lemma HalvesValue(a: seq<Byte>, b: seq<Byte>, r: Limbs)
    requires |a| == 16 && |b| == 16
    requires Number(a) == r.h0 + 0x4000000 * r.h1 + 0x8000000000000 * r.h2 + 0x20000000000000000000 * r.h3
      + 0x40000000000000000000000000 * r.h4
    requires Number(b) == r.h5 + 0x2000000 * r.h6 + 0x8000000000000 * r.h7 + 0x10000000000000000000 * r.h8
      + 0x40000000000000000000000000 * r.h9
    ensures Number(a + b) == Val(r)
  {
    NumberAppend(a, b);
    Radices();
    assert Radix(9) == 256 * Radix(8) && Radix(10) == 256 * Radix(9) && Radix(11) == 256 * Radix(10);
    assert Radix(12) == 256 * Radix(11) && Radix(13) == 256 * Radix(12) && Radix(14) == 256 * Radix(13);
    assert Radix(15) == 256 * Radix(14) && Radix(16) == 256 * Radix(15);
    ValIs(r);
  }

  /** The 32 bytes of settled limbs. */
  function Packed(r: Limbs): (s: seq<Byte>)
    requires Settled(r)
    ensures |s| == 32 && Number(s) == Val(r)
  {
    PackedLowValue(r);
    PackedHighValue(r);
    HalvesValue(PackedLow(r), PackedHigh(r), r);
    PackedLow(r) + PackedHigh(r)
  }

  /** fe_tobytes: the least number that the limbs stand for modulo the prime, in 32 bytes. */
  method ToBytes(s: array<Byte>, h: array<Int32>)
    requires s.Length == 32 && h.Length == 10 && Encodable(Of(h[..]))
    requires s as object != h
    modifies s
    ensures s[..] == Canonical(Val(Of(h[..])))
  {
    var a := Of(h[..]);
    var q := Quotient(a);
    var r := Complete(a, q);
    var bytes := Packed(r);
    DigitsOfNumber(bytes);
    Store(s, bytes);
  }

  method Store(s: array<Byte>, bytes: seq<Byte>)
    requires s.Length == |bytes|
    modifies s
    ensures s[..] == bytes
  {
    for i := 0 to s.Length
      invariant s[..i] == bytes[..i]
    {
      s[i] := bytes[i];
    }
  }
}
