/** fe_frombytes of ed25519/fe.c, and its round trip with fe_tobytes. */
module FieldDecode {
  import opened Machine
  import opened Arith
  import opened Bytes
  import opened FieldLimbs
  import opened FieldMul
  import opened FieldBytes

  function Little3(s: seq<int>, i: nat): int
    requires i + 3 <= |s|
  {
    s[i] + 0x100 * s[i + 1] + 0x10000 * s[i + 2]
  }

  function Little4(s: seq<int>, i: nat): int
    requires i + 4 <= |s|
  {
    s[i] + 0x100 * s[i + 1] + 0x10000 * s[i + 2] + 0x1000000 * s[i + 3]
  }

  /** x shifted left to gain a factor p. */
  function Shl(x: nat, p: nat): nat { x * p }

  lemma OrShifted(a: nat, b: nat, k: nat, p: nat)
    requires p == Pow2(k) && a < p
    ensures BitOr(a, Shl(b, p)) == a + p * b
  {
    assert b * p == p * b;
    BitOrDisjoint(a, b, k);
  }

  lemma BytePowers()
    ensures Pow2(8) == 0x100 && Pow2(16) == 0x10000 && Pow2(24) == 0x1000000
  {
    assert Pow2(2) == 4 && Pow2(4) == 16 && Pow2(6) == 64 && Pow2(8) == 256;
    Pow2Add(8, 8);
    Pow2Add(8, 16);
  }

  /** load_3 */
  method Load3(s: seq<Byte>, i: nat) returns (result: nat)
    requires i + 3 <= |s|
    ensures result == Little3(s, i) && result < 0x1000000
  {
    BytePowers();
    result := s[i];
    OrShifted(result, s[i + 1], 8, 0x100);
    result := BitOr(result, Shl(s[i + 1], 0x100));
    OrShifted(result, s[i + 2], 16, 0x10000);
    result := BitOr(result, Shl(s[i + 2], 0x10000));
  }

  /** load_4 */
  method Load4(s: seq<Byte>, i: nat) returns (result: nat)
    requires i + 4 <= |s|
    ensures result == Little4(s, i) && result < 0x1_0000_0000
  {
    BytePowers();
    result := s[i];
    OrShifted(result, s[i + 1], 8, 0x100);
    result := BitOr(result, Shl(s[i + 1], 0x100));
    OrShifted(result, s[i + 2], 16, 0x10000);
    result := BitOr(result, Shl(s[i + 2], 0x10000));
    OrShifted(result, s[i + 3], 24, 0x1000000);
    result := BitOr(result, Shl(s[i + 3], 0x1000000));
  }

  /** The limbs as loaded, before carrying; the top bit of the bytes is dropped. */
  function Loaded(s: seq<Byte>): Limbs
    requires |s| == 32
  {
    Limbs(
      Little4(s, 0),
      Little3(s, 4) * 0x40,
      Little3(s, 7) * 0x20,
      Little3(s, 10) * 0x8,
      Little3(s, 13) * 0x4,
      Little4(s, 16),
      Little3(s, 20) * 0x80,
      Little3(s, 23) * 0x20,
      Little3(s, 26) * 0x10,
      (Little3(s, 29) % 0x800000) * 0x4)
  }

  lemma LowBytes(b0: int, b1: int, b2: int, b3: int, b4: int, b5: int, b6: int, b7: int, b8: int, b9: int, b10: int,
      b11: int, b12: int, b13: int, b14: int, b15: int)
    ensures b0 + 0x100 * b1 + 0x10000 * b2 + 0x1000000 * b3 + 0x100000000 * b4 + 0x10000000000 * b5
      + 0x1000000000000 * b6 + 0x100000000000000 * b7 + 0x10000000000000000 * b8 + 0x1000000000000000000 * b9
      + 0x100000000000000000000 * b10 + 0x10000000000000000000000 * b11 + 0x1000000000000000000000000 * b12
      + 0x100000000000000000000000000 * b13 + 0x10000000000000000000000000000 * b14
      + 0x1000000000000000000000000000000 * b15 ==
      0x1 * (b0 + 0x100 * b1 + 0x10000 * b2 + 0x1000000 * b3) + 0x100000000 * (b4 + 0x100 * b5 + 0x10000 * b6)
          + 0x100000000000000 * (b7 + 0x100 * b8 + 0x10000 * b9) + 0x100000000000000000000 * (b10 + 0x100 * b11
          + 0x10000 * b12) + 0x100000000000000000000000000 * (b13 + 0x100 * b14 + 0x10000 * b15)
  {
  }

  lemma HighBytes(b16: int, b17: int, b18: int, b19: int, b20: int, b21: int, b22: int, b23: int, b24: int, b25: int,
      b26: int, b27: int, b28: int, b29: int, b30: int, b31: int)
    ensures b16 + 0x100 * b17 + 0x10000 * b18 + 0x1000000 * b19 + 0x100000000 * b20 + 0x10000000000 * b21
      + 0x1000000000000 * b22 + 0x100000000000000 * b23 + 0x10000000000000000 * b24 + 0x1000000000000000000 * b25
      + 0x100000000000000000000 * b26 + 0x10000000000000000000000 * b27 + 0x1000000000000000000000000 * b28
      + 0x100000000000000000000000000 * b29 + 0x10000000000000000000000000000 * b30
      + 0x1000000000000000000000000000000 * b31 ==
      0x1 * (b16 + 0x100 * b17 + 0x10000 * b18 + 0x1000000 * b19) + 0x100000000 * (b20 + 0x100 * b21 + 0x10000 * b22)
          + 0x100000000000000 * (b23 + 0x100 * b24 + 0x10000 * b25) + 0x100000000000000000000 * (b26 + 0x100 * b27
          + 0x10000 * b28) + 0x100000000000000000000000000 * (b29 + 0x100 * b30 + 0x10000 * b31)
  {
  }

  lemma Halves(s: seq<Byte>)
    requires |s| == 32
    ensures Number(s) == Number(s[..16]) + 0x1_0000_0000_0000_0000_0000_0000_0000_0000 * Number(s[16..])
  {
    assert s == s[..16] + s[16..];
    NumberAppend(s[..16], s[16..]);
    Radices();
    assert Radix(9) == 256 * Radix(8) && Radix(10) == 256 * Radix(9) && Radix(11) == 256 * Radix(10);
    assert Radix(12) == 256 * Radix(11) && Radix(13) == 256 * Radix(12) && Radix(14) == 256 * Radix(13);
    assert Radix(15) == 256 * Radix(14) && Radix(16) == 256 * Radix(15);
  }

  lemma LowNumber(s: seq<Byte>)
    requires |s| == 32
    ensures Number(s[..16]) == 0x1 * Little4(s, 0) + 0x100000000 * Little3(s, 4) + 0x100000000000000 * Little3(s, 7)
      + 0x100000000000000000000 * Little3(s, 10) + 0x100000000000000000000000000 * Little3(s, 13)
  {
    var a := s[..16];
    NumberOf16(a);
    LowBytes(a[0], a[1], a[2], a[3], a[4], a[5], a[6], a[7], a[8], a[9], a[10], a[11], a[12], a[13], a[14], a[15]);
  }

  lemma HighNumber(s: seq<Byte>)
    requires |s| == 32
    ensures Number(s[16..]) == 0x1 * Little4(s, 16) + 0x100000000 * Little3(s, 20)
      + 0x100000000000000 * Little3(s, 23) + 0x100000000000000000000 * Little3(s, 26)
      + 0x100000000000000000000000000 * Little3(s, 29)
  {
    var a := s[16..];
    NumberOf16(a);
    HighBytes(a[0], a[1], a[2], a[3], a[4], a[5], a[6], a[7], a[8], a[9], a[10], a[11], a[12], a[13], a[14], a[15]);
  }

  /** The loaded limbs stand for the low 255 bits. */
  lemma LoadedValue(s: seq<Byte>)
    requires |s| == 32
    ensures Val(Loaded(s)) == Number(s) % (P + 19)
  {
    ValIs(Loaded(s));
    Halves(s);
    LowNumber(s);
    HighNumber(s);
    var top := Little3(s, 29) / 0x800000;
    assert Little3(s, 29) == 0x800000 * top + Little3(s, 29) % 0x800000;
    assert Number(s) == (P + 19) * top + Val(Loaded(s));
    LoadedBelow(s);
    QuotientUnique(Number(s), P + 19, top, Val(Loaded(s)));
  }

  lemma LoadedBelow(s: seq<Byte>)
    requires |s| == 32
    ensures 0 <= Val(Loaded(s)) < P + 19
  {
    ValIs(Loaded(s));
    LoadedRange(s);
  }

  lemma LoadedRange(s: seq<Byte>)
    requires |s| == 32
    ensures 0 <= Weighted(Loaded(s)) < P + 19
  {
  }

  /** The limbs fe_frombytes leaves, after its ten carries in order. */
  function Decoded(s: seq<Byte>): Limbs
    requires |s| == 32
  {
    Relaxed(Loaded(s))
  }

  function Relaxed(x: Limbs): Limbs {
    Settle(Settle(Settle(Settle(Settle(Settle(Settle(Settle(Settle(Settle(x, 9), 1), 3), 5), 7), 0), 2), 4), 6), 8)
  }

  lemma DecodedValue(s: seq<Byte>)
    requires |s| == 32
    ensures Congruent(Val(Decoded(s)), Number(s) % (P + 19))
  {
    LoadedValue(s);
    RelaxedValue(Loaded(s));
  }

  lemma RelaxedValue(x: Limbs)
    ensures Congruent(Val(Relaxed(x)), Val(x))
  {
    var x1 := Settle(x, 9);
    SettleValue(x, 9);
    var x2 := Settle(x1, 1);
    SettleValue(x1, 1);
    var x3 := Settle(x2, 3);
    SettleValue(x2, 3);
    var x4 := Settle(x3, 5);
    SettleValue(x3, 5);
    var x5 := Settle(x4, 7);
    SettleValue(x4, 7);
    var x6 := Settle(x5, 0);
    SettleValue(x5, 0);
    var x7 := Settle(x6, 2);
    SettleValue(x6, 2);
    var x8 := Settle(x7, 4);
    SettleValue(x7, 4);
    var x9 := Settle(x8, 6);
    SettleValue(x8, 6);
    var x10 := Settle(x9, 8);
    SettleValue(x9, 8);
    CongruentBy(Val(Relaxed(x)), Val(x), -Rounded(x.h9, 0x2000000));
  }

  /** fe_frombytes */
  method FromBytes(h: array<Int32>, s: array<Byte>)
    requires h.Length == 10 && s.Length == 32 && h as object != s
    modifies h
    ensures Of(h[..]) == Decoded(s[..]) && Tight(Of(h[..]))
  {
    var b := s[..];
    var l0 := Load4(b, 0);
    var l1 := Load3(b, 4);
    var l2 := Load3(b, 7);
    var l3 := Load3(b, 10);
    var l4 := Load3(b, 13);
    var l5 := Load4(b, 16);
    var l6 := Load3(b, 20);
    var l7 := Load3(b, 23);
    var l8 := Load3(b, 26);
    var l9 := Load3(b, 29);
    var odd := OddCarries(Wides(l0 as Int64, (l1 * 0x40) as Int64, (l2 * 0x20) as Int64, (l3 * 0x8) as Int64,
        (l4 * 0x4) as Int64, l5 as Int64, (l6 * 0x80) as Int64, (l7 * 0x20) as Int64, (l8 * 0x10) as Int64,
        (l9 % 0x800000 * 4) as Int64));
    var even := EvenCarries(odd);
    Write(h, Longs(even));
  }

  /** The carries out of limbs 9, 1, 3, 5 and 7. */
  method OddCarries(a: Wides) returns (w: Wides)
    requires Bounded(Longs(a), 0x1_0000_0000, 0x1_0000_0000)
    ensures Longs(w) == Settle(Settle(Settle(Settle(Settle(Longs(a), 9), 1), 3), 5), 7)
    ensures Bounded(Longs(w), 0x1_0001_0000, 0x1000000)
  {
    var Wides(h0, h1, h2, h3, h4, h5, h6, h7, h8, h9) := a;
    ghost var x := Longs(a);
    var carry := Carry25(h9);
    h0 := h0 + carry * 19;
    h9 := h9 - carry * 0x2000000;
    x := Settle(x, 9);
    assert x.h9 == h9 as int && x.h0 == h0 as int;
    carry := Carry25(h1);
    h2 := h2 + carry;
    h1 := h1 - carry * 0x2000000;
    x := Settle(x, 1);
    assert x.h1 == h1 as int && x.h2 == h2 as int;
    carry := Carry25(h3);
    h4 := h4 + carry;
    h3 := h3 - carry * 0x2000000;
    x := Settle(x, 3);
    assert x.h3 == h3 as int && x.h4 == h4 as int;
    carry := Carry25(h5);
    h6 := h6 + carry;
    h5 := h5 - carry * 0x2000000;
    x := Settle(x, 5);
    assert x.h5 == h5 as int && x.h6 == h6 as int;
    carry := Carry25(h7);
    h8 := h8 + carry;
    h7 := h7 - carry * 0x2000000;
    x := Settle(x, 7);
    assert x.h7 == h7 as int && x.h8 == h8 as int;
    w := Wides(h0, h1, h2, h3, h4, h5, h6, h7, h8, h9);
  }

  /** The carries out of limbs 0, 2, 4, 6 and 8. */
  method EvenCarries(a: Wides) returns (w: Wides)
    requires Bounded(Longs(a), 0x1_0001_0000, 0x1000000)
    ensures Longs(w) == Settle(Settle(Settle(Settle(Settle(Longs(a), 0), 2), 4), 6), 8)
    ensures Tight(Longs(w))
  {
    var Wides(h0, h1, h2, h3, h4, h5, h6, h7, h8, h9) := a;
    ghost var x := Longs(a);
    var carry := Carry26(h0);
    h1 := h1 + carry;
    h0 := h0 - carry * 0x4000000;
    x := Settle(x, 0);
    assert x.h0 == h0 as int && x.h1 == h1 as int;
    carry := Carry26(h2);
    h3 := h3 + carry;
    h2 := h2 - carry * 0x4000000;
    x := Settle(x, 2);
    assert x.h2 == h2 as int && x.h3 == h3 as int;
    carry := Carry26(h4);
    h5 := h5 + carry;
    h4 := h4 - carry * 0x4000000;
    x := Settle(x, 4);
    assert x.h4 == h4 as int && x.h5 == h5 as int;
    carry := Carry26(h6);
    h7 := h7 + carry;
    h6 := h6 - carry * 0x4000000;
    x := Settle(x, 6);
    assert x.h6 == h6 as int && x.h7 == h7 as int;
    carry := Carry26(h8);
    h9 := h9 + carry;
    h8 := h8 - carry * 0x4000000;
    x := Settle(x, 8);
    assert x.h8 == h8 as int && x.h9 == h9 as int;
    w := Wides(h0, h1, h2, h3, h4, h5, h6, h7, h8, h9);
  }

  /** Reading bytes and writing them back gives the canonical form of their low 255 bits. */
  lemma DecodeEncode(s: seq<Byte>)
    requires |s| == 32
    ensures Canonical(Val(Decoded(s))) == Canonical(Number(s) % (P + 19))
  {
    DecodedValue(s);
  }

  lemma {:induction false} NumberOfDigits(v: nat, n: nat)
    requires v < Radix(n)
    ensures Number(Digits(v, n)) == v
  {
    if n > 0 {
      QuotientBelow(v, 256, Radix(n - 1));
      NumberOfDigits(v / 256, n - 1);
      FromTail(Digits(v, n), 1);
      assert Digits(v, n)[1..] == Digits(v / 256, n - 1);
    }
  }

  lemma CanonicalNumber(v: int)
    ensures Number(Canonical(v)) == v % P
  {
    RadixAbovePrime();
    NumberOfDigits(v % P, 32);
  }

  /** The bytes come back unchanged exactly when they are below the prime. */
  lemma RoundTrip(s: seq<Byte>)
    requires |s| == 32
    ensures Canonical(Val(Decoded(s))) == s <==> Number(s) < P
  {
    DecodedValue(s);
    SameBytes(s, Val(Decoded(s)));
  }

  lemma SameBytes(s: seq<Byte>, v: int)
    requires |s| == 32 && Congruent(v, Number(s) % (P + 19))
    ensures Canonical(v) == s <==> Number(s) < P
  {
    CanonicalNumber(v);
    var n := Number(s);
    if n < P {
      SmallResidues(n);
      assert Canonical(v) == s by { DigitsOfNumber(s); }
    }
  }

  lemma SmallResidues(n: nat)
    requires n < P
    ensures n % (P + 19) == n && n % P == n
  {
    QuotientUnique(n, P + 19, 0, n);
    QuotientUnique(n, P, 0, n);
  }

  lemma RadixAbovePrime()
    ensures Radix(32) > P
  {
    Radices();
    RadixStep(8, 8);
    RadixStep(16, 16);
  }

  lemma {:induction false} RadixStep(m: nat, n: nat)
    ensures Radix(m + n) == Radix(m) * Radix(n)
  {
    if m > 0 {
      RadixStep(m - 1, n);
      MulAssoc(256, Radix(m - 1), Radix(n));
    }
  }
}
