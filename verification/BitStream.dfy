/** A byte buffer read as a sequence of bits, most significant first, and the 32-bit words through
    which alac/ag_dec.c looks at it. */
module BitStream {
  import opened Arith
  import opened Bytes
  import opened Machine

  /** Bit pos of the stream. Lemma BitIs opens the definition. */
  function Bit(s: seq<Byte>, pos: nat, fold: nat := 3): (b: nat)
    requires pos / 8 < |s|
    ensures b <= 1
  {
    if fold > 0 then Bit(s, pos, fold - 1) else (s[pos / 8] / Pow2(7 - pos % 8)) % 2
  }

  lemma {:induction false} BitIs(s: seq<Byte>, pos: nat, fold: nat := 3)
    requires pos / 8 < |s|
    ensures Bit(s, pos, fold) == (s[pos / 8] / Pow2(7 - pos % 8)) % 2
  {
    if fold > 0 {
      BitIs(s, pos, fold - 1);
    }
  }

  /** The stream holds the bits before end. */
  predicate Holds(s: seq<Byte>, end: nat) { end <= 8 * |s| }

  /** The number that n bits from pos stand for. */
  function Bits(s: seq<Byte>, pos: nat, n: nat): (v: nat)
    requires Holds(s, pos + n)
    ensures v < Pow2(n)
  {
    if n == 0 then 0 else 2 * Bits(s, pos, n - 1) + Bit(s, pos + n - 1)
  }

  /** The ones at the front of the next limit bits. */
  function Ones(s: seq<Byte>, pos: nat, limit: nat): (n: nat)
    requires Holds(s, pos + limit)
    ensures n <= limit
    decreases |s| + limit
  {
    if limit == 0 || Bit(s, pos) == 0 then 0 else 1 + Ones(s, pos + 1, limit - 1)
  }

  lemma {:induction false} BitsSplit(s: seq<Byte>, pos: nat, a: nat, b: nat)
    requires Holds(s, pos + a + b)
    ensures Bits(s, pos, a + b) == Bits(s, pos, a) * Pow2(b) + Bits(s, pos + a, b)
  {
    if b > 0 {
      BitsSplit(s, pos, a, b - 1);
      MulAssoc(2, Bits(s, pos, a), Pow2(b - 1));
      assert Bits(s, pos, a) * Pow2(b) == 2 * (Bits(s, pos, a) * Pow2(b - 1)) by {
        MulAssoc(Bits(s, pos, a), 2, Pow2(b - 1));
      }
    }
  }

  lemma {:induction false} OnesPrefix(s: seq<Byte>, pos: nat, j: nat, limit: nat)
    requires Holds(s, pos + limit) && j <= limit
    ensures Ones(s, pos, limit) >= j <==> Bits(s, pos, j) == Pow2(j) - 1
    decreases j
  {
    if j > 0 {
      OnesPrefix(s, pos + 1, j - 1, limit - 1);
      FirstBit(s, pos, j);
      assert Pow2(j) == 2 * Pow2(j - 1);
    } else {
      assert Bits(s, pos, 0) == 0 && Pow2(0) == 1;
    }
  }

  lemma FirstBit(s: seq<Byte>, pos: nat, j: nat)
    requires j > 0 && Holds(s, pos + j)
    ensures Bits(s, pos, j) == Bit(s, pos) * Pow2(j - 1) + Bits(s, pos + 1, j - 1)
  {
    BitsSplit(s, pos, 1, j - 1);
    assert Bits(s, pos, 0) == 0;
    assert Bits(s, pos, 1) == Bit(s, pos);
  }

  /** Eight bits from a byte boundary are the byte. */
  lemma ByteBits(s: seq<Byte>, i: nat)
    requires i < |s|
    ensures Bits(s, 8 * i, 8) == s[i]
  {
    FrontOfByte(s, i, 8);
    assert Pow2(0) == 1;
  }

  lemma {:induction false} FrontOfByte(s: seq<Byte>, i: nat, n: nat)
    requires i < |s| && n <= 8
    ensures Bits(s, 8 * i, n) == s[i] / Pow2(8 - n)
  {
    if n == 0 {
      Eight();
    } else {
      FrontOfByte(s, i, n - 1);
      var k := n - 1;
      QuotientUnique(8 * i + k, 8, i, k);
      BitIs(s, 8 * i + k);
      HalveWord(s[i], Pow2(8 - n));
    }
  }

  lemma Eight()
    ensures Pow2(8) == 256 && Pow2(16) == 0x1_0000 && Pow2(24) == 0x100_0000 && Pow2(32) == 0x1_0000_0000
  {
    assert Pow2(4) == 16;
    Pow2Add(4, 4);
    Pow2Add(8, 8);
    Pow2Add(8, 16);
    Pow2Add(16, 16);
  }

  /** The word of four bytes at i. */
  function Word(s: seq<Byte>, i: nat): nat
    requires i + 4 <= |s|
  {
    Joined(s[i], s[i + 1], s[i + 2], s[i + 3])
  }

  function Joined(a: nat, b: nat, c: nat, d: nat): nat { 0x100_0000 * a + 0x1_0000 * b + 0x100 * c + d }

  lemma WordBits(s: seq<Byte>, i: nat)
    requires i + 4 <= |s|
    ensures Bits(s, 8 * i, 32) == Word(s, i) < 0x1_0000_0000
  {
    Eight();
    ByteBits(s, i);
    ByteBits(s, i + 1);
    ByteBits(s, i + 2);
    ByteBits(s, i + 3);
    BitsSplit(s, 8 * i, 8, 8);
    BitsSplit(s, 8 * i, 16, 8);
    BitsSplit(s, 8 * i, 24, 8);
  }

  /** The word x holds the n stream bits from pos in its top bits, and zeros below. */
  ghost predicate Window(x: nat, s: seq<Byte>, pos: nat, n: nat, fold: nat := 3) {
    if fold > 0 then Window(x, s, pos, n, fold - 1)
    else n <= 32 && Holds(s, pos + n) && x == Bits(s, pos, n) * Pow2(32 - n)
  }

  lemma {:induction false} WindowIs(x: nat, s: seq<Byte>, pos: nat, n: nat, fold: nat := 3)
    ensures Window(x, s, pos, n, fold) == (n <= 32 && Holds(s, pos + n) && x == Bits(s, pos, n) * Pow2(32 - n))
  {
    if fold > 0 {
      WindowIs(x, s, pos, n, fold - 1);
    }
  }

  /** x << k in 32 bits. Lemma Shl32Is opens the definition. */
  function Shl32(x: nat, k: nat, fold: nat := 3): (r: nat)
    ensures r < 0x1_0000_0000
  {
    if fold > 0 then Shl32(x, k, fold - 1) else (x * Pow2(k)) % 0x1_0000_0000
  }

  lemma {:induction false} Shl32Is(x: nat, k: nat, fold: nat := 3)
    ensures Shl32(x, k, fold) == (x * Pow2(k)) % 0x1_0000_0000
  {
    if fold > 0 {
      Shl32Is(x, k, fold - 1);
    }
  }

  /** x >> k. Lemma Shr32Is opens the definition. */
  function Shr32(x: nat, k: nat, fold: nat := 3): nat {
    QuotientIs(x, Pow2(k));
    if fold > 0 then Shr32(x, k, fold - 1) else x / Pow2(k)
  }

  lemma {:induction false} Shr32Is(x: nat, k: nat, fold: nat := 3)
    ensures Shr32(x, k, fold) == x / Pow2(k)
  {
    if fold > 0 {
      Shr32Is(x, k, fold - 1);
    }
  }

  /** Shifting left moves the window on. */
  lemma WindowShift(x: nat, s: seq<Byte>, pos: nat, n: nat, k: nat)
    requires Window(x, s, pos, n) && k <= n
    ensures n <= 32 && Window(Shl32(x, k), s, pos + k, n - k)
  {
    WindowIs(x, s, pos, n);
    Shl32Is(x, k);
    WindowIs(Shl32(x, k), s, pos + k, n - k);
    BitsSplit(s, pos, k, n - k);
    Eight();
    Pow2Add(32 - n, k);
    Pow2Add(n - k, 32 - n + k);
    ShiftOut(x, Bits(s, pos, k), Bits(s, pos + k, n - k), Pow2(n - k), Pow2(32 - n), Pow2(k));
  }

  lemma ShiftOut(x: nat, a: nat, b: nat, p: nat, q: nat, r: nat)
    requires x == (a * p + b) * q && p * (q * r) == 0x1_0000_0000 && 0 <= b < p && q > 0 && r > 0
    ensures (x * r) % 0x1_0000_0000 == b * (q * r)
  {
    assert x * r == (a * p + b) * (q * r) by { MulAssoc(a * p + b, q, r); }
    MulDist(q * r, a * p, b);
    MulAssoc(a, p, q * r);
    MulStrict(0, r, q);
    MulStrict(b, p, q * r);
    QuotientUnique(x * r, 0x1_0000_0000, a, b * (q * r));
  }

  /** Shifting right reads the front of the window. */
  lemma WindowTop(x: nat, s: seq<Byte>, pos: nat, n: nat, k: nat)
    requires Window(x, s, pos, n) && k <= n
    ensures n <= 32 && Holds(s, pos + n) && Shr32(x, 32 - k) == Bits(s, pos, k)
  {
    WindowIs(x, s, pos, n);
    Shr32Is(x, 32 - k);
    BitsSplit(s, pos, k, n - k);
    Pow2Add(n - k, 32 - n);
    TopArith(x, Bits(s, pos, k), Bits(s, pos + k, n - k), Pow2(n - k), Pow2(32 - n));
  }

  lemma TopArith(x: nat, a: nat, b: nat, p: nat, q: nat)
    requires x == (a * p + b) * q && 0 <= b < p && q > 0
    ensures p * q > 0 && x / (p * q) == a
  {
    MulDist(q, a * p, b);
    MulAssoc(a, p, q);
    MulStrict(0, p, q);
    MulStrict(b, p, q);
    MulMonotone(0, b, q);
    assert x == (p * q) * a + b * q;
    QuotientUnique(x, p * q, a, b * q);
  }

  /** The word at a bit position, shifted so that the position comes first: at least 25 bits are there. */
  lemma LoadedWindow(s: seq<Byte>, pos: nat)
    requires pos / 8 + 4 <= |s|
    ensures Window(Shl32(Word(s, pos / 8), pos % 8), s, pos, 32 - pos % 8)
  {
    var i := pos / 8;
    WordBits(s, i);
    assert Pow2(0) == 1;
    WindowIs(Word(s, i), s, 8 * i, 32);
    WindowShift(Word(s, i), s, 8 * i, 32, pos % 8);
  }

  /** x << k for a byte, which loses nothing. */
  function Placed(x: nat, p: nat): nat { x * p }

  /** read32bit */
  method Read32Bit(s: seq<Byte>, i: nat) returns (value: nat)
    requires i + 4 <= |s|
    ensures value == Word(s, i)
  {
    Eight();
    OrBelow(s[i], Placed(s[i + 1], 0x1_0000), 24, 0x100_0000);
    value := BitOr(Placed(s[i], 0x100_0000), Placed(s[i + 1], 0x1_0000));
    OrBelow(0x100 * s[i] as nat + s[i + 1], Placed(s[i + 2], 0x100), 16, 0x1_0000);
    value := BitOr(value, Placed(s[i + 2], 0x100));
    OrBelow(0x1_0000 * s[i] as nat + 0x100 * s[i + 1] as nat + s[i + 2], s[i + 3], 8, 0x100);
    value := BitOr(value, s[i + 3]);
  }

  lemma OrBelow(a: nat, b: nat, k: nat, p: nat)
    requires p == Pow2(k) && b < p
    ensures BitOr(a * p, b) == a * p + b
  {
    assert a * p == p * a;
    BitOrCommutes(a * p, b);
    BitOrDisjoint(b, a, k);
  }
}
