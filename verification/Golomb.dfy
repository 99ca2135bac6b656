/** The adaptive Golomb codes of alac/ag_dec.c: what a code at a bit position stands for, and the two
    routines that read one through a 32-bit word. */
module Golomb {
  import opened Arith
  import opened Bytes
  import opened Machine
  import opened BitStream

  /** A decoded number and how many bits it took. */
  datatype Code = Code(value: nat, length: nat)

  /** x * y. Lemma TimesIs opens the definition. */
  function Times(x: nat, y: nat, fold: nat := 3): nat {
    if fold > 0 then Times(x, y, fold - 1) else x * y
  }

  lemma {:induction false} TimesIs(x: nat, y: nat, fold: nat := 3)
    ensures Times(x, y, fold) == x * y
  {
    if fold > 0 {
      TimesIs(x, y, fold - 1);
    }
  }

  /** A run of ones, a zero and a remainder of k bits; remainder 0 takes one bit less. Nine ones escape
      to the number itself in escape bits. */
  function CodeAt(s: seq<Byte>, pos: nat, m: nat, k: nat, escape: nat, fold: nat := 3): (c: Code)
    requires Holds(s, pos + 9 + escape) && Holds(s, pos + 9 + k)
    ensures 1 <= c.length <= 9 + k + escape
  {
    if fold > 0 then CodeAt(s, pos, m, k, escape, fold - 1) else CodeParts(s, pos, m, k, escape)
  }

  lemma {:induction false} CodeAtIs(s: seq<Byte>, pos: nat, m: nat, k: nat, escape: nat, fold: nat := 3)
    requires Holds(s, pos + 9 + escape) && Holds(s, pos + 9 + k)
    ensures CodeAt(s, pos, m, k, escape, fold) == CodeParts(s, pos, m, k, escape)
  {
    if fold > 0 {
      CodeAtIs(s, pos, m, k, escape, fold - 1);
    }
  }

  function CodeParts(s: seq<Byte>, pos: nat, m: nat, k: nat, escape: nat): (c: Code)
    requires Holds(s, pos + 9 + escape) && Holds(s, pos + 9 + k)
    ensures 1 <= c.length <= 9 + k + escape
  {
    var pre := Ones(s, pos, 9);
    if pre == 9 then Code(Bits(s, pos + 9, escape), 9 + escape)
    else
      var v := Bits(s, pos + pre + 1, k);
      if v >= 2 then Code(Times(pre, m) + v - 1, pre + 1 + k) else Code(Times(pre, m), if k == 0 then pre + 1 else pre + k)
  }

  /** A code that is not escaped, once its run of ones is known. */
  lemma ShortCode(s: seq<Byte>, pos: nat, q: nat, m: nat, k: nat, escape: nat)
    requires Holds(s, pos + 9 + escape) && Holds(s, pos + 9 + k) && k > 0 && Ones(s, pos, 9) == q < 9
    ensures CodeAt(s, pos, m, k, escape) ==
      var v := Bits(s, pos + q + 1, k); if v >= 2 then Code(Times(q, m) + v - 1, q + 1 + k) else Code(Times(q, m), q + k)
  {
    CodeAtIs(s, pos, m, k, escape);
  }

  lemma EscapedCode(s: seq<Byte>, pos: nat, m: nat, k: nat, escape: nat)
    requires Holds(s, pos + 9 + escape) && Holds(s, pos + 9 + k) && Ones(s, pos, 9) == 9
    ensures CodeAt(s, pos, m, k, escape) == Code(Bits(s, pos + 9, escape), 9 + escape)
  {
    CodeAtIs(s, pos, m, k, escape);
  }

  /** q ones and a zero. */
  function Unary(q: nat): nat { 2 * (Pow2(q) - 1) }

  /** high followed by low in b bits. Lemma JoinIs opens the definition. */
  function Join(high: nat, low: nat, b: nat, fold: nat := 3): nat {
    if fold > 0 then Join(high, low, b, fold - 1) else high * Pow2(b) + low
  }

  lemma {:induction false} JoinIs(high: nat, low: nat, b: nat, fold: nat := 3)
    ensures Join(high, low, b, fold) == high * Pow2(b) + low
  {
    if fold > 0 {
      JoinIs(high, low, b, fold - 1);
    }
  }

  /** What a code with divisor m and remainders of k bits asks of the two. */
  predicate Coder(m: nat, k: nat) { k >= 1 && 1 <= m < Pow2(k) }

  /** An encoder's word for n, as a number and a length. */
  function Codeword(n: nat, m: nat, k: nat, escape: nat, fold: nat := 3): (w: Code)
    requires Coder(m, k)
    ensures w.length >= 1
  {
    if fold > 0 then Codeword(n, m, k, escape, fold - 1) else WordParts(n, m, k, escape)
  }

  lemma {:induction false} CodewordIs(n: nat, m: nat, k: nat, escape: nat, fold: nat := 3)
    requires Coder(m, k)
    ensures Codeword(n, m, k, escape, fold) == WordParts(n, m, k, escape)
  {
    if fold > 0 {
      CodewordIs(n, m, k, escape, fold - 1);
    }
  }

  function WordParts(n: nat, m: nat, k: nat, escape: nat): (w: Code)
    requires Coder(m, k)
    ensures w.length >= 1
  {
    QuotientIs(n, m);
    if n >= 9 * m then Code(Join(511, n, escape), 9 + escape) else ShortWord(n / m, n % m, k)
  }

  /** q ones, a zero, and the remainder. */
  function ShortWord(q: nat, r: nat, k: nat): (w: Code)
    requires k >= 1
    ensures w.length >= 1
  {
    if r == 0 then Code(Join(Unary(q), 0, k - 1), q + k) else Code(Join(Unary(q), r + 1, k), q + 1 + k)
  }

  lemma BitsParts(s: seq<Byte>, pos: nat, a: nat, b: nat, high: nat, low: nat)
    requires Holds(s, pos + a + b) && low < Pow2(b)
    requires Bits(s, pos, a + b) == Join(high, low, b)
    ensures Bits(s, pos, a) == high && Bits(s, pos + a, b) == low
  {
    BitsSplit(s, pos, a, b);
    JoinIs(high, low, b);
    PartsUnique(Bits(s, pos, a), Bits(s, pos + a, b), high, low, Pow2(b));
  }

  lemma PartsUnique(a: nat, b: nat, high: nat, low: nat, p: nat)
    requires b < p && low < p && a * p + b == high * p + low
    ensures a == high && b == low
  {
    QuotientUnique(a * p + b, p, a, b);
    QuotientUnique(a * p + b, p, high, low);
  }

  lemma UnaryPrefix(s: seq<Byte>, pos: nat, q: nat)
    requires q < 9 && Holds(s, pos + 9) && Bits(s, pos, q + 1) == Unary(q)
    ensures Ones(s, pos, 9) == q
  {
    assert Pow2(q + 1) == 2 * Pow2(q);
    assert Bits(s, pos, q) == Pow2(q) - 1;
    OnesPrefix(s, pos, q, 9);
    OnesPrefix(s, pos, q + 1, 9);
  }

  lemma EscapedDecodes(s: seq<Byte>, pos: nat, n: nat, m: nat, k: nat, escape: nat)
    requires n < Pow2(escape) && Holds(s, pos + 9 + escape) && Holds(s, pos + 9 + k)
    requires Bits(s, pos, 9 + escape) == Join(511, n, escape)
    ensures CodeAt(s, pos, m, k, escape) == Code(n, 9 + escape)
  {
    BitsParts(s, pos, 9, escape, 511, n);
    Pow2Add(8, 1);
    Eight();
    OnesPrefix(s, pos, 9, 9);
    EscapedCode(s, pos, m, k, escape);
  }

  lemma ZeroDecodes(s: seq<Byte>, pos: nat, q: nat, m: nat, k: nat, escape: nat)
    requires q < 9 && k >= 1 && Holds(s, pos + 9 + escape) && Holds(s, pos + 9 + k)
    requires Bits(s, pos, q + k) == Join(Unary(q), 0, k - 1)
    ensures CodeAt(s, pos, m, k, escape) == Code(Times(q, m), q + k)
  {
    BitsParts(s, pos, q + 1, k - 1, Unary(q), 0);
    UnaryPrefix(s, pos, q);
    assert Bits(s, pos + q + 1, k) == 2 * Bits(s, pos + q + 1, k - 1) + Bit(s, pos + q + k);
    ShortCode(s, pos, q, m, k, escape);
  }

  lemma RestDecodes(s: seq<Byte>, pos: nat, q: nat, r: nat, m: nat, k: nat, escape: nat)
    requires q < 9 && k > 0 && 0 < r && r + 1 < Pow2(k) && Holds(s, pos + 9 + escape) && Holds(s, pos + 9 + k)
    requires Bits(s, pos, q + 1 + k) == Join(Unary(q), r + 1, k)
    ensures CodeAt(s, pos, m, k, escape) == Code(Times(q, m) + r, q + 1 + k)
  {
    BitsParts(s, pos, q + 1, k, Unary(q), r + 1);
    UnaryPrefix(s, pos, q);
    ShortCode(s, pos, q, m, k, escape);
  }

  lemma ShortDecodes(s: seq<Byte>, pos: nat, q: nat, r: nat, m: nat, k: nat, escape: nat)
    requires q < 9 && r < m && Coder(m, k) && Holds(s, pos + 9 + escape) && Holds(s, pos + 9 + k)
    requires var w := ShortWord(q, r, k);
      Holds(s, pos + w.length) && Bits(s, pos, w.length) == w.value
    ensures CodeAt(s, pos, m, k, escape) == Code(Times(q, m) + r, ShortWord(q, r, k).length)
  {
    if r == 0 {
      ZeroDecodes(s, pos, q, m, k, escape);
    } else {
      RestDecodes(s, pos, q, r, m, k, escape);
    }
  }

  /** Decoding the word an encoder writes for n gives n back, whatever follows the word. */
  lemma CodewordDecodes(s: seq<Byte>, pos: nat, n: nat, m: nat, k: nat, escape: nat)
    requires Coder(m, k) && n < Pow2(escape) && Holds(s, pos + 9 + escape) && Holds(s, pos + 9 + k)
    requires var w := Codeword(n, m, k, escape);
      Holds(s, pos + w.length) && Bits(s, pos, w.length) == w.value
    ensures CodeAt(s, pos, m, k, escape) == Code(n, Codeword(n, m, k, escape).length)
  {
    if n >= 9 * m {
      CodewordIs(n, m, k, escape);
      EscapedDecodes(s, pos, n, m, k, escape);
    } else {
      var q, r := Divided(n, m);
      ShortCodeword(n, m, k, escape, q, r);
      ShortDecodes(s, pos, q, r, m, k, escape);
    }
  }

  lemma Divided(n: nat, m: nat) returns (q: nat, r: nat)
    requires 0 < m && n < 9 * m
    ensures n == Times(q, m) + r && r < m && q < 9
  {
    QuotientBelow(n, m, 9);
    q, r := n / m, n % m;
    TimesIs(q, m);
    assert q * m == m * q;
  }

  lemma Quotients(n: nat, m: nat, q: nat, r: nat)
    requires r < m && n == Times(q, m) + r
    ensures n / m == q && n % m == r
  {
    TimesIs(q, m);
    assert q * m == m * q;
    QuotientUnique(n, m, q, r);
  }

  lemma ShortCodeword(n: nat, m: nat, k: nat, escape: nat, q: nat, r: nat)
    requires Coder(m, k) && n < 9 * m && r < m && n == Times(q, m) + r
    ensures Codeword(n, m, k, escape) == ShortWord(q, r, k)
  {
    CodewordIs(n, m, k, escape);
    Quotients(n, m, q, r);
  }

  /** lead: the number of zeros in front of a 32-bit word. */
  method Lead(m: nat) returns (j: nat)
    requires m < 0x1_0000_0000
    ensures j <= 32 && m < Pow2(32 - j) && (j < 32 ==> Pow2(31 - j) <= m)
  {
    Eight();
    j := 0;
    while j < 32
      invariant j <= 32 && m < Pow2(32 - j)
    {
      var c := Pow2(31 - j);
      assert Pow2(32 - j) == 2 * c;
      QuotientBelow(m, c, 2);
      if (m / c) % 2 != 0 {
        return;
      }
      j := j + 1;
    }
  }

  /** The zeros in front of the complement of a window are the stream's next ones. */
  lemma LeadOnes(x: nat, s: seq<Byte>, pos: nat, n: nat, j: nat)
    requires Window(x, s, pos, n) && n >= 9 && j <= 32 && Holds(s, pos + 9)
    requires 0xffff_ffff - x < Pow2(32 - j) && (j < 32 ==> Pow2(31 - j) <= 0xffff_ffff - x)
    ensures j >= 9 <==> Ones(s, pos, 9) == 9
    ensures j < 9 ==> Ones(s, pos, 9) == j
  {
    if j >= 9 {
      Pow2Monotone(32 - j, 23);
      OnesIff(x, s, pos, n, 9);
    } else {
      OnesIff(x, s, pos, n, j);
      OnesIff(x, s, pos, n, j + 1);
    }
  }

  lemma {:induction false} Pow2Monotone(a: nat, b: nat)
    requires a <= b
    ensures Pow2(a) <= Pow2(b)
  {
    if a < b {
      Pow2Monotone(a, b - 1);
    }
  }

  lemma OnesIff(x: nat, s: seq<Byte>, pos: nat, n: nat, t: nat)
    requires Window(x, s, pos, n) && t <= 9 <= n && Holds(s, pos + 9)
    ensures Ones(s, pos, 9) >= t <==> 0xffff_ffff - x < Pow2(32 - t)
  {
    WindowTop(x, s, pos, n, t);
    Shr32Is(x, 32 - t);
    OnesPrefix(s, pos, t, 9);
    Pow2Add(t, 32 - t);
    Eight();
    TopOnes(x, Bits(s, pos, t), Pow2(t), Pow2(32 - t));
  }

  lemma TopOnes(x: nat, v: nat, p: nat, q: nat)
    requires p * q == 0x1_0000_0000 && q > 0 && v == x / q && v < p
    ensures v == p - 1 <==> 0xffff_ffff - x < q
  {
    QuotientIs(x, q);
    MulDist(q, p, -1);
    if v < p - 1 {
      MulMonotone(v + 1, p - 1, q);
    }
  }

  /** The stream can be read for eight bytes from the one that holds bit pos. */
  predicate Room(s: seq<Byte>, pos: nat) { pos / 8 + 8 <= |s| }

  /** The k bits after the run of ones and its zero, all of them in the loaded word. */
  method Remainder(streamlong: nat, ghost s: seq<Byte>, ghost pos: nat, ghost n: nat, pre: nat, k: nat)
      returns (v: nat)
    requires Window(streamlong, s, pos, n) && pre + 1 + k <= n && k <= 32
    ensures Holds(s, pos + pre + 1 + k) && v == Bits(s, pos + pre + 1, k)
  {
    WindowIs(streamlong, s, pos, n);
    WindowShift(streamlong, s, pos, n, pre + 1);
    var shifted := Shl32(streamlong, pre + 1);
    WindowTop(shifted, s, pos + pre + 1, n - (pre + 1), k);
    v := Shr32(shifted, 32 - k);
  }

  /** dyn_get_32bit: all bits it uses are in the word it loads, so it reads the code at the position. */
  method DynGet32(s: seq<Byte>, bitPos: nat, m: nat, k: nat, maxbits: nat) returns (result: nat, newPos: nat)
    requires Room(s, bitPos) && 1 <= k <= 14 && (k == 1 ==> m == 1) && 1 <= maxbits <= 32
    ensures var c := CodeAt(s, bitPos, m, k, maxbits); result == c.value && newPos == bitPos + c.length
  {
    var streamlong := Read32Bit(s, bitPos / 8);
    LoadedWindow(s, bitPos);
    streamlong := Shl32(streamlong, bitPos % 8);
    ghost var n := 32 - bitPos % 8;
    result := Lead(0xffff_ffff - streamlong);
    LeadOnes(streamlong, s, bitPos, n, result);
    newPos := bitPos;
    if result >= 9 {
      EscapedCode(s, bitPos, m, k, maxbits);
      result := GetStreamBits(s, bitPos + 9, maxbits);
      newPos := newPos + 9 + maxbits;
    } else {
      newPos := newPos + result + 1;
      ShortCode(s, bitPos, result, m, k, maxbits);
      if k != 1 {
        var v := Remainder(streamlong, s, bitPos, n, result, k);
        newPos := newPos + k - 1;
        result := Times(result, m);
        if v >= 2 {
          result := result + (v - 1);
          newPos := newPos + 1;
        }
      } else {
        OneBit(s, bitPos + result + 1);
        TimesOne(result);
      }
    }
  }

  lemma TimesOne(x: nat)
    ensures Times(x, 1) == x
  {
    TimesIs(x, 1);
  }

  lemma OneBit(s: seq<Byte>, pos: nat)
    requires Holds(s, pos + 1)
    ensures Bits(s, pos, 1) < 2 && Pow2(1) == 2
  {
  }

  /** dyn_get: the code of a run of zeros, which escapes to 16 bits. */
  method DynGet(s: seq<Byte>, bitPos: nat, m: nat, k: nat) returns (result: nat, newPos: nat)
    requires Room(s, bitPos) && 2 <= k <= 8
    ensures var c := CodeAt(s, bitPos, m, k, 16); result == c.value && newPos == bitPos + c.length
  {
    var streamlong := Read32Bit(s, bitPos / 8);
    LoadedWindow(s, bitPos);
    streamlong := Shl32(streamlong, bitPos % 8);
    ghost var n := 32 - bitPos % 8;
    var pre := Lead(0xffff_ffff - streamlong);
    LeadOnes(streamlong, s, bitPos, n, pre);
    newPos := bitPos;
    if pre >= 9 {
      EscapedCode(s, bitPos, m, k, 16);
      pre := 9;
      newPos := newPos + pre;
      WindowShift(streamlong, s, bitPos, n, 9);
      streamlong := Shl32(streamlong, pre);
      WindowTop(streamlong, s, bitPos + 9, n - 9, 16);
      result := Shr32(streamlong, 32 - 16);
      newPos := newPos + 16;
    } else {
      newPos := newPos + pre + 1;
      ShortCode(s, bitPos, pre, m, k, 16);
      var v := Remainder(streamlong, s, bitPos, n, pre, k);
      newPos := newPos + k;
      var sum: int := Times(pre, m) + v - 1;
      if v < 2 {
        sum := sum + 1 - v;
        newPos := newPos - 1;
      }
      result := sum;
    }
  }

  /** getstreambits: up to 32 bits, which may reach into a fifth byte. */
  method GetStreamBits(s: seq<Byte>, bitoffset: nat, numbits: nat) returns (result: nat)
    requires bitoffset / 8 + 5 <= |s| && 1 <= numbits <= 32
    ensures Holds(s, bitoffset + numbits) && result == Bits(s, bitoffset, numbits)
  {
    var byteoffset := bitoffset / 8;
    var off := bitoffset % 8;
    var load1 := Read32Bit(s, byteoffset);
    LoadedWindow(s, bitoffset);
    WordBits(s, byteoffset);
    if numbits + off > 32 {
      result := Shl32(load1, off);
      var load2 := Shr32(s[byteoffset + 4], 8 - (numbits + off - 32));
      FiveBytes(s, bitoffset, numbits, result, load2);
      result := Shr32(result, 32 - numbits);
      result := BitOr(result, load2);
      KeepAll(result, numbits);
    } else {
      FourBytes(s, bitoffset, numbits, load1);
      result := Shr32(load1, 32 - numbits - off);
    }
    if numbits != 32 {
      result := Keep(result, numbits);
    }
  }

  /** The low n bits. Lemma KeepIs opens the definition. */
  function Keep(x: nat, n: nat, fold: nat := 3): nat {
    if fold > 0 then Keep(x, n, fold - 1) else x % Pow2(n)
  }

  lemma {:induction false} KeepIs(x: nat, n: nat, fold: nat := 3)
    ensures Keep(x, n, fold) == x % Pow2(n)
  {
    if fold > 0 {
      KeepIs(x, n, fold - 1);
    }
  }

  lemma KeepAll(x: nat, n: nat)
    requires x < Pow2(n)
    ensures Keep(x, n) == x
  {
    KeepIs(x, n);
    QuotientUnique(x, Pow2(n), 0, x);
  }

  lemma FourBytes(s: seq<Byte>, pos: nat, n: nat, word: nat)
    requires pos / 8 + 4 <= |s| && 1 <= n && n + pos % 8 <= 32 && word == Word(s, pos / 8)
    ensures n == 32 ==> Shr32(word, 32 - n - pos % 8) == Bits(s, pos, n)
    ensures Keep(Shr32(word, 32 - n - pos % 8), n) == Bits(s, pos, n)
  {
    KeepIs(Shr32(word, 32 - n - pos % 8), n);
    var i, off := pos / 8, pos % 8;
    WordBits(s, i);
    if n == 32 {
      Shr32Is(word, 0);
      assert Pow2(0) == 1;
    }
    FrontWord(s, i, word);
    WindowTop(word, s, 8 * i, 32, off + n);
    SkipFront(s, 8 * i, off, n);
  }

  lemma FrontWord(s: seq<Byte>, i: nat, word: nat)
    requires i + 4 <= |s| && word == Word(s, i)
    ensures Window(word, s, 8 * i, 32)
  {
    WordBits(s, i);
    WindowIs(word, s, 8 * i, 32);
    assert Pow2(0) == 1;
  }

  lemma SkipFront(s: seq<Byte>, pos: nat, a: nat, n: nat)
    requires Holds(s, pos + a + n)
    ensures Bits(s, pos, a + n) % Pow2(n) == Bits(s, pos + a, n)
  {
    BitsSplit(s, pos, a, n);
    LowPart(Bits(s, pos, a), Bits(s, pos + a, n), Pow2(n));
  }

  lemma LowPart(a: nat, b: nat, p: nat)
    requires b < p
    ensures (a * p + b) % p == b
  {
    QuotientUnique(a * p + b, p, a, b);
  }

  lemma FiveBytes(s: seq<Byte>, pos: nat, n: nat, x: nat, y: nat)
    requires pos / 8 + 5 <= |s| && n <= 32 < n + pos % 8
    requires Window(x, s, pos, 32 - pos % 8) && y == Shr32(s[pos / 8 + 4], 40 - n - pos % 8)
    ensures BitOr(Shr32(x, 32 - n), y) == Bits(s, pos, n)
  {
    var off, a := pos % 8, 32 - pos % 8;
    var b := n - a;
    WindowIs(x, s, pos, 32 - off);
    Shr32Is(x, 32 - n);
    Shr32Is(s[pos / 8 + 4], 8 - b);
    BitsSplit(s, pos, a, b);
    assert pos + a == 8 * (pos / 8 + 4);
    FrontOfByte(s, pos / 8 + 4, b);
    assert y == Bits(s, pos + a, b);
    Pow2Add(b, 32 - n);
    MulAssoc(Bits(s, pos, a), Pow2(b), Pow2(32 - n));
    QuotientUnique(x, Pow2(32 - n), Bits(s, pos, a) * Pow2(b), 0);
    OrBelow(Bits(s, pos, a), y, b, Pow2(b));
  }
}
