/** The read side of alac/ALACBitUtilities.c: a cursor of a byte and a bit index over a buffer. */
module BitBuffer {
  import opened Arith
  import opened Bytes
  import opened BitStream

  /** The word of two or three bytes, shifted past the b bits already read, then down to n bits, with t
      bits left over. */
  lemma ReadWord(s: seq<Byte>, i: nat, b: nat, n: nat, t: nat, word: nat)
    requires b <= 7 && Holds(s, 8 * i + b + n + t) && word == Bits(s, 8 * i, b + n + t)
    ensures (word * Pow2(b)) % Pow2(b + n + t) / Pow2(b + t) == Bits(s, 8 * i + b, n)
  {
    BitsSplit(s, 8 * i, b, n + t);
    BitsSplit(s, 8 * i + b, n, t);
    Pow2Add(t, b);
    Pow2Add(n + t, b);
    ReadArith(word, Bits(s, 8 * i, b), Bits(s, 8 * i + b, n + t), Bits(s, 8 * i + b, n), Bits(s, 8 * i + b + n, t),
              Pow2(n + t), Pow2(t), Pow2(b));
  }

  lemma ReadArith(x: nat, a: nat, rest: nat, v: nat, tail: nat, p: nat, q: nat, r: nat)
    requires x == a * p + rest && rest < p && rest == v * q + tail && tail < q && r > 0
    ensures p * r > 0 && q * r > 0 && (x * r) % (p * r) / (q * r) == v
  {
    Shifted(x, a, rest, p, r);
    TopArith(rest * r, v, tail, q, r);
  }

  lemma Shifted(x: nat, a: nat, b: nat, p: nat, r: nat)
    requires x == a * p + b && b < p && r > 0
    ensures p * r > 0 && (x * r) % (p * r) == b * r
  {
    MulStrict(0, p, r);
    MulStrict(b, p, r);
    MulMonotone(0, b, r);
    MulDist(r, a * p, b);
    MulAssoc(a, p, r);
    QuotientUnique(x * r, p * r, a, b * r);
  }

  lemma NextByte(s: seq<Byte>, i: nat, n: nat)
    requires i + n < |s|
    ensures Bits(s, 8 * i, 8 * n + 8) == Bits(s, 8 * i, 8 * n) * 256 + s[i + n]
  {
    Eight();
    ByteBits(s, i + n);
    BitsSplit(s, 8 * i, 8 * n, 8);
  }

  lemma TwoBytes(s: seq<Byte>, i: nat)
    requires i + 2 <= |s|
    ensures Bits(s, 8 * i, 16) == Joined(0, 0, s[i], s[i + 1])
  {
    ByteBits(s, i);
    NextByte(s, i, 1);
  }

  lemma ThreeBytes(s: seq<Byte>, i: nat)
    requires i + 3 <= |s|
    ensures Bits(s, 8 * i, 24) == Joined(0, s[i], s[i + 1], s[i + 2])
  {
    TwoBytes(s, i);
    NextByte(s, i, 2);
  }

  /** The byte b with n of its bits, below the first a, replaced by v: b & ~mask | v << shift & mask. */
  function Splice(b: Byte, a: nat, n: nat, v: nat): (r: Byte)
    requires a + n <= 8 && v < Pow2(n)
  {
    SpliceRange(b, a, n, v);
    b / Pow2(8 - a) * Pow2(8 - a) + v * Pow2(8 - a - n) + b % Pow2(8 - a - n)
  }

  lemma SpliceRange(b: Byte, a: nat, n: nat, v: nat)
    requires a + n <= 8 && v < Pow2(n)
    ensures 0 <= b / Pow2(8 - a) < Pow2(a) && 0 <= b % Pow2(8 - a - n) < Pow2(8 - a - n)
    ensures 0 <= v * Pow2(8 - a - n) + b % Pow2(8 - a - n) < Pow2(8 - a)
    ensures 0 <= b / Pow2(8 - a) * Pow2(8 - a) + v * Pow2(8 - a - n) + b % Pow2(8 - a - n) < 256
  {
    Eight();
    Pow2Add(a, 8 - a);
    Pow2Add(n, 8 - a - n);
    SpliceArith(b, v, Pow2(a), Pow2(8 - a), Pow2(n), Pow2(8 - a - n));
  }

  lemma SpliceArith(b: nat, v: nat, pa: int, qa: int, pn: int, qn: int)
    requires b < 256 && pa * qa == 256 && pn * qn == qa && pa > 0 && qa > 0 && pn > 0 && qn > 0 && v < pn
    ensures 0 <= b / qa < pa && 0 <= b % qn < qn
    ensures 0 <= v * qn + b % qn < qa
    ensures 0 <= b / qa * qa + v * qn + b % qn < 256
  {
    assert qa * pa == 256;
    QuotientBelow(b, qa, pa);
    JoinBelow(v, b % qn, pn, qn);
    JoinBelow(b / qa, v * qn + b % qn, pa, qa);
  }

  lemma JoinBelow(high: nat, low: nat, p: nat, q: nat)
    requires high < p && low < q
    ensures 0 <= high * q + low < p * q
  {
    MulMonotone(high, p - 1, q);
    MulMonotone(0, high, q);
    MulDist(q, p, -1);
  }

  lemma {:induction false} BitsSame(s: seq<Byte>, t: seq<Byte>, pos: nat, n: nat)
    requires |s| == |t| && Holds(s, pos + n)
    requires forall q :: pos <= q < pos + n ==> Bit(s, q) == Bit(t, q)
    ensures Bits(s, pos, n) == Bits(t, pos, n)
  {
    if n > 0 {
      BitsSame(s, t, pos, n - 1);
    }
  }

  lemma {:induction false} SameBits(s: seq<Byte>, t: seq<Byte>, pos: nat, n: nat)
    requires |s| == |t| && Holds(s, pos + n) && Bits(s, pos, n) == Bits(t, pos, n)
    ensures forall q :: pos <= q < pos + n ==> Bit(s, q) == Bit(t, q)
  {
    if n > 0 {
      SameBits(s, t, pos, n - 1);
    }
  }

  /** Splicing writes the bits and leaves the others alone. */
  lemma SpliceBits(s: seq<Byte>, t: seq<Byte>, i: nat, a: nat, n: nat, v: nat)
    requires i < |s| && a + n <= 8 && v < Pow2(n) && t == s[i := Splice(s[i], a, n, v)]
    ensures Bits(t, 8 * i + a, n) == v
    ensures forall q :: 0 <= q < 8 * |s| && !(8 * i + a <= q < 8 * i + a + n) ==> Bit(t, q) == Bit(s, q)
  {
    var c := 8 - a - n;
    SpliceRange(s[i], a, n, v);
    ByteParts(s, i, a, n);
    ByteParts(t, i, a, n);
    Pow2Add(n, c);
    var high, low := s[i] / Pow2(8 - a), s[i] % Pow2(c);
    PartsOf(t[i], high, v, low, Pow2(n), Pow2(c), Pow2(8 - a));
    PartsLow(s[i], Pow2(n), Pow2(c));
    SameBits(s, t, 8 * i, a);
    SameBits(s, t, 8 * i + a + n, c);
    forall q | 0 <= q < 8 * |s| && !(8 * i + a <= q < 8 * i + a + n)
      ensures Bit(t, q) == Bit(s, q)
    {
      if q / 8 != i {
        BitIs(s, q);
        BitIs(t, q);
      }
    }
  }

  lemma ByteParts(s: seq<Byte>, i: nat, a: nat, n: nat)
    requires i < |s| && a + n <= 8
    ensures Bits(s, 8 * i, a) == s[i] / Pow2(8 - a)
    ensures Bits(s, 8 * i + a, n) == s[i] / Pow2(8 - a - n) % Pow2(n)
    ensures Bits(s, 8 * i + a + n, 8 - a - n) == s[i] % Pow2(8 - a - n)
  {
    FrontOfByte(s, i, a);
    FrontOfByte(s, i, a + n);
    ByteBits(s, i);
    BackBits(s, 8 * i, a, n);
    BackBits(s, 8 * i, a + n, 8 - a - n);
  }

  lemma BackBits(s: seq<Byte>, pos: nat, a: nat, n: nat)
    requires Holds(s, pos + a + n)
    ensures Bits(s, pos, a + n) % Pow2(n) == Bits(s, pos + a, n)
  {
    BitsSplit(s, pos, a, n);
    LowPart(Bits(s, pos, a), Bits(s, pos + a, n), Pow2(n));
  }

  lemma LowPart(a: nat, b: nat, p: nat)
    requires b < p
    ensures (a * p + b) % p == b
  {
    QuotientUnique(a * p + b, p, a, b);
  }

  lemma PartsOf(b: nat, high: nat, v: nat, low: nat, p: nat, q: nat, pq: nat)
    requires p * q == pq && v < p && low < q && b == high * pq + v * q + low
    ensures b / pq == high && b / q % p == v && b % q == low
  {
    JoinBelow(v, low, p, q);
    QuotientUnique(b, pq, high, v * q + low);
    MulAssoc(high, p, q);
    assert b == q * (high * p + v) + low by { MulDist(q, high * p, v); }
    QuotientUnique(b, q, high * p + v, low);
    QuotientUnique(high * p + v, p, high, v);
  }

  lemma PartsLow(b: nat, p: nat, q: nat)
    requires p > 0 && q > 0
    ensures 0 <= b % q < q
  {
  }

  /** The n bits of v above its low bits. Lemma SliceIs opens the definition. */
  function Slice(v: nat, low: nat, n: nat, fold: nat := 3): nat {
    QuotientIs(v, Pow2(low));
    if fold > 0 then Slice(v, low, n, fold - 1) else v / Pow2(low) % Pow2(n)
  }

  lemma {:induction false} SliceIs(v: nat, low: nat, n: nat, fold: nat := 3)
    ensures Slice(v, low, n, fold) == v / Pow2(low) % Pow2(n) < Pow2(n)
  {
    if fold > 0 {
      SliceIs(v, low, n, fold - 1);
    }
  }

  /** Appending n more bits of a value that still has left bits to come. */
  lemma AppendBits(v: nat, done: nat, left: nat, n: nat)
    requires n <= left
    ensures Slice(v, left, done) * Pow2(n) + Slice(v, left - n, n) == Slice(v, left - n, done + n)
  {
    SliceIs(v, left, done);
    SliceIs(v, left - n, n);
    SliceIs(v, left - n, done + n);
    var p, q, r := Pow2(left - n), Pow2(n), Pow2(done);
    Pow2Add(left - n, n);
    Pow2Add(done, n);
    Twice(v, p, q);
    QuotientIs(v, p);
    Digits(v / p, q, r);
  }

  lemma Twice(v: nat, p: int, q: int)
    requires p > 0 && q > 0
    ensures p * q > 0 && v / (p * q) == v / p / q
  {
    MulStrict(0, p, q);
    var x, y := v / p, v % p;
    var h, d := x / q, x % q;
    assert v == p * x + y && x == q * h + d;
    MulDist(p, q * h, d);
    MulAssoc(p, q, h);
    JoinBelow(d, y, q, p);
    QuotientUnique(v, p * q, h, p * d + y);
  }

  lemma Digits(x: nat, q: int, r: int)
    requires q > 0 && r > 0
    ensures (x / q) % r * q + x % q == x % (r * q)
  {
    QuotientIs(x, q);
    DigitsOf(x, q, r, x / q, x % q, x / q / r, x / q % r);
  }

  lemma DigitsOf(x: nat, q: int, r: int, a: nat, low: nat, h: nat, d: nat)
    requires q > 0 && r > 0 && x == q * a + low && low < q && a == r * h + d && d < r
    ensures d * q + low == x % (r * q)
  {
    MulDist(q, r * h, d);
    MulAssoc(q, r, h);
    JoinBelow(d, low, r, q);
    QuotientUnique(x, r * q, h, d * q + low);
  }

  class BitBuffer {
    const buffer: array<Byte>
    var cur: nat
    var bitIndex: nat

    ghost predicate Valid() reads this { bitIndex <= 7 }

    /** BitBufferInit */
    constructor (bytes: array<Byte>)
      ensures Valid() && buffer == bytes && Position() == 0
    {
      buffer, cur, bitIndex := bytes, 0, 0;
    }

    /** BitBufferGetPosition: the bits before the cursor. */
    function Position(): nat
      reads this
    {
      8 * cur + bitIndex
    }

    /** BitBufferAdvance */
    method Advance(numBits: nat)
      requires Valid()
      modifies this
      ensures Valid() && Position() == old(Position()) + numBits
    {
      if numBits != 0 {
        bitIndex := bitIndex + numBits;
        cur := cur + bitIndex / 8;
        bitIndex := bitIndex % 8;
      }
    }

    /** BitBufferRewind: back by numBits, but not before the start of the buffer. */
    method Rewind(numBits: nat)
      requires Valid()
      modifies this
      ensures Valid() && Position() == if numBits <= old(Position()) then old(Position()) - numBits else 0
    {
      if numBits == 0 {
        return;
      }
      if bitIndex >= numBits {
        bitIndex := bitIndex - numBits;
        return;
      }
      var left := numBits - bitIndex;
      bitIndex := 0;
      var numBytes := left / 8;
      left := left % 8;
      var at: int := cur - numBytes;
      if left > 0 {
        bitIndex := 8 - left;
        at := at - 1;
      }
      if at < 0 {
        cur, bitIndex := 0, 0;
      } else {
        cur := at;
      }
    }

    /** BitBufferPeek: the next bits, from three bytes. */
    method Peek(numBits: nat) returns (bits: nat)
      requires Valid() && numBits <= 16 && cur + 3 <= buffer.Length
      ensures Holds(buffer[..], Position() + numBits) && bits == Bits(buffer[..], Position(), numBits)
    {
      ThreeBytes(buffer[..], cur);
      Eight();
      var word := Joined(0, buffer[cur], buffer[cur + 1], buffer[cur + 2]);
      ReadWord(buffer[..], cur, bitIndex, numBits, 24 - bitIndex - numBits, word);
      bits := (word * Pow2(bitIndex)) % 0x100_0000;
      bits := bits / Pow2(24 - numBits);
    }

    /** BitBufferRead */
    method Read(numBits: nat) returns (bits: nat)
      requires Valid() && numBits <= 16 && cur + 3 <= buffer.Length
      modifies this
      ensures Valid() && Position() == old(Position()) + numBits
      ensures Holds(buffer[..], Position()) && bits == Bits(buffer[..], old(Position()), numBits)
    {
      bits := Peek(numBits);
      bitIndex := bitIndex + numBits;
      cur := cur + bitIndex / 8;
      bitIndex := bitIndex % 8;
    }

    /** BitBufferReadSmall: up to eight bits, from two bytes; what the shift pushes past 16 bits is dropped. */
    method ReadSmall(numBits: nat) returns (bits: nat)
      requires Valid() && numBits <= 8 && cur + 2 <= buffer.Length
      modifies this
      ensures Valid() && Position() == old(Position()) + numBits
      ensures Holds(buffer[..], Position()) && bits == Bits(buffer[..], old(Position()), numBits)
    {
      TwoBytes(buffer[..], cur);
      Eight();
      var word := Joined(0, 0, buffer[cur], buffer[cur + 1]);
      ReadWord(buffer[..], cur, bitIndex, numBits, 16 - bitIndex - numBits, word);
      bits := (word * Pow2(bitIndex)) % 0x1_0000;
      bitIndex := bitIndex + numBits;
      bits := bits / Pow2(16 - numBits);
      cur := cur + bitIndex / 8;
      bitIndex := bitIndex % 8;
    }

    /** BitBufferReadOne */
    method ReadOne() returns (bit: nat)
      requires Valid() && cur < buffer.Length
      modifies this
      ensures Valid() && Position() == old(Position()) + 1
      ensures Holds(buffer[..], Position()) && bit == Bit(buffer[..], old(Position()))
    {
      QuotientUnique(Position(), 8, cur, bitIndex);
      BitIs(buffer[..], Position());
      bit := (buffer[cur] / Pow2(7 - bitIndex)) % 2;
      bitIndex := bitIndex + 1;
      cur := cur + bitIndex / 8;
      bitIndex := bitIndex % 8;
    }

    /** One turn of the writing loop: the bits of v that fit the current byte. */
    method WriteSome(v: nat, a: nat, n: nat)
      requires cur < buffer.Length && a + n <= 8 && v < Pow2(n)
      modifies buffer
      ensures buffer[..] == old(buffer[..])[cur := Splice(old(buffer[cur]), a, n, v)]
    {
      buffer[cur] := Splice(buffer[cur], a, n, v);
    }

    /** BitBufferWrite: exactly the numBits bits after the cursor change, to the low bits of the value. */
    method Write(bitValues: nat, numBits: nat)
      requires Valid() && Holds(buffer[..], Position() + numBits)
      modifies this, buffer
      ensures Valid() && Position() == old(Position()) + numBits
      ensures Holds(buffer[..], Position())
      ensures Bits(buffer[..], old(Position()), numBits) == bitValues % Pow2(numBits)
      ensures forall q :: 0 <= q < 8 * buffer.Length && !(old(Position()) <= q < Position()) ==>
        Bit(buffer[..], q) == Bit(old(buffer[..]), q)
    {
      if numBits == 0 {
        assert Pow2(0) == 1;
        return;
      }
      ghost var start, before := Position(), buffer[..];
      var invBitIndex := 8 - bitIndex;
      var left: nat := numBits;
      Unwritten(bitValues, numBits);
      while left > 0
        invariant left <= numBits && 1 <= invBitIndex <= 8 && 8 * cur + 8 - invBitIndex == start + (numBits - left)
        invariant Written(before, buffer[..], start, numBits, left, bitValues)
      {
        var curNum := if invBitIndex < left then invBitIndex else left;
        var tmp := bitValues / Pow2(left - curNum);
        QuotientIs(bitValues, Pow2(left - curNum));
        ghost var now := buffer[..];
        SliceIs(bitValues, left - curNum, curNum);
        WriteSome(tmp % Pow2(curNum), 8 - invBitIndex, curNum);
        WrittenMore(before, now, buffer[..], start, numBits, left, bitValues, cur, 8 - invBitIndex, curNum);
        left := left - curNum;
        invBitIndex := invBitIndex - curNum;
        if invBitIndex == 0 {
          invBitIndex := 8;
          cur := cur + 1;
        }
      }
      bitIndex := 8 - invBitIndex;
      SliceIs(bitValues, 0, numBits);
      assert Pow2(0) == 1;
    }
  }

  /** The bits from start on but for the last left ones are those of the value, the others as before. */
  ghost predicate Written(before: seq<Byte>, now: seq<Byte>, start: nat, numBits: nat, left: nat, v: nat) {
    && |now| == |before| && left <= numBits && Holds(now, start + numBits)
    && Bits(now, start, numBits - left) == Slice(v, left, numBits - left)
    && forall q :: 0 <= q < 8 * |now| && !(start <= q < start + (numBits - left)) ==> Bit(now, q) == Bit(before, q)
  }

  lemma Unwritten(v: nat, numBits: nat)
    ensures Slice(v, numBits, 0) == 0
  {
    SliceIs(v, numBits, 0);
    assert Pow2(0) == 1;
  }

  lemma WrittenMore(before: seq<Byte>, now: seq<Byte>, next: seq<Byte>, start: nat, numBits: nat, left: nat, v: nat,
      i: nat, a: nat, n: nat)
    requires Written(before, now, start, numBits, left, v) && n <= left && a + n <= 8 && i < |now|
    requires 8 * i + a == start + (numBits - left)
    requires var x := Slice(v, left - n, n); x < Pow2(n) && next == now[i := Splice(now[i], a, n, x)]
    ensures Written(before, next, start, numBits, left - n, v)
  {
    var done := numBits - left;
    SpliceBits(now, next, i, a, n, Slice(v, left - n, n));
    BitsSame(now, next, start, done);
    SpliceAppends(next, start, done, left, n, v);
    assert numBits - (left - n) == done + n;
  }

  /** The bits written before and those just written are one slice. */
  lemma SpliceAppends(next: seq<Byte>, start: nat, done: nat, left: nat, n: nat, v: nat)
    requires n <= left && Holds(next, start + done + n)
    requires Bits(next, start, done) == Slice(v, left, done) && Bits(next, start + done, n) == Slice(v, left - n, n)
    ensures Bits(next, start, done + n) == Slice(v, left - n, done + n)
  {
    BitsSplit(next, start, done, n);
    AppendBits(v, done, left, n);
  }

  /** Writing a value, going back and reading gives the value's low bits. */
  method WriteThenRead(b: BitBuffer, v: nat, n: nat) returns (r: nat)
    requires b.Valid() && n <= 16 && b.cur + 3 <= b.buffer.Length
    modifies b, b.buffer
    ensures r == v % Pow2(n) && b.Valid() && b.Position() == old(b.Position()) + n
  {
    ghost var at := b.cur;
    b.Write(v, n);
    b.Rewind(n);
    assert b.cur == at;
    r := b.Read(n);
  }
}
