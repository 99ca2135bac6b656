/** Bytes, C strings, and big-endian integers of a fixed number of bytes. */
module Bytes {
  import opened Arith

  type Byte = x: int | 0 <= x < 256

  predicate NoNul(s: seq<Byte>) {
    forall i :: 0 <= i < |s| ==> s[i] != 0
  }

  /** A buffer read as a C string: the bytes before the first zero. */
  function CString(at: seq<Byte>): seq<Byte> {
    if at == [] || at[0] == 0 then [] else [at[0]] + CString(at[1..])
  }

  lemma {:induction false} CStringOf(s: seq<Byte>)
    requires NoNul(s)
    ensures CString(s) == s
  {
    if s != [] {
      CStringOf(s[1..]);
    }
  }

  lemma {:induction false} CStringAppend(a: seq<Byte>, b: seq<Byte>)
    requires NoNul(a)
    ensures CString(a + b) == a + CString(b)
  {
    if a == [] {
      assert a + b == b;
    } else {
      CStringAppend(a[1..], b);
      assert (a + b)[1..] == a[1..] + b;
    }
  }

  lemma {:induction false} CStringNoNul(s: seq<Byte>)
    ensures NoNul(CString(s)) && |CString(s)| <= |s|
  {
    if s != [] {
      CStringNoNul(s[1..]);
    }
  }

  /** 256 to the power n. */
  function Radix(n: nat): (p: int)
    ensures p >= 1
  {
    if n == 0 then 1 else 256 * Radix(n - 1)
  }

  /** Byte number k of v in two's complement, counted from the low end. */
  function ByteOf(v: int, k: nat): Byte {
    (v / Radix(k)) % 256
  }

  /** The n low bytes of v, most significant first. */
  function BigEndian(v: int, n: nat): (s: seq<Byte>)
    ensures |s| == n
  {
    seq(n, i requires 0 <= i < n => ByteOf(v, n - 1 - i))
  }

  lemma BigEndianCons(v: int, n: nat)
    requires n > 0
    ensures BigEndian(v, n)[0] == ByteOf(v, n - 1) && BigEndian(v, n)[1..] == BigEndian(v, n - 1)
  {
  }

  function Unsigned(s: seq<Byte>): (v: nat)
    ensures v < Radix(|s|)
  {
    if s == [] then 0 else
      MulMonotone(s[0], 255, Radix(|s| - 1));
      MulMonotone(0, s[0], Radix(|s| - 1));
      s[0] * Radix(|s| - 1) + Unsigned(s[1..])
  }

  lemma {:induction false} UnsignedOf(v: int, n: nat)
    ensures Unsigned(BigEndian(v, n)) == v % Radix(n)
  {
    if n > 0 {
      UnsignedOf(v, n - 1);
      var s := BigEndian(v, n);
      BigEndianCons(v, n);
      DigitSplit(v, Radix(n - 1));
    }
  }

  lemma DigitSplit(v: int, p: int)
    requires p >= 1
    ensures ((v / p) % 256) * p + v % p == v % (256 * p)
  {
    var q, r := v / p, v % p;
    var h, d := q / 256, q % 256;
    assert v == p * q + r && q == 256 * h + d;
    MulDist(p, 256 * h, d);
    MulAssoc(p, 256, h);
    MulMonotone(d, 255, p);
    MulMonotone(0, d, p);
    QuotientUnique(v, 256 * p, h, d * p + r);
  }

  /** A 64-bit pattern read as a signed number. */
  function Signed64(v: int): int {
    if v >= 0x8000_0000_0000_0000 then v - 0x1_0000_0000_0000_0000 else v
  }

  lemma Radices()
    ensures Radix(1) == 0x100 && Radix(2) == 0x1_0000 && Radix(4) == 0x1_0000_0000
    ensures Radix(8) == 0x1_0000_0000_0000_0000
  {
    assert Radix(3) == 256 * Radix(2) && Radix(4) == 256 * Radix(3);
    assert Radix(5) == 256 * Radix(4) && Radix(6) == 256 * Radix(5);
    assert Radix(7) == 256 * Radix(6) && Radix(8) == 256 * Radix(7);
  }
}
