/** The signed-window recoding `slide` of ed25519/ge.c. */
module Recoding {
  import opened Arith
  import opened Bytes

  /** Digits read in base two, least significant first. */
  function Binary(s: seq<int>): int {
    if s == [] then 0 else s[0] + 2 * Binary(s[1..])
  }

  /** A little-endian number, as the scalars are stored. */
  function LittleEndian(a: seq<Byte>): nat {
    if a == [] then 0 else a[0] + 256 * LittleEndian(a[1..])
  }

  lemma {:induction false} BinarySplit(s: seq<int>, i: nat)
    requires i <= |s|
    ensures Binary(s) == Binary(s[..i]) + Pow2(i) * Binary(s[i..])
  {
    if i == 0 {
      assert s[..0] == [] && s[0..] == s;
    } else {
      BinarySplit(s[1..], i - 1);
      assert s[1..][..i - 1] == s[..i][1..] && s[1..][i - 1..] == s[i..];
      MulAssoc(2, Pow2(i - 1), Binary(s[i..]));
    }
  }

  lemma {:induction false} BinaryUpdate(s: seq<int>, k: nat, v: int)
    requires k < |s|
    ensures Binary(s[k := v]) == Binary(s) + Pow2(k) * (v - s[k])
  {
    if k == 0 {
      assert s[0 := v][1..] == s[1..];
    } else {
      BinaryUpdate(s[1..], k - 1, v);
      assert s[k := v][1..] == s[1..][k - 1 := v];
      MulAssoc(2, Pow2(k - 1), v - s[k]);
    }
  }

  predicate Bits(s: seq<int>) {
    forall k :: 0 <= k < |s| ==> s[k] == 0 || s[k] == 1
  }

  lemma {:induction false} BitsPositive(s: seq<int>)
    requires Bits(s)
    ensures Binary(s) >= 0
  {
    if s != [] {
      BitsPositive(s[1..]);
    }
  }

  /** Bit j of a byte. */
  function BitOf(c: Byte, j: nat): (b: int)
    ensures b == 0 || b == 1
  {
    (c / Pow2(j)) % 2
  }

  predicate BitsOf(r: seq<int>, a: seq<Byte>) {
    |r| == 8 * |a| && forall k :: 0 <= k < |r| ==> r[k] == BitOf(a[k / 8], k % 8)
  }

  /** Eight digits that are the bits of a byte. */
  lemma {:induction false} ByteBits(r: seq<int>, c: Byte, j: nat)
    requires |r| >= 8 && j <= 8 && forall k :: 0 <= k < 8 ==> r[k] == BitOf(c, k)
    ensures Binary(r[j..]) == c / Pow2(j) + Pow2(8 - j) * Binary(r[8..])
    decreases 8 - j
  {
    if j == 8 {
      assert Pow2(0) == 1 && Pow2(4) == 16 && Pow2(8) == 256;
    } else {
      ByteBits(r, c, j + 1);
      assert r[j..][1..] == r[j + 1..] && r[j..][0] == BitOf(c, j);
      HalveWord(c, Pow2(j));
      MulAssoc(2, Pow2(7 - j), Binary(r[8..]));
    }
  }

  /** The bits of a little-endian number have its value. */
  lemma {:induction false} BitsValue(r: seq<int>, a: seq<Byte>)
    requires BitsOf(r, a)
    ensures Binary(r) == LittleEndian(a)
  {
    if a != [] {
      var rest := r[8..];
      forall k | 0 <= k < |rest| ensures rest[k] == BitOf(a[1..][k / 8], k % 8) {
        assert rest[k] == r[k + 8] && (k + 8) / 8 == k / 8 + 1 && (k + 8) % 8 == k % 8;
      }
      BitsValue(rest, a[1..]);
      forall k | 0 <= k < 8 ensures r[k] == BitOf(a[0], k) {
        assert k / 8 == 0 && k % 8 == k;
      }
      ByteBits(r, a[0], 0);
      assert r[0..] == r && Pow2(0) == 1 && Pow2(4) == 16 && Pow2(8) == 256;
    }
  }

  /** What the inner loop keeps: digit i is odd and small, everything above is still a
      bit, and a negative digit is followed by four zeros. */
  ghost predicate Window(s: seq<int>, b: nat) {
    && |s| >= 1 && s[0] % 2 == 1 && -15 <= s[0] <= 15 && Bits(s[1..])
    && (b <= 4 ==> 0 < s[0] < Pow2(b))
    && (s[0] < 0 ==> |s| >= 5 && forall k :: 1 <= k <= 4 ==> s[k] == 0)
    && forall k :: 1 <= k < b && k < |s| && k <= 3 ==> s[k] == 0
  }

  /** Adding a bit into the digit keeps the value. */
  lemma Absorb(s: seq<int>, b: nat)
    requires 1 <= b < |s| && s[b] == 1
    ensures Binary(s[0 := s[0] + Pow2(b)][b := 0]) == Binary(s)
  {
    var t := s[0 := s[0] + Pow2(b)];
    BinaryUpdate(s, 0, s[0] + Pow2(b));
    BinaryUpdate(t, b, 0);
    assert Pow2(0) == 1 && t[b] == 1;
  }

  lemma SmallPowers()
    ensures Pow2(0) == 1 && Pow2(1) == 2 && Pow2(2) == 4 && Pow2(3) == 8 && Pow2(4) == 16 && Pow2(5) == 32 && Pow2(6) == 64
  {
  }

  lemma WindowSkip(s: seq<int>, b: nat)
    requires Window(s, b) && 1 <= b <= 6 && b < |s| && s[b] == 0
    ensures Window(s, b + 1)
  {
    SmallPowers();
  }

  /** A bit is only absorbed within the first four places. */
  lemma WindowAbsorb(s: seq<int>, b: nat)
    requires Window(s, b) && 1 <= b <= 6 && b < |s| && s[b] == 1 && s[0] + Pow2(b) <= 15
    ensures Window(s[0 := s[0] + Pow2(b)][b := 0], b + 1)
  {
    SmallPowers();
    var t := s[0 := s[0] + Pow2(b)][b := 0];
    assert b <= 3;
    assert forall k :: 1 <= k < |s| ==> s[k] == s[1..][k - 1] && t[k] == t[1..][k - 1];
  }

  /** A subtraction only happens at the fifth place, from a positive digit. */
  lemma WindowSubtract(s: seq<int>, b: nat)
    requires Window(s, b) && 1 <= b <= 6 && b < |s| && s[b] == 1 && s[0] + Pow2(b) > 15
    ensures s[0] - Pow2(b) >= -15 ==> b == 4 && s[0] > 0
    ensures s[0] - Pow2(b) < -15 ==> Window(s, 7)
  {
    SmallPowers();
  }

  lemma WindowEnd(s: seq<int>, b: nat)
    requires Window(s, b) && b <= 7 && (b == 7 || b >= |s|)
    ensures Window(s, 7)
  {
  }

  /** A signed-window digit: zero, or odd and of magnitude at most fifteen. */
  predicate IsDigit(d: int) {
    d == 0 || (d % 2 == 1 && -15 <= d <= 15)
  }

  predicate Recoded(s: seq<int>) {
    forall k :: 0 <= k < |s| ==> IsDigit(s[k])
  }

  /** Digits that are still bits, worth at most half the range. */
  ghost predicate Ahead(s: seq<int>) {
    Bits(s) && (|s| > 0 ==> Binary(s) <= Pow2(|s| - 1))
  }

  /** A carry that ran off the end would need a larger number. */
  lemma CarryEnds(s: seq<int>, total: int)
    requires |s| >= 5 && Bits(s[1..]) && s[0] >= -15 && total <= Pow2(|s| - 1)
    ensures Binary(s) + Pow2(|s|) != total
  {
    BitsPositive(s[1..]);
    assert Binary(s) >= -15;
    Pow2Add(4, |s| - 5);
    assert Pow2(4) == 16;
  }

  /** The carry loop: adds one at position k. The digit below has been reduced by the
      same amount. */
  method Carry(r: array<int>, i: nat, k0: nat)
    requires i + 4 == k0 < r.Length && Bits(r[i + 1..]) && r[i] >= -15 && r[k0] == 1
    requires Binary(r[i..]) + Pow2(k0 - i) <= Pow2(r.Length - i - 1)
    modifies r
    ensures r[..i + 1] == old(r[..i + 1]) && Bits(r[i + 1..])
    ensures Binary(r[i..]) == old(Binary(r[i..])) + Pow2(k0 - i)
    ensures r[k0] == 0 && forall j :: i < j < k0 ==> r[j] == old(r[j])
  {
    var k := k0;
    ghost var total := Binary(r[i..]) + Pow2(k0 - i);
    while k < r.Length && r[k] != 0
      invariant k0 <= k <= r.Length && r[..k0] == old(r[..k0]) && Bits(r[i + 1..])
      invariant Binary(r[i..]) + Pow2(k - i) == total
      invariant k > k0 ==> r[k0] == 0
      invariant k == k0 ==> r[k0] == 1
    {
      ghost var s := r[i..];
      assert r[k] == r[i + 1..][k - i - 1];
      BinaryUpdate(s, k - i, 0);
      r[k] := 0;
      assert r[i..] == s[k - i := 0] && r[i + 1..] == s[k - i := 0][1..];
      k := k + 1;
    }
    if k == r.Length {
      assert r[i..][1..] == r[i + 1..];
      CarryEnds(r[i..], total);
      assert false;
    }
    ghost var s := r[i..];
    BinaryUpdate(s, k - i, 1);
    r[k] := 1;
    assert r[i..] == s[k - i := 1] && r[i + 1..] == s[k - i := 1][1..];
    assert r[..i + 1] == r[..k0][..i + 1];
  }

  /** The inner loop of slide at a nonzero digit. */
  method Collect(r: array<int>, i: nat)
    requires i < r.Length && r[i] == 1 && Ahead(r[i..])
    modifies r
    ensures r[..i] == old(r[..i]) && Binary(r[i..]) == old(Binary(r[i..])) && Window(r[i..], 7)
  {
    var b := 1;
    ghost var total := Binary(r[i..]);
    assert r[i..][1..] == r[i + 1..] && Bits(r[i + 1..]);
    SmallPowers();
    while b <= 6 && i + b < r.Length
      invariant 1 <= b <= 7 && r[..i] == old(r[..i])
      invariant Binary(r[i..]) == total && Window(r[i..], b)
    {
      ghost var s := r[i..];
      assert s[b] == s[1..][b - 1];
      if r[i + b] != 0 {
        if r[i] + Pow2(b) <= 15 {
          Absorb(s, b);
          WindowAbsorb(s, b);
          r[i], r[i + b] := r[i] + Pow2(b), 0;
          assert r[i..] == s[0 := s[0] + Pow2(b)][b := 0];
        } else {
          WindowSubtract(s, b);
          if r[i] - Pow2(b) >= -15 {
            Borrow(r, i, b);
          } else {
            return;
          }
        }
      } else {
        WindowSkip(s, b);
      }
      b := b + 1;
    }
    WindowEnd(r[i..], b);
  }

  /** The subtraction at the fifth place, and its carry. */
  method Borrow(r: array<int>, i: nat, b: nat)
    requires b == 4 && i + b < r.Length && r[i + b] == 1 && 0 < r[i] && Window(r[i..], b)
    requires Binary(r[i..]) <= Pow2(r.Length - i - 1)
    modifies r
    ensures r[..i] == old(r[..i]) && Binary(r[i..]) == old(Binary(r[i..]))
    ensures Window(r[i..], b + 1)
  {
    ghost var s := r[i..];
    ghost var t := s[0 := s[0] - Pow2(b)];
    SmallPowers();
    BinaryUpdate(s, 0, s[0] - Pow2(b));
    assert s[1..] == r[i + 1..] == t[1..];
    r[i] := r[i] - Pow2(b);
    assert r[i..] == t && r[i + 1..] == t[1..];
    Carry(r, i, i + b);
    assert r[i..][0] == r[..i + 1][i] && r[i..][1..] == r[i + 1..];
    assert r[..i] == r[..i + 1][..i];
  }

  lemma FourZeros(t: seq<int>)
    requires |t| >= 4 && t[0] == 0 && t[1] == 0 && t[2] == 0 && t[3] == 0
    ensures Binary(t) == 16 * Binary(t[4..])
  {
    assert t[1..][1..] == t[2..] && t[2..][1..] == t[3..] && t[3..][1..] == t[4..];
    assert Binary(t[3..]) == 2 * Binary(t[4..]);
    assert Binary(t[2..]) == 2 * Binary(t[3..]);
    assert Binary(t[1..]) == 2 * Binary(t[2..]);
  }

  lemma AheadArith(first: int, m: int, p: int)
    requires first >= -15 && first + 32 * m <= 32 * p
    ensures 16 * m <= 16 * p
  {
  }

  /** After a window, what lies above is again at most half its range. */
  lemma AheadNext(t: seq<int>)
    requires |t| >= 1 && Window(t, 7) && Binary(t) <= Pow2(|t| - 1)
    ensures Ahead(t[1..])
  {
    if t[0] < 0 {
      FourZeros(t[1..]);
      assert t[1..][4..] == t[5..];
      var m := Binary(t[5..]);
      if |t| > 5 {
        SmallPowers();
        Pow2Add(5, |t| - 6);
        Pow2Add(4, |t| - 6);
        AheadArith(t[0], m, Pow2(|t| - 6));
      }
    }
  }

  /** The lowest value that half a range still holds. */
  lemma AheadZero(t: seq<int>)
    requires |t| >= 1 && Ahead(t) && t[0] == 0
    ensures Ahead(t[1..])
  {
  }

  /** slide: one digit for each bit of the scalar, each zero or odd and at most fifteen,
      that together stand for the scalar. The scalar is below half the range (its
      callers' scalars are below 2^253), so that no carry leaves the last digit. */
  method Slide(r: array<int>, a: seq<Byte>)
    requires r.Length == 8 * |a| == 256 && LittleEndian(a) <= Pow2(r.Length - 1)
    modifies r
    ensures Recoded(r[..]) && Binary(r[..]) == LittleEndian(a)
  {
    Expand(r, a);
    BitsValue(r[..], a);
    Recode(r);
  }

  /** The bits of the scalar. */
  method Expand(r: array<int>, a: seq<Byte>)
    requires r.Length == 8 * |a|
    modifies r
    ensures BitsOf(r[..], a)
  {
    var i := 0;
    while i < r.Length
      invariant 0 <= i <= r.Length
      invariant forall k :: 0 <= k < i ==> r[k] == BitOf(a[k / 8], k % 8)
    {
      r[i] := BitOf(a[i / 8], i % 8);
      i := i + 1;
    }
  }

  /** The outer loop, over bits. */
  method Recode(r: array<int>)
    requires Ahead(r[..])
    modifies r
    ensures Recoded(r[..]) && Binary(r[..]) == old(Binary(r[..]))
  {
    var i := 0;
    assert r[0..] == r[..] && r[..0] == [];
    while i < r.Length
      invariant 0 <= i <= r.Length && Recoded(r[..i]) && Ahead(r[i..])
      invariant Binary(r[..i]) + Pow2(i) * Binary(r[i..]) == old(Binary(r[..]))
    {
      assert r[i..][0] == r[i];
      if r[i] != 0 {
        Collect(r, i);
        AheadNext(r[i..]);
        assert r[i..][0] == r[i];
      } else {
        AheadZero(r[i..]);
      }
      NextDigit(r[..], i);
      assert r[..][i..] == r[i..] && r[..][..i] == r[..i] && r[..][i + 1..] == r[i + 1..] && r[..][..i + 1] == r[..i + 1];
      i := i + 1;
    }
    assert r[i..] == [] && r[..i] == r[..];
  }

  /** One more digit on the finished side. */
  lemma NextDigit(s: seq<int>, i: nat)
    requires i < |s|
    ensures Binary(s[..i + 1]) + Pow2(i + 1) * Binary(s[i + 1..]) == Binary(s[..i]) + Pow2(i) * Binary(s[i..])
    ensures s[i..][1..] == s[i + 1..] && s[..i + 1] == s[..i] + [s[i]]
  {
    BinarySplit(s, i);
    BinarySplit(s, i + 1);
  }
}
