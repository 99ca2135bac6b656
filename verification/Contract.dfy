/** fcontract of curve25519-donna.c: limbs of either sign become the one canonical form. */
module Contract {
  import opened Machine
  import opened Arith
  import opened Bytes
  import opened FieldLimbs
  import opened FieldMul
  import opened FieldBytes
  import opened FieldDecode
  import Donna
  import W = WordBits

  function Width(i: nat): int { Donna.Width(i) }

  /** The limb after limb i, around the top. */
  function After(i: nat): nat { if i == 9 then 0 else i + 1 }

  /** Handing over times a limb's width to the next limb keeps the value; past the top the width is
      worth nineteen times limb 0. */
  lemma Handed(s: seq<Int32>, t: seq<Int32>, i: nat, over: int)
    requires |s| == |t| == 10 && i < 10
    requires t[i] == s[i] - over * Width(i)
    requires i < 9 ==> t[i + 1] == s[i + 1] + over
    requires i == 9 ==> t[0] == s[0] + 19 * over
    requires forall j :: 0 <= j < 10 && j != i && j != After(i) ==> t[j] == s[j]
    ensures Val(Of(t)) == Val(Of(s)) - (if i == 9 then P * over else 0)
  {
    ValIs(Of(s));
    ValIs(Of(t));
    if i < 9 {
      AtOf(s);
      AtOf(t);
      Donna.MovedWeighted(Of(s), Of(t), 0, 0, i, over);
    }
  }

  lemma AtOf(s: seq<Int32>)
    requires |s| == 10
    ensures forall j :: 0 <= j < 10 ==> At(Of(s), j) == s[j]
  {
  }

  /** mask & x for a mask of all ones or none. */
  function Masked(mask: int, x: int): int
    requires mask == -1 || mask == 0
  {
    if mask == -1 then x else 0
  }

  /** What a negative limb borrows from the next: the quotient by its width, rounded down. */
  method Owed(x: Int32, i: nat) returns (carry: Int32)
    requires Below(x, 0x8000000)
    ensures carry == (if x < 0 then -(x / Width(i)) else 0) && 0 <= carry <= 4
    ensures Below(x + carry * Width(i), 0x8000000)
  {
    var mask: Int32 := x / 0x8000_0000;
    if i % 2 == 1 {
      carry := -(Masked(mask, x) / 0x2000000);
    } else {
      carry := -(Masked(mask, x) / 0x4000000);
    }
  }

  /** One turn of the borrow loop: a negative limb borrows from the next until it is not. */
  method Borrow(input: array<Int32>, i: nat)
    requires input.Length == 10 && i < 10
    requires Below(input[i], 0x8000000) && Below(input[After(i)], 0x8000000)
    modifies input
    ensures var w, over := Width(i), if old(input[i]) < 0 then old(input[i]) / Width(i) else 0;
      && input[i] == old(input[i]) - over * w
      && input[After(i)] == old(input[After(i)]) + (if i == 9 then 19 * over else over)
    ensures forall j :: 0 <= j < 10 && j != i && j != After(i) ==> input[j] == old(input[j])
    ensures Congruent(Val(Of(input[..])), Val(Of(old(input[..]))))
  {
    ghost var before := input[..];
    var carry := Owed(input[i], i);
    input[i] := input[i] + carry * Width(i);
    if i == 9 {
      input[0] := input[0] - carry * 19;
    } else {
      input[i + 1] := input[i + 1] - carry;
    }
    Handed(before, input[..], i, -carry);
    CongruentBy(Val(Of(input[..])), Val(Of(before)), if i == 9 then carry else 0);
  }

  /** A limb that is little below -2^26 borrows at most three. */
  lemma BorrowBound(x: int, w: int)
    requires w == 0x2000000 || w == 0x4000000
    requires -0x4000002 <= x < 0
    ensures -3 <= x / w <= -1 && 0 <= x - x / w * w < w
    ensures x >= -57 && w == 0x4000000 ==> x / w == -1 && x - x / w * w >= 0x4000000 - 57
    ensures x == -1 ==> x / w == -1
  {
  }

  /** A limb that is little above 2^26 carries at most two. */
  lemma CarryBound(x: int, w: int)
    requires w == 0x2000000 || w == 0x4000000
    requires 0 <= x < 0x4000000 + 39
    ensures 0 <= x / w <= 2 && 0 <= x - x / w * w < w
    ensures x < w ==> x / w == 0
    ensures w == 0x4000000 && x >= w ==> x / w == 1 && x - x / w * w < 39
    ensures x == w ==> x / w == 1 && x - x / w * w == 0
  {
  }

  /** In the first borrow pass limbs before i are no longer negative. */
  predicate Borrowing(s: seq<Int32>, i: nat) {
    && |s| == 10 && i <= 10
    && (forall j :: 0 <= j < i ==> (if i == 10 && j == 0 then -57 else 0) <= s[j] < 0x4000000)
    && (forall j :: i < j < 10 ==> Below(s[j], 0x3ffffff))
    && (i < 10 ==> -0x4000002 <= s[i] < 0x4000000)
  }

  /** In the second pass a borrow runs on only from a negative limb 0, which it leaves large. */
  predicate Reborrowing(s: seq<Int32>, i: nat) {
    && |s| == 10 && i <= 10
    && (forall j :: 0 <= j < 10 && j != i ==> 0 <= s[j] < 0x4000000)
    && (0 < i < 10 ==> -1 <= s[i] < 0x4000000 && (s[i] == -1 ==> s[0] >= 0x4000000 - 57))
    && (i == 0 ==> -57 <= s[0] < 0x4000000)
  }

  method BorrowTurn(input: array<Int32>, i: nat)
    requires input.Length == 10 && i < 10 && Borrowing(input[..], i)
    modifies input
    ensures Borrowing(input[..], i + 1) && Congruent(Val(Of(input[..])), Val(Of(old(input[..]))))
  {
    if input[i] < 0 {
      BorrowBound(input[i], Width(i));
    }
    Borrow(input, i);
  }

  method ReborrowTurn(input: array<Int32>, i: nat)
    requires input.Length == 10 && i < 10 && Reborrowing(input[..], i)
    modifies input
    ensures Reborrowing(input[..], i + 1) && Congruent(Val(Of(input[..])), Val(Of(old(input[..]))))
  {
    if input[i] < 0 {
      BorrowBound(input[i], Width(i));
    }
    Borrow(input, i);
  }

  /** Two borrow passes, and one more borrow from limb 1 that is never needed: no limb is negative. */
  method BorrowPasses(input: array<Int32>)
    requires input.Length == 10 && forall j :: 0 <= j < 10 ==> Below(input[j], 0x3ffffff)
    modifies input
    ensures forall j :: 0 <= j < 10 ==> 0 <= input[j] < 0x4000000
    ensures Congruent(Val(Of(input[..])), Val(Of(old(input[..]))))
  {
    for i := 0 to 10
      invariant Borrowing(input[..], i) && Congruent(Val(Of(input[..])), Val(Of(old(input[..]))))
    {
      BorrowTurn(input, i);
    }
    assert Reborrowing(input[..], 0);
    for i := 0 to 10
      invariant Reborrowing(input[..], i) && Congruent(Val(Of(input[..])), Val(Of(old(input[..]))))
    {
      ReborrowTurn(input, i);
    }
    Borrow(input, 0);
  }

  /** One turn of the carry loop. */
  method Carry(input: array<Int32>, i: nat)
    requires input.Length == 10 && i < 10 && 0 <= input[i] < 0x8000000 && 0 <= input[After(i)] < 0x8000000
    modifies input
    ensures var w, over := Width(i), old(input[i]) / Width(i);
      && input[i] == old(input[i]) - over * w
      && input[After(i)] == old(input[After(i)]) + (if i == 9 then 19 * over else over)
    ensures forall j :: 0 <= j < 10 && j != i && j != After(i) ==> input[j] == old(input[j])
    ensures Congruent(Val(Of(input[..])), Val(Of(old(input[..]))))
  {
    ghost var before := input[..];
    var carry: Int32;
    if i % 2 == 1 {
      carry := input[i] / 0x2000000;
      input[i] := input[i] % 0x2000000;
    } else {
      carry := input[i] / 0x4000000;
      input[i] := input[i] % 0x4000000;
    }
    if i == 9 {
      input[0] := input[0] + 19 * carry;
    } else {
      input[i + 1] := input[i + 1] + carry;
    }
    Handed(before, input[..], i, carry);
    CongruentBy(Val(Of(input[..])), Val(Of(before)), if i == 9 then -carry else 0);
  }

  predicate Fits(s: seq<Int32>, j: nat)
    requires j < |s|
  {
    0 <= s[j] < Width(j)
  }

  /** In the first carry pass limbs before i are within their bits. */
  predicate Carrying(s: seq<Int32>, i: nat) {
    && |s| == 10 && i <= 10
    && (forall j :: 0 <= j < i && !(i == 10 && j == 0) ==> Fits(s, j))
    && (i == 10 ==> 0 <= s[0] < 0x4000000 + 39)
    && (forall j :: i < j < 10 ==> 0 <= s[j] < 0x4000000)
    && (i < 10 ==> 0 <= s[i] < 0x4000000 + 3)
  }

  /** In the second pass a carry runs on only from an oversized limb 0, which it leaves small. */
  predicate Recarrying(s: seq<Int32>, i: nat) {
    && |s| == 10 && i <= 10
    && (forall j :: 0 <= j < 10 && j != i ==> Fits(s, j))
    && (0 < i < 10 ==> 0 <= s[i] <= Width(i) && (s[i] == Width(i) ==> s[0] < 39))
    && (i == 0 ==> 0 <= s[0] < 0x4000000 + 39)
  }

  method CarryTurn(input: array<Int32>, i: nat)
    requires input.Length == 10 && i < 10 && Carrying(input[..], i)
    modifies input
    ensures Carrying(input[..], i + 1) && Congruent(Val(Of(input[..])), Val(Of(old(input[..]))))
  {
    CarryBound(input[i], Width(i));
    ghost var before := input[..];
    assert i == 9 ==> Fits(before, 0);
    Carry(input, i);
    assert forall j :: 0 <= j < i && j != After(i) ==> Fits(before, j) && input[..][j] == before[j];
  }

  method RecarryTurn(input: array<Int32>, i: nat)
    requires input.Length == 10 && i < 10 && Recarrying(input[..], i)
    modifies input
    ensures Recarrying(input[..], i + 1) && Congruent(Val(Of(input[..])), Val(Of(old(input[..]))))
  {
    CarryBound(input[i], Width(i));
    ghost var before := input[..];
    assert After(i) != i && Fits(before, After(i));
    Carry(input, i);
    assert forall j :: 0 <= j < 10 && j != i && j != After(i) ==> Fits(before, j) && input[..][j] == before[j];
  }

  /** Two carry passes: every limb is within its bits. */
  method CarryPasses(input: array<Int32>)
    requires input.Length == 10 && forall j :: 0 <= j < 10 ==> 0 <= input[j] < 0x4000000
    modifies input
    ensures Settled(Of(input[..])) && Congruent(Val(Of(input[..])), Val(Of(old(input[..]))))
  {
    for i := 0 to 10
      invariant Carrying(input[..], i) && Congruent(Val(Of(input[..])), Val(Of(old(input[..]))))
    {
      CarryTurn(input, i);
    }
    for i := 0 to 10
      invariant Recarrying(input[..], i) && Congruent(Val(Of(input[..])), Val(Of(old(input[..]))))
    {
      RecarryTurn(input, i);
    }
    ghost var t := input[..];
    assert Fits(t, 0) && Fits(t, 1) && Fits(t, 2) && Fits(t, 3) && Fits(t, 4);
    assert Fits(t, 5) && Fits(t, 6) && Fits(t, 7) && Fits(t, 8) && Fits(t, 9);
  }

  /** s32_eq on bit patterns: all ones exactly when a and b agree. */
  function EqBits(a: bv32, b: bv32): bv32 {
    var x := !(a ^ b);
    var x16 := x & (x << 16);
    var x8 := x16 & (x16 << 8);
    var x4 := x8 & (x8 << 4);
    var x2 := x4 & (x4 << 2);
    var x1 := x2 & (x2 << 1);
    if x1 & 0x8000_0000 != 0 then 0xffff_ffff else 0
  }

  lemma EqBitsIs(a: bv32, b: bv32)
    ensures EqBits(a, b) == if a == b then 0xffff_ffff else 0
  {
    var x := !(a ^ b);
    var x16 := x & (x << 16);
    var x8 := x16 & (x16 << 8);
    var x4 := x8 & (x8 << 4);
    var x2 := x4 & (x4 << 2);
    Agree(a, b);
    Narrow16(x);
    Narrow8(x16);
    Narrow4(x8);
    Narrow2(x4);
    Narrow1(x2);
  }

  lemma Agree(a: bv32, b: bv32)
    ensures a == b <==> !(a ^ b) == 0xffff_ffff
  {
  }

  lemma Narrow16(x: bv32)
    ensures x == 0xffff_ffff <==> (x & (x << 16)) & 0xffff_0000 == 0xffff_0000
  {
  }

  lemma Narrow8(x: bv32)
    ensures x & 0xffff_0000 == 0xffff_0000 <==> (x & (x << 8)) & 0xff00_0000 == 0xff00_0000
  {
  }

  lemma Narrow4(x: bv32)
    ensures x & 0xff00_0000 == 0xff00_0000 <==> (x & (x << 4)) & 0xf000_0000 == 0xf000_0000
  {
  }

  lemma Narrow2(x: bv32)
    ensures x & 0xf000_0000 == 0xf000_0000 <==> (x & (x << 2)) & 0xc000_0000 == 0xc000_0000
  {
  }

  lemma Narrow1(x: bv32)
    ensures x & 0xc000_0000 == 0xc000_0000 <==> (x & (x << 1)) & 0x8000_0000 != 0
  {
  }

  /** What s32_eq returns, on the numbers. */
  function Equal(a: Int32, b: Int32): int { if a == b then -1 else 0 }

  /** On words as on the numbers they stand for. */
  lemma EqualAsCoded(a: bv32, b: bv32)
    ensures W.Signed(EqBits(a, b)) == Equal(W.Signed(a), W.Signed(b))
  {
    EqBitsIs(a, b);
    W.SignedUniform();
    if W.Signed(a) == W.Signed(b) {
      W.SignedUnique(a, b);
    }
  }

  /** s32_gte for numbers that are not negative: the complement of the sign of a - b. */
  method AtLeast(a: Int32, b: Int32) returns (mask: int)
    requires a >= 0 && b >= 0
    ensures mask == if a >= b then -1 else 0
  {
    var difference: Int32 := a - b;
    mask := -(difference / 0x8000_0000) - 1;
  }

  /** The largest value of limb i. */
  function Full(i: nat): int { Width(i) - 1 }

  /** Settled limbs stand for the prime or more exactly when all are full, but for 18 in limb 0. */
  lemma AboveTest(x: Limbs)
    requires Settled(x)
    ensures Weighted(x) >= P <==>
      x.h0 >= 0x3ffffed && x.h1 == 0x1ffffff && x.h2 == 0x3ffffff && x.h3 == 0x1ffffff && x.h4 == 0x3ffffff
      && x.h5 == 0x1ffffff && x.h6 == 0x3ffffff && x.h7 == 0x1ffffff && x.h8 == 0x3ffffff && x.h9 == 0x1ffffff
  {
  }

  /** The conditional subtraction of the prime, by a mask. */
  method SubtractPrime(x: Limbs) returns (r: Limbs)
    requires Settled(x)
    ensures Settled(r) && Val(r) == Val(x) % P
  {
    var mask := AtLeast(x.h0, 0x3ffffed);
    var i := 1;
    while i < 10
      invariant 1 <= i <= 10 && (mask == -1 || mask == 0)
      invariant mask == -1 <==> x.h0 >= 0x3ffffed && forall j :: 1 <= j < i ==> At(x, j) == Full(j)
    {
      var same := Equal(At(x, i), Full(i));
      mask := Masked(mask, same);
      i := i + 1;
    }
    AllFull(x, mask);
    r := Limbs(x.h0 - Masked(mask, 0x3ffffed), x.h1 - Masked(mask, 0x1ffffff), x.h2 - Masked(mask, 0x3ffffff),
               x.h3 - Masked(mask, 0x1ffffff), x.h4 - Masked(mask, 0x3ffffff), x.h5 - Masked(mask, 0x1ffffff),
               x.h6 - Masked(mask, 0x3ffffff), x.h7 - Masked(mask, 0x1ffffff), x.h8 - Masked(mask, 0x3ffffff),
               x.h9 - Masked(mask, 0x1ffffff));
    Subtracted(x, r, mask);
  }

  lemma AllFull(x: Limbs, mask: int)
    requires Settled(x) && (mask == -1 || mask == 0)
    requires mask == -1 <==> x.h0 >= 0x3ffffed && forall j :: 1 <= j < 10 ==> At(x, j) == Full(j)
    ensures mask == -1 <==> Weighted(x) >= P
  {
    AboveTest(x);
    assert At(x, 1) == x.h1 && At(x, 2) == x.h2 && At(x, 3) == x.h3 && At(x, 4) == x.h4 && At(x, 5) == x.h5;
    assert At(x, 6) == x.h6 && At(x, 7) == x.h7 && At(x, 8) == x.h8 && At(x, 9) == x.h9;
  }

  lemma Subtracted(x: Limbs, r: Limbs, mask: int)
    requires Settled(x) && (mask == -1 || mask == 0) && (mask == -1 <==> Weighted(x) >= P)
    requires r == if mask == -1 then Limbs(x.h0 - 0x3ffffed, x.h1 - 0x1ffffff, x.h2 - 0x3ffffff, x.h3 - 0x1ffffff,
      x.h4 - 0x3ffffff, x.h5 - 0x1ffffff, x.h6 - 0x3ffffff, x.h7 - 0x1ffffff, x.h8 - 0x3ffffff, x.h9 - 0x1ffffff) else x
    ensures Settled(r) && Val(r) == Val(x) % P
  {
    ValIs(x);
    ValIs(r);
    AboveTest(x);
    SettledWeighted(x);
    ValidQuotient(Val(x), if mask == -1 then 1 else 0);
  }

  /** One use of the packing macro: the limb, shifted left to the factor p, joins the byte that holds the
      end of the limb before it, and fills three more. */
  method Deposit(output: array<Byte>, s: nat, h: nat, p: nat, ghost k: nat, ghost w: int, ghost next: nat)
    requires output.Length == 32 && s + 4 <= 32 && Factor(p, k) && output[s] < p && h < 0x4000000
    requires w == Radix(s) * p && h * p < next * 0x1000000
    modifies output
    ensures From(output[..s + 4], 0) == old(From(output[..s + 1], 0)) + w * h
    ensures output[s + 3] < next
    ensures forall j :: s + 4 <= j < 32 ==> output[j] == old(output[j])
  {
    ghost var before := output[..s];
    ghost var low := output[s];
    assert output[..s + 1] == before + [low];
    var x := Shl(h, p);
    Shifted(low, h, p, k);
    TopPart(x, 0x1000000, next);
    output[s] := BitOr(output[s], Low(x));
    output[s + 1] := Low(Shr(x, 0x100));
    output[s + 2] := Low(Shr(x, 0x10000));
    output[s + 3] := Low(Shr(x, 0x1000000));
    assert output[..s + 4] == before + [output[s], output[s + 1], output[s + 2], output[s + 3]];
    Appended(before, low, x, [output[s], output[s + 1], output[s + 2], output[s + 3]]);
    MulAssoc(Radix(s), p, h);
  }

  /** The shifts that packing uses: the factor is 2 to the power k, at most 64. */
  predicate Factor(p: nat, k: nat) {
    k <= 6 && p == Pow2(k) && 0 < p <= 64 && p * (0x100 / p) == 0x100
  }

  lemma Appended(before: seq<Byte>, low: Byte, x: nat, b: seq<Byte>)
    requires |b| == 4 && Little4(b, 0) == low + x
    ensures From(before + b, 0) == From(before + [low], 0) + Radix(|before|) * x
  {
    var sum := From(b, 0);
    assert sum == low + x by { NumberOfFour(b); }
    NumberAppend(before, b);
    NumberAppend(before, [low]);
    assert From([low], 0) == low by { NumberOfOne(low); }
    Apart(From(before, 0), Radix(|before|), low, x, sum);
  }

  lemma Apart(f: int, r: int, low: int, x: int, sum: int)
    requires sum == low + x
    ensures f + r * sum == f + r * low + r * x
  {
  }

  lemma NumberOfFour(b: seq<int>)
    requires |b| == 4
    ensures From(b, 0) == b[0] + 0x100 * b[1] + 0x10000 * b[2] + 0x1000000 * b[3]
  {
    assert From(b, 3) == b[3];
    assert From(b, 2) == b[2] + 0x100 * b[3];
    assert From(b, 1) == b[1] + 0x100 * From(b, 2);
  }

  lemma NumberOfOne(x: int)
    ensures From([x], 0) == x
  {
    assert From([x], 1) == 0;
  }

  /** The bits that share a byte do not overlap, and no bit is shifted out of the word. */
  lemma Shifted(low: nat, h: nat, p: nat, k: nat)
    requires Factor(p, k) && low < p && h < 0x4000000
    ensures var x := Shl(h, p);
      && x == p * h && BitOr(low, Low(x)) == low + Low(x) < 0x100 && Low(Shr(x, 0x1000000)) == Shr(x, 0x1000000)
      && x == Low(x) + 0x100 * Low(Shr(x, 0x100)) + 0x10000 * Low(Shr(x, 0x10000)) + 0x1000000 * Shr(x, 0x1000000)
  {
    ShiftBound(h, p);
    WordPieces(Shl(h, p));
    JoinedByte(low, h, p, k);
  }

  lemma ShiftBound(h: nat, p: nat)
    requires p <= 64 && h < 0x4000000
    ensures Shl(h, p) == p * h < 0x1_0000_0000
  {
    MulMonotone(p, 64, h);
  }

  lemma JoinedByte(low: nat, h: nat, p: nat, k: nat)
    requires Factor(p, k) && low < p
    ensures BitOr(low, Low(Shl(h, p))) == low + Low(Shl(h, p)) < 0x100
  {
    LowBits(h, p, 0x100 / p);
    BitOrDisjoint(low, h % (0x100 / p), k);
    LowIs(Shl(h, p));
  }

  lemma WordPieces(x: nat)
    requires x < 0x1_0000_0000
    ensures Low(Shr(x, 0x1000000)) == Shr(x, 0x1000000)
    ensures x == Low(x) + 0x100 * Low(Shr(x, 0x100)) + 0x10000 * Low(Shr(x, 0x10000)) + 0x1000000 * Shr(x, 0x1000000)
  {
    TopByte(x, 0x1000000);
    Pieces(x, 0x100);
    LowIs(x);
  }

  lemma LowBits(h: nat, p: int, c: int)
    requires p > 0 && c > 0 && p * c == 0x100
    ensures h * p % 0x100 == p * (h % c) <= 0x100 - p
  {
    var q, r := h / c, h % c;
    assert h * p == 0x100 * q + p * r by {
      MulAssoc(p, c, q);
      MulDist(p, c * q, r);
    }
    assert 0 <= p * r <= 0x100 - p by {
      MulMonotone(r, c - 1, p);
      MulMonotone(0, r, p);
      MulDist(p, c, -1);
    }
    QuotientUnique(h * p, 0x100, q, p * r);
  }

  lemma Factors()
    ensures Factor(1, 0) && Factor(2, 1) && Factor(4, 2) && Factor(8, 3) && Factor(16, 4) && Factor(32, 5) && Factor(64, 6)
  {
    SmallPowers();
  }

  lemma ByteWeights()
    ensures Radix(0) == 1 && Radix(3) == 0x1000000 && Radix(6) == 0x1000000000000 && Radix(9) == 0x1000000000000000000
    ensures Radix(12) == 0x1000000000000000000000000 && Radix(16) == 0x100000000000000000000000000000000
    ensures Radix(19) == 0x100000000000000000000000000000000000000
    ensures Radix(22) == 0x100000000000000000000000000000000000000000000
    ensures Radix(25) == 0x100000000000000000000000000000000000000000000000000
    ensures Radix(28) == 0x100000000000000000000000000000000000000000000000000000000
  {
  }

  /** The packing of the lower five limbs into 16 bytes. */
  method PackLow(output: array<Byte>, r: Limbs)
    requires output.Length == 32 && Settled(r) && output[0] == 0
    modifies output
    ensures From(output[..16], 0) == r.h0 + 0x4000000 * r.h1 + 0x8000000000000 * r.h2 + 0x20000000000000000000 * r.h3
      + 0x40000000000000000000000000 * r.h4
    ensures forall j :: 16 <= j < 32 ==> output[j] == old(output[j])
  {
    ByteWeights();
    Factors();
    assert From(output[..1], 0) == 0;
    Deposit(output, 0, r.h0, 1, 0, 0x1, 4);
    Deposit(output, 3, r.h1, 4, 2, 0x4000000, 8);
    Deposit(output, 6, r.h2, 8, 3, 0x8000000000000, 32);
    Deposit(output, 9, r.h3, 32, 5, 0x20000000000000000000, 64);
    Deposit(output, 12, r.h4, 64, 6, 0x40000000000000000000000000, 256);
  }

  /** The packing of the upper five. */
  method PackHigh(output: array<Byte>, r: Limbs)
    requires output.Length == 32 && Settled(r) && output[16] == 0
    modifies output
    ensures From(output[..], 0) == old(From(output[..16], 0)) + 0x100000000000000000000000000000000 * r.h5
      + 0x200000000000000000000000000000000000000 * r.h6 + 0x800000000000000000000000000000000000000000000 * r.h7
      + 0x1000000000000000000000000000000000000000000000000000 * r.h8
      + 0x4000000000000000000000000000000000000000000000000000000000 * r.h9
  {
    ByteWeights();
    Factors();
    assert output[..17] == output[..16] + [0];
    NumberAppend(output[..16], [0]);
    NumberOfOne(0);
    Deposit(output, 16, r.h5, 1, 0, 0x100000000000000000000000000000000, 2);
    Deposit(output, 19, r.h6, 2, 1, 0x200000000000000000000000000000000000000, 8);
    Deposit(output, 22, r.h7, 8, 3, 0x800000000000000000000000000000000000000000000, 16);
    Deposit(output, 25, r.h8, 16, 4, 0x1000000000000000000000000000000000000000000000000000, 64);
    Deposit(output, 28, r.h9, 64, 6, 0x4000000000000000000000000000000000000000000000000000000000, 256);
    assert output[..32] == output[..];
  }

  method Pack(r: Limbs) returns (output: seq<Byte>)
    requires Settled(r)
    ensures |output| == 32 && Number(output) == Val(r)
  {
    var bytes := new Byte[32];
    bytes[0], bytes[16] := 0, 0;
    PackLow(bytes, r);
    PackHigh(bytes, r);
    ValIs(r);
    output := bytes[..];
  }

  /** fcontract: the same bytes as fe_tobytes for the same number. */
  method FContract(inputLimbs: Limbs) returns (output: seq<Byte>)
    requires Donna.Reduced26(inputLimbs)
    ensures output == Canonical(Val(inputLimbs))
  {
    var input := new Int32[10];
    Write10(input, inputLimbs);
    BorrowPasses(input);
    CarryPasses(input);
    var r := SubtractPrime(Of(input[..]));
    output := Pack(r);
    DigitsOfNumber(output);
  }

  method Write10(input: array<Int32>, x: Limbs)
    requires input.Length == 10 && Donna.Reduced26(x)
    modifies input
    ensures Of(input[..]) == x && forall j :: 0 <= j < 10 ==> Below(input[j], 0x3ffffff)
  {
    input[0] := x.h0;
    input[1] := x.h1;
    input[2] := x.h2;
    input[3] := x.h3;
    input[4] := x.h4;
    input[5] := x.h5;
    input[6] := x.h6;
    input[7] := x.h7;
    input[8] := x.h8;
    input[9] := x.h9;
  }
}
