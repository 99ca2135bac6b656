/** The byte-wise AES code of aes.c: the steps on the 16-byte state in place, the cipher and
    its inverse, and CBC on a buffer. */
module TinyAes {
  import opened Octets
  import opened AesField
  import opened AesSpec

  function ColAt(s: seq<Octet>, k: nat): Col
    requires k + 4 <= |s|
  {
    Col(Gf(s[k]), Gf(s[k + 1]), Gf(s[k + 2]), Gf(s[k + 3]))
  }

  /** The state that 16 bytes of a buffer hold, column by column. */
  function StateAt(s: seq<Octet>, off: nat): State
    requires off + 16 <= |s|
  {
    State(ColAt(s, off), ColAt(s, off + 4), ColAt(s, off + 8), ColAt(s, off + 12))
  }

  /** Outside the 16 bytes from off on, nothing differs. */
  ghost predicate SameElsewhere(s: seq<Octet>, t: seq<Octet>, off: nat) {
    && |s| == |t| && off + 16 <= |s|
    && forall p :: 0 <= p < |s| && !(off <= p < off + 16) ==> s[p] == t[p]
  }

  // The substitutions, row by row

  /** A byte's replacement. Lemma ReplacedIs opens the definition. */
  function Replaced(x: Octet, inverse: bool, fold: nat := 3): Octet {
    if fold > 0 then Replaced(x, inverse, fold - 1)
    else if inverse then InvSubByte(Gf(x)).bits else SubByte(Gf(x)).bits
  }

  lemma {:induction false} ReplacedIs(x: Octet, inverse: bool, fold: nat := 3)
    ensures Replaced(x, inverse, fold) == if inverse then InvSubByte(Gf(x)).bits else SubByte(Gf(x)).bits
  {
    if fold > 0 {
      ReplacedIs(x, inverse, fold - 1);
    }
  }

  /** The buffer after the first j columns of row i. */
  function CellsReplaced(s: seq<Octet>, off: nat, i: nat, j: nat, inverse: bool): (r: seq<Octet>)
    requires off + 16 <= |s| && i < 4 && j <= 4
    ensures |r| == |s|
  {
    if j == 0 then s
    else
      var k := off + 4 * (j - 1) + i;
      CellsReplaced(s, off, i, j - 1, inverse)[k := Replaced(s[k], inverse)]
  }

  /** The buffer after the first i rows. */
  function RowsReplaced(s: seq<Octet>, off: nat, i: nat, inverse: bool): (r: seq<Octet>)
    requires off + 16 <= |s| && i <= 4
    ensures |r| == |s|
  {
    if i == 0 then s else CellsReplaced(RowsReplaced(s, off, i - 1, inverse), off, i - 1, 4, inverse)
  }

  /** What a row's loop has written. */
  lemma RowCells(s: seq<Octet>, off: nat, i: nat, inverse: bool)
    requires off + 16 <= |s| && i < 4
    ensures var r := CellsReplaced(s, off, i, 4, inverse);
      && (forall p :: 0 <= p < |s| && p != off + i && p != off + 4 + i && p != off + 8 + i && p != off + 12 + i ==> r[p] == s[p])
      && r[off + i] == Replaced(s[off + i], inverse) && r[off + 4 + i] == Replaced(s[off + 4 + i], inverse)
      && r[off + 8 + i] == Replaced(s[off + 8 + i], inverse) && r[off + 12 + i] == Replaced(s[off + 12 + i], inverse)
  {
    var s1 := CellsReplaced(s, off, i, 1, inverse);
    var s2 := CellsReplaced(s, off, i, 2, inverse);
    var s3 := CellsReplaced(s, off, i, 3, inverse);
    assert CellsReplaced(s, off, i, 0, inverse) == s;
    assert s1 == s[off + i := Replaced(s[off + i], inverse)];
    assert s2 == s1[off + 4 + i := Replaced(s[off + 4 + i], inverse)];
    assert s3 == s2[off + 8 + i := Replaced(s[off + 8 + i], inverse)];
    assert CellsReplaced(s, off, i, 4, inverse) == s3[off + 12 + i := Replaced(s[off + 12 + i], inverse)];
  }

  /** The byte in row r of column k, once i rows are done. */
  lemma {:induction false} RowAt(s: seq<Octet>, off: nat, i: nat, inverse: bool, k: nat, r: nat)
    requires off + 16 <= |s| && i <= 4 && k < 4 && r < 4
    ensures var x := s[off + 4 * k + r]; RowsReplaced(s, off, i, inverse)[off + 4 * k + r] == if r < i then Replaced(x, inverse) else x
  {
    if i > 0 {
      RowAt(s, off, i - 1, inverse, k, r);
      RowCells(RowsReplaced(s, off, i - 1, inverse), off, i - 1, inverse);
    }
  }

  lemma {:induction false} RowsElsewhere(s: seq<Octet>, off: nat, i: nat, inverse: bool, p: nat)
    requires off + 16 <= |s| && i <= 4 && p < |s| && !(off <= p < off + 16)
    ensures RowsReplaced(s, off, i, inverse)[p] == s[p]
  {
    if i > 0 {
      RowsElsewhere(s, off, i - 1, inverse, p);
      RowCells(RowsReplaced(s, off, i - 1, inverse), off, i - 1, inverse);
    }
  }

  /** All four rows: every byte of the state, and nothing else. */
  lemma AllRows(s: seq<Octet>, off: nat, inverse: bool)
    requires off + 16 <= |s|
    ensures var r := RowsReplaced(s, off, 4, inverse);
      && (forall p :: off <= p < off + 16 ==> r[p] == Replaced(s[p], inverse))
      && SameElsewhere(r, s, off)
  {
    var r := RowsReplaced(s, off, 4, inverse);
    forall p | off <= p < off + 16
      ensures r[p] == Replaced(s[p], inverse)
    {
      RowAt(s, off, 4, inverse, (p - off) / 4, (p - off) % 4);
    }
    forall p | 0 <= p < |s| && !(off <= p < off + 16)
      ensures r[p] == s[p]
    {
      RowsElsewhere(s, off, 4, inverse, p);
    }
  }

  lemma StateReplaced(s: seq<Octet>, r: seq<Octet>, off: nat, inverse: bool)
    requires off + 16 <= |s| == |r| && forall p :: off <= p < off + 16 ==> r[p] == Replaced(s[p], inverse)
    ensures StateAt(r, off) == if inverse then InvSub(StateAt(s, off)) else Sub(StateAt(s, off))
  {
    ColumnReplaced(s, r, off, inverse);
    ColumnReplaced(s, r, off + 4, inverse);
    ColumnReplaced(s, r, off + 8, inverse);
    ColumnReplaced(s, r, off + 12, inverse);
  }

  lemma ColumnReplaced(s: seq<Octet>, r: seq<Octet>, k: nat, inverse: bool)
    requires k + 4 <= |s| == |r| && forall p :: k <= p < k + 4 ==> r[p] == Replaced(s[p], inverse)
    ensures ColAt(r, k) == if inverse then InvSubCol(ColAt(s, k)) else SubCol(ColAt(s, k))
  {
    ReplacedIs(s[k], inverse);
    ReplacedIs(s[k + 1], inverse);
    ReplacedIs(s[k + 2], inverse);
    ReplacedIs(s[k + 3], inverse);
  }

  /** SubBytes */
  method SubBytes(buf: array<Octet>, off: nat)
    requires off + 16 <= buf.Length
    modifies buf
    ensures SameElsewhere(buf[..], old(buf[..]), off)
    ensures StateAt(buf[..], off) == Sub(StateAt(old(buf[..]), off))
  {
    ghost var s := buf[..];
    var i := 0;
    while i < 4
      invariant 0 <= i <= 4 && buf[..] == RowsReplaced(s, off, i, false)
    {
      SubBytesRow(buf, off, i);
      i := i + 1;
    }
    AllRows(s, off, false);
    StateReplaced(s, buf[..], off, false);
  }

  /** The inner loop: row i, column by column. */
  method SubBytesRow(buf: array<Octet>, off: nat, i: nat)
    requires off + 16 <= buf.Length && i < 4
    modifies buf
    ensures buf[..] == CellsReplaced(old(buf[..]), off, i, 4, false)
  {
    ghost var s := buf[..];
    var j := 0;
    while j < 4
      invariant 0 <= j <= 4 && buf[..] == CellsReplaced(s, off, i, j, false)
      invariant forall k :: off + 4 * j <= k < off + 16 ==> buf[k] == s[k]
    {
      ReplacedIs(buf[off + 4 * j + i], false);
      buf[off + 4 * j + i] := SubByte(Gf(buf[off + 4 * j + i])).bits;
      j := j + 1;
    }
  }

  /** Four bytes of a buffer, a column apart, moved: byte k takes the old byte k + n. */
  ghost predicate Rotated(s: seq<Octet>, t: seq<Octet>, p: nat, n: nat) {
    && |s| == |t| && p + 13 <= |s|
    && s[p] == t[p + 4 * (n % 4)] && s[p + 4] == t[p + 4 * ((1 + n) % 4)]
    && s[p + 8] == t[p + 4 * ((2 + n) % 4)] && s[p + 12] == t[p + 4 * ((3 + n) % 4)]
    && forall q :: 0 <= q < |s| && q != p && q != p + 4 && q != p + 8 && q != p + 12 ==> s[q] == t[q]
  }

  /** The first row of ShiftRows: one column to the left. */
  method RotateOne(buf: array<Octet>, p: nat)
    requires p + 13 <= buf.Length
    modifies buf
    ensures Rotated(buf[..], old(buf[..]), p, 1)
  {
    var temp := buf[p];
    buf[p] := buf[p + 4];
    buf[p + 4] := buf[p + 8];
    buf[p + 8] := buf[p + 12];
    buf[p + 12] := temp;
  }

  /** The second row: two columns. */
  method RotateTwo(buf: array<Octet>, p: nat)
    requires p + 13 <= buf.Length
    modifies buf
    ensures Rotated(buf[..], old(buf[..]), p, 2)
  {
    var temp := buf[p];
    buf[p] := buf[p + 8];
    buf[p + 8] := temp;
    temp := buf[p + 4];
    buf[p + 4] := buf[p + 12];
    buf[p + 12] := temp;
  }

  /** The third row: three columns, that is one to the right. */
  method RotateThree(buf: array<Octet>, p: nat)
    requires p + 13 <= buf.Length
    modifies buf
    ensures Rotated(buf[..], old(buf[..]), p, 3)
  {
    var temp := buf[p];
    buf[p] := buf[p + 12];
    buf[p + 12] := buf[p + 8];
    buf[p + 8] := buf[p + 4];
    buf[p + 4] := temp;
  }

  /** Rows 1, 2, 3 moved by different amounts. */
  lemma RowsMoved(s0: seq<Octet>, s1: seq<Octet>, s2: seq<Octet>, s3: seq<Octet>, off: nat, m: nat)
    requires off + 16 <= |s0| && (m == 1 || m == 3)
    requires Rotated(s1, s0, off + 1, m) && Rotated(s2, s1, off + 2, 2) && Rotated(s3, s2, off + 3, 4 - m)
    ensures SameElsewhere(s3, s0, off)
    ensures m == 1 ==> StateAt(s3, off) == Shift(StateAt(s0, off))
    ensures m == 3 ==> StateAt(s3, off) == InvShift(StateAt(s0, off))
  {
  }

  /** ShiftRows */
  method ShiftRows(buf: array<Octet>, off: nat)
    requires off + 16 <= buf.Length
    modifies buf
    ensures SameElsewhere(buf[..], old(buf[..]), off)
    ensures StateAt(buf[..], off) == Shift(StateAt(old(buf[..]), off))
  {
    ghost var s0 := buf[..];
    RotateOne(buf, off + 1);
    ghost var s1 := buf[..];
    RotateTwo(buf, off + 2);
    ghost var s2 := buf[..];
    RotateThree(buf, off + 3);
    RowsMoved(s0, s1, s2, buf[..], off, 1);
  }

  /** InvShiftRows */
  method InvShiftRows(buf: array<Octet>, off: nat)
    requires off + 16 <= buf.Length
    modifies buf
    ensures SameElsewhere(buf[..], old(buf[..]), off)
    ensures StateAt(buf[..], off) == InvShift(StateAt(old(buf[..]), off))
  {
    ghost var s0 := buf[..];
    RotateThree(buf, off + 1);
    ghost var s1 := buf[..];
    RotateTwo(buf, off + 2);
    ghost var s2 := buf[..];
    RotateOne(buf, off + 3);
    RowsMoved(s0, s1, s2, buf[..], off, 3);
  }

  /** InvSubBytes */
  method InvSubBytes(buf: array<Octet>, off: nat)
    requires off + 16 <= buf.Length
    modifies buf
    ensures SameElsewhere(buf[..], old(buf[..]), off)
    ensures StateAt(buf[..], off) == InvSub(StateAt(old(buf[..]), off))
  {
    ghost var s := buf[..];
    var i := 0;
    while i < 4
      invariant 0 <= i <= 4 && buf[..] == RowsReplaced(s, off, i, true)
    {
      InvSubBytesRow(buf, off, i);
      i := i + 1;
    }
    AllRows(s, off, true);
    StateReplaced(s, buf[..], off, true);
  }

  /** The inner loop: row i, column by column. */
  method InvSubBytesRow(buf: array<Octet>, off: nat, i: nat)
    requires off + 16 <= buf.Length && i < 4
    modifies buf
    ensures buf[..] == CellsReplaced(old(buf[..]), off, i, 4, true)
  {
    ghost var s := buf[..];
    var j := 0;
    while j < 4
      invariant 0 <= j <= 4 && buf[..] == CellsReplaced(s, off, i, j, true)
      invariant forall k :: off + 4 * j <= k < off + 16 ==> buf[k] == s[k]
    {
      ReplacedIs(buf[off + 4 * j + i], true);
      buf[off + 4 * j + i] := InvSubByte(Gf(buf[off + 4 * j + i])).bits;
      j := j + 1;
    }
  }

  /** AddRoundKey */
  method AddRoundKey(round: nat, buf: array<Octet>, off: nat, roundKey: seq<Octet>)
    requires off + 16 <= buf.Length && 16 * round + 16 <= |roundKey|
    modifies buf
    ensures SameElsewhere(buf[..], old(buf[..]), off)
    ensures StateAt(buf[..], off) == AddKey(StateAt(old(buf[..]), off), StateAt(roundKey, 16 * round))
  {
    var i := 0;
    while i < 4
      invariant 0 <= i <= 4
      invariant forall p :: 0 <= p < buf.Length ==>
                  buf[p] == if off <= p < off + 4 * i then Add(Gf(old(buf[p])),
                      Gf(roundKey[16 * round + p - off])).bits else old(buf[p])
    {
      var j := 0;
      while j < 4
        invariant 0 <= j <= 4
        invariant forall p :: 0 <= p < buf.Length ==>
                    buf[p] == if off <= p < off + 4 * i + j then Add(Gf(old(buf[p])),
                        Gf(roundKey[16 * round + p - off])).bits else old(buf[p])
      {
        buf[off + 4 * i + j] := Add(Gf(buf[off + 4 * i + j]), Gf(roundKey[16 * round + 4 * i + j])).bits;
        j := j + 1;
      }
      i := i + 1;
    }
  }

  /** One column of MixColumns as aes.c computes it. */
  function MixColumnSteps(x: Col): Col {
    var t := x.a;
    var tmp := Add(Add(Add(x.a, x.b), x.c), x.d);
    Col(Add(x.a, Add(XTime(Add(x.a, x.b)), tmp)), Add(x.b, Add(XTime(Add(x.b, x.c)), tmp)),
        Add(x.c, Add(XTime(Add(x.c, x.d)), tmp)), Add(x.d, Add(XTime(Add(x.d, t)), tmp)))
  }

  /** Adding the whole sum to one term leaves the other three. */
  lemma OtherThree(a: Gf, b: Gf, c: Gf, d: Gf)
    ensures Add(a, Add(XTime(Add(a, b)), Add(Add(Add(a, b), c), d))) == Row(a, b, c, d)
  {
    var xa, xb := XTime(a), XTime(b);
    XTimeLinear(a, b);
    SmallProducts(a);
    SmallProducts(b);
    AddAssoc(Add(a, b), c, d);
    AddAssoc(a, b, Add(c, d));
    AddComm(Add(xa, xb), Add(a, Add(b, Add(c, d))));
    AddAssoc(a, Add(b, Add(c, d)), Add(xa, xb));
    AddAssoc(a, a, Add(Add(b, Add(c, d)), Add(xa, xb)));
    AddZero(a);
    AddZero(Add(Add(b, Add(c, d)), Add(xa, xb)));
    AddComm(Add(b, Add(c, d)), Add(xa, xb));
    AddAssoc(xa, xb, Add(b, Add(c, d)));
    AddAssoc(xb, b, Add(c, d));
    AddComm(xb, b);
    AddAssoc(xa, Add(b, xb), Add(c, d));
  }

  lemma TotalRotated(a: Gf, b: Gf, c: Gf, d: Gf)
    ensures Add(Add(Add(a, b), c), d) == Add(Add(Add(b, c), d), a)
  {
    AddAssoc(a, b, c);
    AddAssoc(a, Add(b, c), d);
    AddComm(a, Add(Add(b, c), d));
  }

  lemma MixColumnStepsIs(x: Col)
    ensures MixColumnSteps(x) == MixCol(x)
  {
    OtherThree(x.a, x.b, x.c, x.d);
    OtherThree(x.b, x.c, x.d, x.a);
    OtherThree(x.c, x.d, x.a, x.b);
    OtherThree(x.d, x.a, x.b, x.c);
    TotalRotated(x.a, x.b, x.c, x.d);
    TotalRotated(x.b, x.c, x.d, x.a);
    TotalRotated(x.c, x.d, x.a, x.b);
  }

  /** Multiply of aes.c: the terms of y's bits, added from the left. */
  function Multiply(x: Gf, y: Poly): Gf {
    var x1 := XTime(x);
    var x2 := XTime(x1);
    var x3 := XTime(x2);
    Add(Add(Add(Add(Pick(y.p0, x), Pick(y.p1, x1)), Pick(y.p2, x2)), Pick(y.p3, x3)), Pick(y.p4, XTime(x3)))
  }

  lemma MultiplyIs(x: Gf, y: Poly)
    ensures Multiply(x, y) == Product(y, x)
  {
    ProductIs(y, x);
    var x1 := XTime(x);
    var x2 := XTime(x1);
    var x3 := XTime(x2);
    var t0, t1, t2, t3, t4 := Pick(y.p0, x), Pick(y.p1, x1), Pick(y.p2, x2), Pick(y.p3, x3), Pick(y.p4, XTime(x3));
    AddAssoc(Add(Add(t0, t1), t2), t3, t4);
    AddAssoc(Add(t0, t1), t2, Add(t3, t4));
    AddAssoc(t0, t1, Add(t2, Add(t3, t4)));
  }

  /** Four terms added from the left. */
  function LeftSum(w: Gf, x: Gf, y: Gf, z: Gf): Gf {
    Add(Add(Add(w, x), y), z)
  }

  lemma LeftSumIs(w: Gf, x: Gf, y: Gf, z: Gf)
    ensures LeftSum(w, x, y, z) == Sum(w, x, y, z) == Sum(x, y, z, w) == Sum(y, z, w, x) == Sum(z, w, x, y)
  {
    AddAssoc(Add(w, x), y, z);
    Rotate(x, y, z, w);
    Rotate(y, z, w, x);
    Rotate(z, w, x, y);
  }

  /** One column of InvMixColumns as aes.c computes it. */
  function InvMixColumnSteps(x: Col): Col {
    Col(LeftSum(Multiply(x.a, Fourteen), Multiply(x.b, Eleven), Multiply(x.c, Thirteen), Multiply(x.d, Nine)),
        LeftSum(Multiply(x.a, Nine), Multiply(x.b, Fourteen), Multiply(x.c, Eleven), Multiply(x.d, Thirteen)),
        LeftSum(Multiply(x.a, Thirteen), Multiply(x.b, Nine), Multiply(x.c, Fourteen), Multiply(x.d, Eleven)),
        LeftSum(Multiply(x.a, Eleven), Multiply(x.b, Thirteen), Multiply(x.c, Nine), Multiply(x.d, Fourteen)))
  }

  lemma AllMultiples(x: Gf)
    ensures Multiply(x, Nine) == Product(Nine, x) && Multiply(x, Eleven) == Product(Eleven, x)
    ensures Multiply(x, Thirteen) == Product(Thirteen, x) && Multiply(x, Fourteen) == Product(Fourteen, x)
  {
    MultiplyIs(x, Nine);
    MultiplyIs(x, Eleven);
    MultiplyIs(x, Thirteen);
    MultiplyIs(x, Fourteen);
  }

  lemma InvMixColumnStepsIs(x: Col)
    ensures InvMixColumnSteps(x) == InvMixCol(x)
  {
    AllMultiples(x.a);
    AllMultiples(x.b);
    AllMultiples(x.c);
    AllMultiples(x.d);
    LeftSumIs(Product(Fourteen, x.a), Product(Eleven, x.b), Product(Thirteen, x.c), Product(Nine, x.d));
    LeftSumIs(Product(Nine, x.a), Product(Fourteen, x.b), Product(Eleven, x.c), Product(Thirteen, x.d));
    LeftSumIs(Product(Thirteen, x.a), Product(Nine, x.b), Product(Fourteen, x.c), Product(Eleven, x.d));
    LeftSumIs(Product(Eleven, x.a), Product(Thirteen, x.b), Product(Nine, x.c), Product(Fourteen, x.d));
  }

  /** A column written back. */
  method PutCol(buf: array<Octet>, p: nat, x: Col)
    requires p + 4 <= buf.Length
    modifies buf
    ensures ColAt(buf[..], p) == x
    ensures forall q :: 0 <= q < buf.Length && !(p <= q < p + 4) ==> buf[q] == old(buf[q])
  {
    buf[p], buf[p + 1], buf[p + 2], buf[p + 3] := x.a.bits, x.b.bits, x.c.bits, x.d.bits;
  }

  /** Columns before i transformed, the others as they were. */
  ghost predicate ColumnsDone(s: seq<Octet>, t: seq<Octet>, off: nat, i: nat, inverse: bool) {
    && SameElsewhere(s, t, off) && i <= 4
    && forall k :: 0 <= k < 4 ==>
         ColAt(s, off + 4 * k) == if k >= i then ColAt(t, off + 4 * k)
                                  else if inverse then InvMixCol(ColAt(t, off + 4 * k)) else MixCol(ColAt(t, off + 4 * k))
  }

  lemma AllColumns(s: seq<Octet>, t: seq<Octet>, off: nat, inverse: bool)
    requires ColumnsDone(s, t, off, 4, inverse)
    ensures StateAt(s, off) == if inverse then InvMix(StateAt(t, off)) else Mix(StateAt(t, off))
  {
    assert ColAt(s, off + 4 * 0) == ColAt(s, off) && ColAt(t, off + 4 * 0) == ColAt(t, off);
    assert ColAt(s, off + 4 * 1) == ColAt(s, off + 4) && ColAt(t, off + 4 * 1) == ColAt(t, off + 4);
    assert ColAt(s, off + 4 * 2) == ColAt(s, off + 8) && ColAt(t, off + 4 * 2) == ColAt(t, off + 8);
    assert ColAt(s, off + 4 * 3) == ColAt(s, off + 12) && ColAt(t, off + 4 * 3) == ColAt(t, off + 12);
  }

  lemma NextColumn(s: seq<Octet>, s': seq<Octet>, t: seq<Octet>, off: nat, i: nat, inverse: bool)
    requires ColumnsDone(s, t, off, i, inverse) && i < 4 && |s'| == |s|
    requires forall q :: 0 <= q < |s| && !(off + 4 * i <= q < off + 4 * i + 4) ==> s'[q] == s[q]
    requires ColAt(s', off + 4 * i) == if inverse then InvMixCol(ColAt(s, off + 4 * i)) else MixCol(ColAt(s, off + 4 * i))
    ensures ColumnsDone(s', t, off, i + 1, inverse)
  {
    forall k | 0 <= k < 4 && k != i ensures ColAt(s', off + 4 * k) == ColAt(s, off + 4 * k) {
    }
  }

  /** MixColumns */
  method MixColumns(buf: array<Octet>, off: nat)
    requires off + 16 <= buf.Length
    modifies buf
    ensures SameElsewhere(buf[..], old(buf[..]), off)
    ensures StateAt(buf[..], off) == Mix(StateAt(old(buf[..]), off))
  {
    ghost var t := buf[..];
    var i := 0;
    while i < 4
      invariant 0 <= i <= 4 && ColumnsDone(buf[..], t, off, i, false)
    {
      ghost var s := buf[..];
      var p := off + 4 * i;
      var x := Col(Gf(buf[p]), Gf(buf[p + 1]), Gf(buf[p + 2]), Gf(buf[p + 3]));
      MixColumnStepsIs(x);
      PutCol(buf, p, MixColumnSteps(x));
      NextColumn(s, buf[..], t, off, i, false);
      i := i + 1;
    }
    AllColumns(buf[..], t, off, false);
  }

  /** InvMixColumns */
  method InvMixColumns(buf: array<Octet>, off: nat)
    requires off + 16 <= buf.Length
    modifies buf
    ensures SameElsewhere(buf[..], old(buf[..]), off)
    ensures StateAt(buf[..], off) == InvMix(StateAt(old(buf[..]), off))
  {
    ghost var t := buf[..];
    var i := 0;
    while i < 4
      invariant 0 <= i <= 4 && ColumnsDone(buf[..], t, off, i, true)
    {
      ghost var s := buf[..];
      var p := off + 4 * i;
      var x := Col(Gf(buf[p]), Gf(buf[p + 1]), Gf(buf[p + 2]), Gf(buf[p + 3]));
      InvMixColumnStepsIs(x);
      PutCol(buf, p, InvMixColumnSteps(x));
      NextColumn(s, buf[..], t, off, i, true);
      i := i + 1;
    }
    AllColumns(buf[..], t, off, true);
  }

  /** Nr */
  const Nr: nat := 10

  /** The round keys in the expanded key bytes. */
  function KeysOf(roundKey: seq<Octet>): (keys: seq<State>)
    requires |roundKey| == 176
    ensures |keys| == Nr + 1 && forall r :: 0 <= r <= Nr ==> keys[r] == StateAt(roundKey, 16 * r)
  {
    seq(Nr + 1, r requires 0 <= r <= Nr => StateAt(roundKey, 16 * r))
  }

  /** Cipher */
  method Cipher(buf: array<Octet>, off: nat, roundKey: seq<Octet>)
    requires off + 16 <= buf.Length && |roundKey| == 176
    modifies buf
    ensures SameElsewhere(buf[..], old(buf[..]), off)
    ensures StateAt(buf[..], off) == Encrypt(KeysOf(roundKey), StateAt(old(buf[..]), off))
  {
    ghost var keys, s := KeysOf(roundKey), StateAt(buf[..], off);
    AddRoundKey(0, buf, off, roundKey);
    var round := 1;
    while round < Nr
      invariant 1 <= round <= Nr && SameElsewhere(buf[..], old(buf[..]), off)
      invariant StateAt(buf[..], off) == Rounds(keys, round - 1, s)
    {
      SubBytes(buf, off);
      ShiftRows(buf, off);
      MixColumns(buf, off);
      AddRoundKey(round, buf, off, roundKey);
      round := round + 1;
    }
    SubBytes(buf, off);
    ShiftRows(buf, off);
    AddRoundKey(Nr, buf, off, roundKey);
  }

  /** InvCipher */
  method InvCipher(buf: array<Octet>, off: nat, roundKey: seq<Octet>)
    requires off + 16 <= buf.Length && |roundKey| == 176
    modifies buf
    ensures SameElsewhere(buf[..], old(buf[..]), off)
    ensures StateAt(buf[..], off) == Decrypt(KeysOf(roundKey), StateAt(old(buf[..]), off))
  {
    ghost var keys, s := KeysOf(roundKey), StateAt(buf[..], off);
    AddRoundKey(Nr, buf, off, roundKey);
    var round := Nr - 1;
    while round > 0
      invariant 0 <= round <= Nr - 1 && SameElsewhere(buf[..], old(buf[..]), off)
      invariant InvRounds(keys, round, StateAt(buf[..], off)) == Decrypt(keys, s)
    {
      InvShiftRows(buf, off);
      InvSubBytes(buf, off);
      AddRoundKey(round, buf, off, roundKey);
      InvMixColumns(buf, off);
      round := round - 1;
    }
    InvShiftRows(buf, off);
    InvSubBytes(buf, off);
    AddRoundKey(0, buf, off, roundKey);
  }

  // CBC on a buffer

  /** The blocks of a buffer. Lemma BlocksAre opens the definition. */
  function Blocks(s: seq<Octet>, n: nat, fold: nat := 3): (r: seq<State>)
    requires 16 * n <= |s|
    ensures |r| == n
  {
    if fold > 0 then Blocks(s, n, fold - 1) else seq(n, i requires 0 <= i < n => StateAt(s, 16 * i))
  }

  lemma {:induction false} BlocksAre(s: seq<Octet>, n: nat, fold: nat := 3)
    requires 16 * n <= |s|
    ensures forall i :: 0 <= i < n ==> Blocks(s, n, fold)[i] == StateAt(s, 16 * i)
  {
    if fold > 0 {
      BlocksAre(s, n, fold - 1);
    }
  }

  /** Changing the block at 16 * i leaves the other blocks. */
  lemma OtherBlocks(s: seq<Octet>, t: seq<Octet>, i: nat, n: nat)
    requires SameElsewhere(s, t, 16 * i) && 16 * n <= |s| && i < n
    ensures Blocks(s, n) == Blocks(t, n)[i := StateAt(s, 16 * i)]
    ensures Blocks(t, n)[i] == StateAt(t, 16 * i)
  {
    BlocksAre(s, n);
    BlocksAre(t, n);
    forall k | 0 <= k < n && k != i ensures StateAt(s, 16 * k) == StateAt(t, 16 * k) {
    }
  }

  /** XorWithIv */
  method XorWithIv(buf: array<Octet>, off: nat, iv: Block)
    requires off + 16 <= buf.Length
    modifies buf
    ensures SameElsewhere(buf[..], old(buf[..]), off)
    ensures StateAt(buf[..], off) == AddKey(StateAt(old(buf[..]), off), StateAt(iv, 0))
  {
    var i := 0;
    while i < 16
      invariant 0 <= i <= 16
      invariant forall p :: 0 <= p < buf.Length ==>
                  buf[p] == if off <= p < off + i then Add(Gf(old(buf[p])), Gf(iv[p - off])).bits else old(buf[p])
    {
      buf[off + i] := Add(Gf(buf[off + i]), Gf(iv[i])).bits;
      i := i + 1;
    }
  }

  lemma SliceState(s: seq<Octet>, off: nat)
    requires off + 16 <= |s|
    ensures StateAt(s[off..off + 16], 0) == StateAt(s, off)
  {
  }

  /** AES_CBC_encrypt_buffer, for n blocks: the new IV is the last block. */
  method CbcEncryptBuffer(roundKey: seq<Octet>, iv: array<Octet>, buf: array<Octet>, n: nat)
    requires |roundKey| == 176 && iv.Length == 16 && iv != buf && 16 * n <= buf.Length
    modifies iv, buf
    ensures Blocks(buf[..], n) == CbcEncrypt(KeysOf(roundKey), StateAt(old(iv[..]), 0), Blocks(old(buf[..]), n))
    ensures StateAt(iv[..], 0) == Before(StateAt(old(iv[..]), 0), Blocks(buf[..], n), n)
  {
    ghost var keys, iv0, b := KeysOf(roundKey), StateAt(iv[..], 0), Blocks(buf[..], n);
    var last: Block := iv[..];
    var i := 0;
    while i < n
      invariant 0 <= i <= n
      invariant Encrypting(keys, iv0, b, Blocks(buf[..], n), i)
      invariant StateAt(last, 0) == Before(iv0, Blocks(buf[..], n), i)
      modifies buf
    {
      EncryptingStep(keys, iv0, b, Blocks(buf[..], n), i);
      last := CbcEncryptBlock(roundKey, buf, i, n, last);
      i := i + 1;
    }
    CbcEncryptIs(keys, iv0, b, Blocks(buf[..], n));
    StoreIv(iv, last);
  }

  method StoreIv(iv: array<Octet>, block: Block)
    requires iv.Length == 16
    modifies iv
    ensures iv[..] == block
  {
    forall k | 0 <= k < 16 {
      iv[k] := block[k];
    }
  }

  method CbcEncryptBlock(roundKey: seq<Octet>, buf: array<Octet>, i: nat, ghost n: nat, last: Block) returns (next: Block)
    requires |roundKey| == 176 && i < n && 16 * n <= buf.Length
    modifies buf
    ensures Blocks(buf[..], n)
            == Blocks(old(buf[..]), n)[i := Encrypt(KeysOf(roundKey), AddKey(Blocks(old(buf[..]), n)[i], StateAt(last, 0)))]
    ensures StateAt(next, 0) == Blocks(buf[..], n)[i]
  {
    ghost var t := buf[..];
    XorWithIv(buf, 16 * i, last);
    Cipher(buf, 16 * i, roundKey);
    OtherBlocks(buf[..], t, i, n);
    SliceState(buf[..], 16 * i);
    next := buf[16 * i..16 * i + 16];
  }

  /** AES_CBC_decrypt_buffer, for n blocks. */
  method CbcDecryptBuffer(roundKey: seq<Octet>, iv: array<Octet>, buf: array<Octet>, n: nat)
    requires |roundKey| == 176 && iv.Length == 16 && iv != buf && 16 * n <= buf.Length
    modifies iv, buf
    ensures Blocks(buf[..], n) == CbcDecrypt(s => Decrypt(KeysOf(roundKey), s), StateAt(old(iv[..]), 0),
      Blocks(old(buf[..]), n))
    ensures StateAt(iv[..], 0) == Before(StateAt(old(iv[..]), 0), Blocks(old(buf[..]), n), n)
  {
    ghost var keys, iv0, b := KeysOf(roundKey), StateAt(iv[..], 0), Blocks(buf[..], n);
    ghost var f := (s: State) => Decrypt(keys, s);
    var i := 0;
    while i < n
      invariant 0 <= i <= n && StateAt(iv[..], 0) == Before(iv0, b, i)
      invariant Decrypting(f, iv0, b, Blocks(buf[..], n), i)
    {
      DecryptingStep(f, iv0, b, Blocks(buf[..], n), i);
      CbcDecryptBlock(roundKey, iv, buf, i, n);
      i := i + 1;
    }
    CbcDecryptIs(f, iv0, b, Blocks(buf[..], n));
  }

  method CbcDecryptBlock(roundKey: seq<Octet>, iv: array<Octet>, buf: array<Octet>, i: nat, ghost n: nat)
    requires |roundKey| == 176 && iv.Length == 16 && iv != buf && i < n && 16 * n <= buf.Length
    modifies iv, buf
    ensures Blocks(buf[..], n)
            == Blocks(old(buf[..]), n)[i := AddKey(Decrypt(KeysOf(roundKey), Blocks(old(buf[..]), n)[i]),
                StateAt(old(iv[..]), 0))]
    ensures StateAt(iv[..], 0) == Blocks(old(buf[..]), n)[i]
  {
    ghost var t := buf[..];
    SliceState(t, 16 * i);
    var storeNextIv: Block := buf[16 * i..16 * i + 16];
    InvCipher(buf, 16 * i, roundKey);
    XorWithIv(buf, 16 * i, iv[..]);
    OtherBlocks(buf[..], t, i, n);
    ghost var s := buf[..];
    StoreIv(iv, storeNextIv);
    assert buf[..] == s;
  }

  /** Encrypting a buffer and decrypting it with the same key and IV gives it back, for
      every key, IV and number of blocks. */
  lemma BufferRoundTrip(roundKey: seq<Octet>, iv: State, blocks: seq<State>)
    requires |roundKey| == 176
    ensures CbcDecrypt(s => Decrypt(KeysOf(roundKey), s), iv, CbcEncrypt(KeysOf(roundKey), iv, blocks)) == blocks
  {
    BothUndo(KeysOf(roundKey));
    CbcRoundTrip(s => Decrypt(KeysOf(roundKey), s), KeysOf(roundKey), iv, blocks);
  }
}
