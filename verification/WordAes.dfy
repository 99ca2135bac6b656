/** The word-wise AES code of crypto/aes.c: big-endian columns in 32-bit words, the packed
    doubling, the in-place key conversion, and the block functions. */
module WordAes {
  import opened Octets
  import opened AesField
  import opened AesSpec

  /** A 32-bit word. As with Gf, the definitions of the word operations are folded. */
  datatype Word = Word(bits: bv32)

  function UnpackBytes(v: bv32): Col {
    Col(Gf((v >> 24) as Octet), Gf(((v >> 16) & 0xff) as Octet), Gf(((v >> 8) & 0xff) as Octet), Gf((v & 0xff) as Octet))
  }

  /** The column in a word, most significant byte first. */
  function ColOf(w: Word, fold: nat := 3): Col {
    if fold > 0 then ColOf(w, fold - 1)
    else UnpackBytes(w.bits)
  }

  lemma {:induction false} ColOfIs(w: Word, fold: nat := 3)
    ensures ColOf(w, fold) == UnpackBytes(w.bits)
  {
    if fold > 0 {
      ColOfIs(w, fold - 1);
    }
  }

  function PackBytes(x: Col): bv32 {
    ((x.a.bits as bv32) << 24) | ((x.b.bits as bv32) << 16) | ((x.c.bits as bv32) << 8) | (x.d.bits as bv32)
  }

  /** The word of a column. */
  function WordOf(x: Col, fold: nat := 3): Word {
    if fold > 0 then WordOf(x, fold - 1) else Word(PackBytes(x))
  }

  lemma {:induction false} WordOfIs(x: Col, fold: nat := 3)
    ensures WordOf(x, fold) == Word(PackBytes(x))
  {
    if fold > 0 {
      WordOfIs(x, fold - 1);
    }
  }

  lemma WordRoundTrip(x: Col, w: Word)
    ensures ColOf(WordOf(x)) == x && WordOf(ColOf(w)) == w
  {
    WordOfIs(x);
    ColOfIs(Word(PackBytes(x)));
    ColOfIs(w);
    WordOfIs(ColOf(w));
  }

  /** The operations on words that the code uses. */
  datatype WordOp = Xor | Double | RotateOne | RotateTwo | RotateThree

  function Apply(op: WordOp, v: bv32, w: bv32): bv32 {
    match op
    case Xor => v ^ w
    case Double => ((v + v) & 0xfefefefe) ^ (((v & 0x80808080) - ((v & 0x80808080) >> 7)) & 0x1b1b1b1b)
    case RotateOne => (v << 24) | (v >> 8)
    case RotateTwo => (v << 16) | (v >> 16)
    case RotateThree => (v << 8) | (v >> 24)
  }

  function Op(op: WordOp, v: Word, w: Word, fold: nat := 3): Word {
    if fold > 0 then Op(op, v, w, fold - 1) else Word(Apply(op, v.bits, w.bits))
  }

  lemma {:induction false} OpIs(op: WordOp, v: Word, w: Word, fold: nat := 3)
    ensures Op(op, v, w, fold) == Word(Apply(op, v.bits, w.bits))
  {
    if fold > 0 {
      OpIs(op, v, w, fold - 1);
    }
  }

  function XorWord(v: Word, w: Word): Word { Op(Xor, v, w) }

  /** mul2: four doublings at once. */
  function Mul2(w: Word): Word { Op(Double, w, w) }

  /** rot1, rot2, rot3 */
  function Rot1(w: Word): Word { Op(RotateOne, w, w) }

  function Rot2(w: Word): Word { Op(RotateTwo, w, w) }

  function Rot3(w: Word): Word { Op(RotateThree, w, w) }

  function XTimeCol(x: Col): Col {
    Col(XTime(x.a), XTime(x.b), XTime(x.c), XTime(x.d))
  }

  /** The column of a result, on bits. */
  lemma ColOfOp(op: WordOp, v: Word, w: Word)
    ensures ColOf(Op(op, v, w)) == UnpackBytes(Apply(op, v.bits, w.bits))
  {
    OpIs(op, v, w);
    ColOfIs(Word(Apply(op, v.bits, w.bits)));
  }

  /** Exclusive or on bits adds the bytes. */
  lemma XorBytes(v: bv32, w: bv32)
    ensures UnpackBytes(Apply(Xor, v, w)) == AddCol(UnpackBytes(v), UnpackBytes(w))
  {
    AddIs(UnpackBytes(v).a, UnpackBytes(w).a);
    AddIs(UnpackBytes(v).b, UnpackBytes(w).b);
    AddIs(UnpackBytes(v).c, UnpackBytes(w).c);
    AddIs(UnpackBytes(v).d, UnpackBytes(w).d);
  }

  /** Exclusive or of words adds the columns. */
  lemma ColOfXor(v: Word, w: Word)
    ensures ColOf(XorWord(v, w)) == AddCol(ColOf(v), ColOf(w))
  {
    ColOfOp(Xor, v, w);
    XorBytes(v.bits, w.bits);
    ColOfIs(v);
    ColOfIs(w);
  }

  lemma Mul2Is(w: Word)
    ensures ColOf(Mul2(w)) == XTimeCol(ColOf(w))
  {
    var x := UnpackBytes(w.bits);
    calc {
      ColOf(Mul2(w));
      { ColOfOp(Double, w, w); }
      UnpackBytes(Apply(Double, w.bits, w.bits));
      { PackedDouble(w.bits); }
      Col(DoubleGf(x.a), DoubleGf(x.b), DoubleGf(x.c), DoubleGf(x.d));
      { DoubleGfIs(x.a); DoubleGfIs(x.b); DoubleGfIs(x.c); DoubleGfIs(x.d); }
      XTimeCol(x);
      { ColOfIs(w); }
      XTimeCol(ColOf(w));
    }
  }

  lemma DoubleGfIs(x: Gf)
    ensures DoubleGf(x) == XTime(x)
  {
    XTimeIs(x);
  }

  /** xtime on bits. */
  function DoubleGf(x: Gf): Gf { Gf((x.bits << 1) ^ (((x.bits >> 7) & 1) * 0x1b)) }

  /** The packed doubling carries nothing from byte to byte. */
  lemma PackedDouble(v: bv32)
    ensures var x := UnpackBytes(v);
            UnpackBytes(Apply(Double, v, v)) == Col(DoubleGf(x.a), DoubleGf(x.b), DoubleGf(x.c), DoubleGf(x.d))
  {
  }

  lemma Rot1Is(w: Word)
    ensures var x := ColOf(w); ColOf(Rot1(w)) == Col(x.d, x.a, x.b, x.c)
  {
    ColOfOp(RotateOne, w, w);
    ColOfIs(w);
  }

  lemma Rot2Is(w: Word)
    ensures var x := ColOf(w); ColOf(Rot2(w)) == Col(x.c, x.d, x.a, x.b)
  {
    ColOfOp(RotateTwo, w, w);
    ColOfIs(w);
  }

  lemma Rot3Is(w: Word)
    ensures var x := ColOf(w); ColOf(Rot3(w)) == Col(x.b, x.c, x.d, x.a)
  {
    ColOfOp(RotateThree, w, w);
    ColOfIs(w);
  }

  /** inv_mix_col */
  function InvMixWord(x: Word): Word {
    var f2 := Mul2(x);
    var f4 := Mul2(f2);
    var f8 := Mul2(f4);
    var f9 := XorWord(x, f8);
    var sum := XorWord(XorWord(f2, f4), f8);
    var f11 := XorWord(f2, f9);
    var f13 := XorWord(f4, f9);
    XorWord(XorWord(XorWord(sum, Rot3(f11)), Rot2(f13)), Rot1(f9))
  }

  /** The factors as sums of doublings. */
  lemma FactorValues(x: Gf)
    ensures var x2 := XTime(x); var x4 := XTime(x2); var x8 := XTime(x4);
            && Product(Nine, x) == Add(x, x8)
            && Product(Eleven, x) == Add(x2, Add(x, x8))
            && Product(Thirteen, x) == Add(x4, Add(x, x8))
            && Product(Fourteen, x) == Add(Add(x2, x4), x8)
  {
    var x2 := XTime(x);
    var x4 := XTime(x2);
    var x8 := XTime(x4);
    ProductIs(Nine, x);
    ProductIs(Eleven, x);
    ProductIs(Thirteen, x);
    ProductIs(Fourteen, x);
    AddZero(Zero);
    AddZero(x8);
    AddZero(Add(x4, x8));
    AddZero(Add(x2, Add(x4, x8)));
    AddAssoc(x, x2, x8);
    AddComm(x, x2);
    AddAssoc(x2, x, x8);
    AddAssoc(x, x4, x8);
    AddComm(x, x4);
    AddAssoc(x4, x, x8);
    AddAssoc(x2, x4, x8);
  }

  /** inv_mix_col on the columns of its intermediate words. */
  function InvMixSteps(x: Col): Col {
    var f2 := XTimeCol(x);
    var f4 := XTimeCol(f2);
    var f8 := XTimeCol(f4);
    var f9 := AddCol(x, f8);
    var f14 := AddCol(AddCol(f2, f4), f8);
    var f11 := AddCol(f2, f9);
    var f13 := AddCol(f4, f9);
    AddCol(AddCol(AddCol(f14, Col(f11.b, f11.c, f11.d, f11.a)), Col(f13.c, f13.d, f13.a, f13.b)),
        Col(f9.d, f9.a, f9.b, f9.c))
  }

  lemma InvMixWordSteps(w: Word)
    ensures ColOf(InvMixWord(w)) == InvMixSteps(ColOf(w))
  {
    var f2 := Mul2(w);
    var f4 := Mul2(f2);
    var f8 := Mul2(f4);
    var f9 := XorWord(w, f8);
    var sum := XorWord(XorWord(f2, f4), f8);
    var f11, f13 := XorWord(f2, f9), XorWord(f4, f9);
    Mul2Is(w);
    Mul2Is(f2);
    Mul2Is(f4);
    ColOfXor(w, f8);
    ColOfXor(f2, f4);
    ColOfXor(XorWord(f2, f4), f8);
    ColOfXor(f2, f9);
    ColOfXor(f4, f9);
    Rot3Is(f11);
    Rot2Is(f13);
    Rot1Is(f9);
    ColOfXor(sum, Rot3(f11));
    ColOfXor(XorWord(sum, Rot3(f11)), Rot2(f13));
    ColOfXor(XorWord(XorWord(sum, Rot3(f11)), Rot2(f13)), Rot1(f9));
  }

  lemma LeftToSum(w: Gf, x: Gf, y: Gf, z: Gf)
    ensures Add(Add(Add(w, x), y), z) == Sum(w, x, y, z)
  {
    AddAssoc(Add(w, x), y, z);
  }

  lemma InvMixStepsIs(x: Col)
    ensures InvMixSteps(x) == InvMixCol(x)
  {
    FactorValues(x.a);
    FactorValues(x.b);
    FactorValues(x.c);
    FactorValues(x.d);
    LeftToSum(Product(Fourteen, x.a), Product(Eleven, x.b), Product(Thirteen, x.c), Product(Nine, x.d));
    LeftToSum(Product(Fourteen, x.b), Product(Eleven, x.c), Product(Thirteen, x.d), Product(Nine, x.a));
    LeftToSum(Product(Fourteen, x.c), Product(Eleven, x.d), Product(Thirteen, x.a), Product(Nine, x.b));
    LeftToSum(Product(Fourteen, x.d), Product(Eleven, x.a), Product(Thirteen, x.b), Product(Nine, x.c));
  }

  /** The packed computation is InvMixColumns on a column. */
  lemma InvMixWordIs(w: Word)
    ensures ColOf(InvMixWord(w)) == InvMixCol(ColOf(w))
  {
    InvMixWordSteps(w);
    InvMixStepsIs(ColOf(w));
  }
}
