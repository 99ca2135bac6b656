/** Bytes as elements of GF(2^8), for both AES codes. An element wraps its bits, and `fold`
    delays the definitions, so that only the lemmas here reason about bits. */
module AesField {
  import opened Octets

  datatype Gf = Gf(bits: Octet)

  /** Addition: exclusive or. */
  function Add(a: Gf, b: Gf, fold: nat := 3): Gf {
    if fold > 0 then Add(a, b, fold - 1) else Gf(a.bits ^ b.bits)
  }

  lemma {:induction false} AddIs(a: Gf, b: Gf, fold: nat := 3)
    ensures Add(a, b, fold) == Gf(a.bits ^ b.bits)
  {
    if fold > 0 {
      AddIs(a, b, fold - 1);
    }
  }

  const Zero := Gf(0)

  lemma AddTwice(a: Gf, k: Gf)
    ensures Add(Add(a, k), k) == a
  {
    AddIs(a, k);
    AddIs(Gf(a.bits ^ k.bits), k);
  }

  lemma AddZero(a: Gf)
    ensures Add(a, a) == Zero && Add(a, Zero) == a && Add(Zero, a) == a
  {
    AddIs(a, a);
    AddIs(a, Zero);
    AddIs(Zero, a);
  }

  lemma AddComm(a: Gf, b: Gf)
    ensures Add(a, b) == Add(b, a)
  {
    AddIs(a, b);
    AddIs(b, a);
  }

  lemma AddAssoc(a: Gf, b: Gf, c: Gf)
    ensures Add(Add(a, b), c) == Add(a, Add(b, c))
  {
    AddIs(a, b);
    AddIs(Gf(a.bits ^ b.bits), c);
    AddIs(b, c);
    AddIs(a, Gf(b.bits ^ c.bits));
  }

  /** Two sums, termwise. */
  lemma AddPair(a: Gf, b: Gf, a': Gf, b': Gf)
    ensures Add(Add(a, a'), Add(b, b')) == Add(Add(a, b), Add(a', b'))
  {
    AddAssoc(a, a', Add(b, b'));
    AddAssoc(a', b, b');
    AddComm(a', b);
    AddAssoc(b, a', b');
    AddAssoc(a, b, Add(a', b'));
  }

  /** xtime of aes.c: multiplication by x. */
  function XTime(x: Gf, fold: nat := 3): Gf
  {
    if fold > 0 then XTime(x, fold - 1) else Gf((x.bits << 1) ^ (((x.bits >> 7) & 1) * 0x1b))
  }

  lemma {:induction false} XTimeIs(x: Gf, fold: nat := 3)
    ensures XTime(x, fold) == Gf((x.bits << 1) ^ (((x.bits >> 7) & 1) * 0x1b))
  {
    if fold > 0 {
      XTimeIs(x, fold - 1);
    }
  }

  /** AES_xtime of crypto/aes.c, which tests the top bit, is the same doubling. */
  function AesXtime(x: Gf): (r: Gf)
    ensures r == XTime(x)
  {
    XTimeIs(x);
    Gf(if x.bits & 0x80 != 0 then (x.bits << 1) ^ 0x1b else x.bits << 1)
  }

  lemma XTimeLinear(x: Gf, y: Gf)
    ensures XTime(Add(x, y)) == Add(XTime(x), XTime(y))
  {
    AddIs(x, y);
    XTimeIs(x);
    XTimeIs(y);
    XTimeIs(Gf(x.bits ^ y.bits));
    AddIs(XTime(x), XTime(y));
  }

  /** A sum of four, as the column operations add up. */
  function Sum(w: Gf, x: Gf, y: Gf, z: Gf): Gf {
    Add(Add(w, x), Add(y, z))
  }

  lemma SumPair(a: Gf, b: Gf, c: Gf, d: Gf, a': Gf, b': Gf, c': Gf, d': Gf)
    ensures Sum(Add(a, a'), Add(b, b'), Add(c, c'), Add(d, d')) == Add(Sum(a, b, c, d), Sum(a', b', c', d'))
  {
    AddPair(a, b, a', b');
    AddPair(c, d, c', d');
    AddPair(Add(a, b), Add(c, d), Add(a', b'), Add(c', d'));
  }

  /** A polynomial of degree at most four over GF(2). */
  datatype Poly = Poly(p0: bool, p1: bool, p2: bool, p3: bool, p4: bool)

  function Pick(p: bool, x: Gf): Gf { if p then x else Zero }

  function Doublings(p: Poly, x: Gf): Gf {
    var x1 := XTime(x);
    var x2 := XTime(x1);
    var x3 := XTime(x2);
    Add(Pick(p.p0, x), Add(Pick(p.p1, x1), Add(Pick(p.p2, x2), Add(Pick(p.p3, x3), Pick(p.p4, XTime(x3))))))
  }

  /** The product of x with the field element that p stands for. Lemma ProductIs opens
      the definition. */
  function Product(p: Poly, x: Gf, fold: nat := 3): Gf {
    if fold > 0 then Product(p, x, fold - 1) else Doublings(p, x)
  }

  lemma {:induction false} ProductIs(p: Poly, x: Gf, fold: nat := 3)
    ensures Product(p, x, fold) == Doublings(p, x)
  {
    if fold > 0 {
      ProductIs(p, x, fold - 1);
    }
  }

  lemma PickAdd(p: bool, q: bool, x: Gf)
    ensures Add(Pick(p, x), Pick(q, x)) == Pick(p != q, x)
  {
    AddZero(x);
    AddZero(Zero);
  }

  lemma PickLinear(p: bool, x: Gf, y: Gf)
    ensures Pick(p, Add(x, y)) == Add(Pick(p, x), Pick(p, y))
  {
    AddZero(Zero);
  }

  /** Multiplication distributes over addition. */
  lemma ProductLinear(p: Poly, x: Gf, y: Gf)
    ensures Product(p, Add(x, y)) == Add(Product(p, x), Product(p, y))
  {
    ProductIs(p, x);
    ProductIs(p, y);
    ProductIs(p, Add(x, y));
    var x1, y1 := XTime(x), XTime(y);
    var x2, y2 := XTime(x1), XTime(y1);
    var x3, y3 := XTime(x2), XTime(y2);
    XTimeLinear(x, y);
    XTimeLinear(x1, y1);
    XTimeLinear(x2, y2);
    XTimeLinear(x3, y3);
    PickLinear(p.p0, x, y);
    PickLinear(p.p1, x1, y1);
    PickLinear(p.p2, x2, y2);
    PickLinear(p.p3, x3, y3);
    PickLinear(p.p4, XTime(x3), XTime(y3));
    var s4, t4 := Pick(p.p4, XTime(x3)), Pick(p.p4, XTime(y3));
    var s3, t3 := Add(Pick(p.p3, x3), s4), Add(Pick(p.p3, y3), t4);
    var s2, t2 := Add(Pick(p.p2, x2), s3), Add(Pick(p.p2, y2), t3);
    var s1, t1 := Add(Pick(p.p1, x1), s2), Add(Pick(p.p1, y1), t2);
    AddPair(Pick(p.p3, x3), s4, Pick(p.p3, y3), t4);
    AddPair(Pick(p.p2, x2), s3, Pick(p.p2, y2), t3);
    AddPair(Pick(p.p1, x1), s2, Pick(p.p1, y1), t2);
    AddPair(Pick(p.p0, x), s1, Pick(p.p0, y), t1);
  }

  function PolyAdd(p: Poly, q: Poly): Poly {
    Poly(p.p0 != q.p0, p.p1 != q.p1, p.p2 != q.p2, p.p3 != q.p3, p.p4 != q.p4)
  }

  lemma ProductAdd(p: Poly, q: Poly, x: Gf)
    ensures Add(Product(p, x), Product(q, x)) == Product(PolyAdd(p, q), x)
  {
    ProductIs(p, x);
    ProductIs(q, x);
    ProductIs(PolyAdd(p, q), x);
    var x1 := XTime(x);
    var x2 := XTime(x1);
    var x3 := XTime(x2);
    PickAdd(p.p0, q.p0, x);
    PickAdd(p.p1, q.p1, x1);
    PickAdd(p.p2, q.p2, x2);
    PickAdd(p.p3, q.p3, x3);
    PickAdd(p.p4, q.p4, XTime(x3));
    var s4, t4 := Pick(p.p4, XTime(x3)), Pick(q.p4, XTime(x3));
    var s3, t3 := Add(Pick(p.p3, x3), s4), Add(Pick(q.p3, x3), t4);
    var s2, t2 := Add(Pick(p.p2, x2), s3), Add(Pick(q.p2, x2), t3);
    var s1, t1 := Add(Pick(p.p1, x1), s2), Add(Pick(q.p1, x1), t2);
    AddPair(Pick(p.p3, x3), Pick(q.p3, x3), s4, t4);
    AddPair(Pick(p.p2, x2), Pick(q.p2, x2), s3, t3);
    AddPair(Pick(p.p1, x1), Pick(q.p1, x1), s2, t2);
    AddPair(Pick(p.p0, x), Pick(q.p0, x), s1, t1);
  }

  function PolyShift(p: Poly): Poly { Poly(false, p.p0, p.p1, p.p2, p.p3) }

  lemma ProductShift(p: Poly, x: Gf)
    requires !p.p4
    ensures Product(p, XTime(x)) == Product(PolyShift(p), x)
  {
    ProductIs(p, XTime(x));
    ProductIs(PolyShift(p), x);
    var x1 := XTime(x);
    var x2 := XTime(x1);
    var x3 := XTime(x2);
    var x4 := XTime(x3);
    AddZero(Pick(p.p3, x4));
    AddZero(Add(Pick(p.p0, x1), Add(Pick(p.p1, x2), Add(Pick(p.p2, x3), Pick(p.p3, x4)))));
  }

  const One := Poly(true, false, false, false, false)
  const Two := Poly(false, true, false, false, false)
  const Three := Poly(true, true, false, false, false)
  const Nine := Poly(true, false, false, true, false)
  const Eleven := Poly(true, true, false, true, false)
  const Thirteen := Poly(true, false, true, true, false)
  const Fourteen := Poly(false, true, true, true, false)
  const Nothing := Poly(false, false, false, false, false)

  lemma SmallProducts(x: Gf)
    ensures Product(One, x) == x && Product(Nothing, x) == Zero
    ensures Product(Two, x) == XTime(x) && Product(Three, x) == Add(x, XTime(x))
  {
    ProductIs(One, x);
    ProductIs(Nothing, x);
    ProductIs(Two, x);
    ProductIs(Three, x);
    AddZero(Zero);
    AddZero(x);
    AddZero(XTime(x));
  }

  /** A factor times {02} and times {03}. */
  lemma ProductOfProduct(p: Poly, x: Gf)
    requires !p.p4
    ensures Product(p, Product(Two, x)) == Product(PolyShift(p), x)
    ensures Product(p, Product(Three, x)) == Product(PolyAdd(p, PolyShift(p)), x)
  {
    SmallProducts(x);
    ProductShift(p, x);
    ProductLinear(p, x, XTime(x));
    ProductAdd(p, PolyShift(p), x);
  }
}
