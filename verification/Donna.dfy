/** The field arithmetic of curve25519-donna.c: products in 19 columns, folded at 2^255 and carried
    with a division that rounds towards zero. */
module Donna {
  import opened Machine
  import opened Arith
  import opened FieldLimbs
  import opened FieldMul
  import FieldPower

  /** What fmul and fsquare require of their inputs: |limb| < 2^27. */
  predicate Short(x: Limbs) { Bounded(x, 0x7ffffff, 0x7ffffff) }

  /** What they leave: |limb| < 2^26. */
  predicate Reduced26(x: Limbs) { Bounded(x, 0x3ffffff, 0x3ffffff) }

  /** Fourteen products of two 27-bit limbs. */
  const LONG := 14 * 0x40_0000_0000_0000

  /** Column k of the product before it is folded: the pairs of limbs whose indices add up to k. */
  function PartSum(f: Limbs, g: Limbs, k: nat): int {
    if k == 0 then f.h0 * g.h0
    else if k == 1 then f.h0 * g.h1 + f.h1 * g.h0
    else if k == 2 then f.h0 * g.h2 + 2 * (f.h1 * g.h1) + f.h2 * g.h0
    else if k == 3 then f.h0 * g.h3 + f.h1 * g.h2 + f.h2 * g.h1 + f.h3 * g.h0
    else if k == 4 then f.h0 * g.h4 + 2 * (f.h1 * g.h3) + f.h2 * g.h2 + 2 * (f.h3 * g.h1) + f.h4 * g.h0
    else if k == 5 then f.h0 * g.h5 + f.h1 * g.h4 + f.h2 * g.h3 + f.h3 * g.h2 + f.h4 * g.h1 + f.h5 * g.h0
    else if k == 6 then f.h0 * g.h6 + 2 * (f.h1 * g.h5) + f.h2 * g.h4 + 2 * (f.h3 * g.h3) + f.h4 * g.h2
        + 2 * (f.h5 * g.h1) + f.h6 * g.h0
    else if k == 7 then f.h0 * g.h7 + f.h1 * g.h6 + f.h2 * g.h5 + f.h3 * g.h4 + f.h4 * g.h3 + f.h5 * g.h2
        + f.h6 * g.h1 + f.h7 * g.h0
    else if k == 8 then f.h0 * g.h8 + 2 * (f.h1 * g.h7) + f.h2 * g.h6 + 2 * (f.h3 * g.h5) + f.h4 * g.h4
        + 2 * (f.h5 * g.h3) + f.h6 * g.h2 + 2 * (f.h7 * g.h1) + f.h8 * g.h0
    else if k == 9 then f.h0 * g.h9 + f.h1 * g.h8 + f.h2 * g.h7 + f.h3 * g.h6 + f.h4 * g.h5 + f.h5 * g.h4
        + f.h6 * g.h3 + f.h7 * g.h2 + f.h8 * g.h1 + f.h9 * g.h0
    else if k == 10 then 2 * (f.h1 * g.h9) + f.h2 * g.h8 + 2 * (f.h3 * g.h7) + f.h4 * g.h6 + 2 * (f.h5 * g.h5)
        + f.h6 * g.h4 + 2 * (f.h7 * g.h3) + f.h8 * g.h2 + 2 * (f.h9 * g.h1)
    else if k == 11 then f.h2 * g.h9 + f.h3 * g.h8 + f.h4 * g.h7 + f.h5 * g.h6 + f.h6 * g.h5 + f.h7 * g.h4
        + f.h8 * g.h3 + f.h9 * g.h2
    else if k == 12 then 2 * (f.h3 * g.h9) + f.h4 * g.h8 + 2 * (f.h5 * g.h7) + f.h6 * g.h6 + 2 * (f.h7 * g.h5)
        + f.h8 * g.h4 + 2 * (f.h9 * g.h3)
    else if k == 13 then f.h4 * g.h9 + f.h5 * g.h8 + f.h6 * g.h7 + f.h7 * g.h6 + f.h8 * g.h5 + f.h9 * g.h4
    else if k == 14 then 2 * (f.h5 * g.h9) + f.h6 * g.h8 + 2 * (f.h7 * g.h7) + f.h8 * g.h6 + 2 * (f.h9 * g.h5)
    else if k == 15 then f.h6 * g.h9 + f.h7 * g.h8 + f.h8 * g.h7 + f.h9 * g.h6
    else if k == 16 then 2 * (f.h7 * g.h9) + f.h8 * g.h8 + 2 * (f.h9 * g.h7)
    else if k == 17 then f.h8 * g.h9 + f.h9 * g.h8
    else 2 * (f.h9 * g.h9)
  }

  function Part(f: Limbs, g: Limbs, k: nat, fold: nat := 3): int {
    if fold > 0 then Part(f, g, k, fold - 1) else PartSum(f, g, k)
  }

  lemma {:induction false} PartIs(f: Limbs, g: Limbs, k: nat, fold: nat := 3)
    ensures Part(f, g, k, fold) == PartSum(f, g, k)
  {
    if fold > 0 {
      PartIs(f, g, k, fold - 1);
    }
  }

  lemma Part0Is(f: Limbs, g: Limbs)
    ensures Part(f, g, 0) == f.h0 * g.h0
  {
    PartIs(f, g, 0);
  }

  lemma Part1Is(f: Limbs, g: Limbs)
    ensures Part(f, g, 1) == f.h0 * g.h1 + f.h1 * g.h0
  {
    PartIs(f, g, 1);
  }

  lemma Part2Is(f: Limbs, g: Limbs)
    ensures Part(f, g, 2) == f.h0 * g.h2 + 2 * (f.h1 * g.h1) + f.h2 * g.h0
  {
    PartIs(f, g, 2);
  }

  lemma Part3Is(f: Limbs, g: Limbs)
    ensures Part(f, g, 3) == f.h0 * g.h3 + f.h1 * g.h2 + f.h2 * g.h1 + f.h3 * g.h0
  {
    PartIs(f, g, 3);
  }

  lemma Part4Is(f: Limbs, g: Limbs)
    ensures Part(f, g, 4) == f.h0 * g.h4 + 2 * (f.h1 * g.h3) + f.h2 * g.h2 + 2 * (f.h3 * g.h1) + f.h4 * g.h0
  {
    PartIs(f, g, 4);
  }

  lemma Part5Is(f: Limbs, g: Limbs)
    ensures Part(f, g, 5) == f.h0 * g.h5 + f.h1 * g.h4 + f.h2 * g.h3 + f.h3 * g.h2 + f.h4 * g.h1 + f.h5 * g.h0
  {
    PartIs(f, g, 5);
  }

  lemma Part6Is(f: Limbs, g: Limbs)
    ensures Part(f, g, 6) == f.h0 * g.h6 + 2 * (f.h1 * g.h5) + f.h2 * g.h4 + 2 * (f.h3 * g.h3) + f.h4 * g.h2
      + 2 * (f.h5 * g.h1) + f.h6 * g.h0
  {
    PartIs(f, g, 6);
  }

  lemma Part7Is(f: Limbs, g: Limbs)
    ensures Part(f, g, 7) == f.h0 * g.h7 + f.h1 * g.h6 + f.h2 * g.h5 + f.h3 * g.h4 + f.h4 * g.h3 + f.h5 * g.h2
      + f.h6 * g.h1 + f.h7 * g.h0
  {
    PartIs(f, g, 7);
  }

  lemma Part8Is(f: Limbs, g: Limbs)
    ensures Part(f, g, 8) == f.h0 * g.h8 + 2 * (f.h1 * g.h7) + f.h2 * g.h6 + 2 * (f.h3 * g.h5) + f.h4 * g.h4
      + 2 * (f.h5 * g.h3) + f.h6 * g.h2 + 2 * (f.h7 * g.h1) + f.h8 * g.h0
  {
    PartIs(f, g, 8);
  }

  lemma Part9Is(f: Limbs, g: Limbs)
    ensures Part(f, g, 9) == f.h0 * g.h9 + f.h1 * g.h8 + f.h2 * g.h7 + f.h3 * g.h6 + f.h4 * g.h5 + f.h5 * g.h4
      + f.h6 * g.h3 + f.h7 * g.h2 + f.h8 * g.h1 + f.h9 * g.h0
  {
    PartIs(f, g, 9);
  }

  lemma Part10Is(f: Limbs, g: Limbs)
    ensures Part(f, g, 10) == 2 * (f.h1 * g.h9) + f.h2 * g.h8 + 2 * (f.h3 * g.h7) + f.h4 * g.h6 + 2 * (f.h5 * g.h5)
      + f.h6 * g.h4 + 2 * (f.h7 * g.h3) + f.h8 * g.h2 + 2 * (f.h9 * g.h1)
  {
    PartIs(f, g, 10);
  }

  lemma Part11Is(f: Limbs, g: Limbs)
    ensures Part(f, g, 11) == f.h2 * g.h9 + f.h3 * g.h8 + f.h4 * g.h7 + f.h5 * g.h6 + f.h6 * g.h5 + f.h7 * g.h4
      + f.h8 * g.h3 + f.h9 * g.h2
  {
    PartIs(f, g, 11);
  }

  lemma Part12Is(f: Limbs, g: Limbs)
    ensures Part(f, g, 12) == 2 * (f.h3 * g.h9) + f.h4 * g.h8 + 2 * (f.h5 * g.h7) + f.h6 * g.h6 + 2 * (f.h7 * g.h5)
      + f.h8 * g.h4 + 2 * (f.h9 * g.h3)
  {
    PartIs(f, g, 12);
  }

  lemma Part13Is(f: Limbs, g: Limbs)
    ensures Part(f, g, 13) == f.h4 * g.h9 + f.h5 * g.h8 + f.h6 * g.h7 + f.h7 * g.h6 + f.h8 * g.h5 + f.h9 * g.h4
  {
    PartIs(f, g, 13);
  }

  lemma Part14Is(f: Limbs, g: Limbs)
    ensures Part(f, g, 14) == 2 * (f.h5 * g.h9) + f.h6 * g.h8 + 2 * (f.h7 * g.h7) + f.h8 * g.h6 + 2 * (f.h9 * g.h5)
  {
    PartIs(f, g, 14);
  }

  lemma Part15Is(f: Limbs, g: Limbs)
    ensures Part(f, g, 15) == f.h6 * g.h9 + f.h7 * g.h8 + f.h8 * g.h7 + f.h9 * g.h6
  {
    PartIs(f, g, 15);
  }

  lemma Part16Is(f: Limbs, g: Limbs)
    ensures Part(f, g, 16) == 2 * (f.h7 * g.h9) + f.h8 * g.h8 + 2 * (f.h9 * g.h7)
  {
    PartIs(f, g, 16);
  }

  lemma Part17Is(f: Limbs, g: Limbs)
    ensures Part(f, g, 17) == f.h8 * g.h9 + f.h9 * g.h8
  {
    PartIs(f, g, 17);
  }

  lemma Part18Is(f: Limbs, g: Limbs)
    ensures Part(f, g, 18) == 2 * (f.h9 * g.h9)
  {
    PartIs(f, g, 18);
  }

  lemma Folded0(f: Limbs, g: Limbs)
    ensures Part(f, g, 0) + 19 * Part(f, g, 10) == Column(f, g, 0)
  {
    Part0Is(f, g);
    Part10Is(f, g);
    Column0Is(f, g);
  }

  lemma Folded1(f: Limbs, g: Limbs)
    ensures Part(f, g, 1) + 19 * Part(f, g, 11) == Column(f, g, 1)
  {
    Part1Is(f, g);
    Part11Is(f, g);
    Column1Is(f, g);
  }

  lemma Folded2(f: Limbs, g: Limbs)
    ensures Part(f, g, 2) + 19 * Part(f, g, 12) == Column(f, g, 2)
  {
    Part2Is(f, g);
    Part12Is(f, g);
    Column2Is(f, g);
  }

  lemma Folded3(f: Limbs, g: Limbs)
    ensures Part(f, g, 3) + 19 * Part(f, g, 13) == Column(f, g, 3)
  {
    Part3Is(f, g);
    Part13Is(f, g);
    Column3Is(f, g);
  }

  lemma Folded4(f: Limbs, g: Limbs)
    ensures Part(f, g, 4) + 19 * Part(f, g, 14) == Column(f, g, 4)
  {
    Part4Is(f, g);
    Part14Is(f, g);
    Column4Is(f, g);
  }

  lemma Folded5(f: Limbs, g: Limbs)
    ensures Part(f, g, 5) + 19 * Part(f, g, 15) == Column(f, g, 5)
  {
    Part5Is(f, g);
    Part15Is(f, g);
    Column5Is(f, g);
  }

  lemma Folded6(f: Limbs, g: Limbs)
    ensures Part(f, g, 6) + 19 * Part(f, g, 16) == Column(f, g, 6)
  {
    Part6Is(f, g);
    Part16Is(f, g);
    Column6Is(f, g);
  }

  lemma Folded7(f: Limbs, g: Limbs)
    ensures Part(f, g, 7) + 19 * Part(f, g, 17) == Column(f, g, 7)
  {
    Part7Is(f, g);
    Part17Is(f, g);
    Column7Is(f, g);
  }

  lemma Folded8(f: Limbs, g: Limbs)
    ensures Part(f, g, 8) + 19 * Part(f, g, 18) == Column(f, g, 8)
  {
    Part8Is(f, g);
    Part18Is(f, g);
    Column8Is(f, g);
  }

  lemma Folded9(f: Limbs, g: Limbs)
    ensures Part(f, g, 9) == Column(f, g, 9)
  {
    Part9Is(f, g);
    Column9Is(f, g);
  }

  /** Folding at 2^255 turns the 19 columns into the ten of fe_mul. */
  lemma FoldedColumn(f: Limbs, g: Limbs, k: nat)
    requires k < 10
    ensures Column(f, g, k) == Part(f, g, k) + (if k < 9 then 19 * Part(f, g, k + 10) else 0)
  {
    match k {
      case 0 => Folded0(f, g);
      case 1 => Folded1(f, g);
      case 2 => Folded2(f, g);
      case 3 => Folded3(f, g);
      case 4 => Folded4(f, g);
      case 5 => Folded5(f, g);
      case 6 => Folded6(f, g);
      case 7 => Folded7(f, g);
      case 8 => Folded8(f, g);
      case _ => Folded9(f, g);
    }
  }

  /** The 64-bit product of two limbs cast to 32 bits. */
  function Wide27(x: Int32, y: Int32): (r: Int64)
    requires Below(x, 0x7ffffff) && Below(y, 0x7ffffff)
    ensures r as int == x * y && Below(r as int, 0x40_0000_0000_0000)
  {
    ProductBound(x, 0x7ffffff, y, 0x7ffffff);
    (x * y) as Int64
  }

  method ProductColumn0(f: Limbs, g: Limbs) returns (h: Int64)
    requires Short(f) && Short(g)
    ensures h as int == Part(f, g, 0) && Below(h as int, LONG)
  {
    Part0Is(f, g);
    h := Wide27(f.h0, g.h0);
  }

  method ProductColumn1(f: Limbs, g: Limbs) returns (h: Int64)
    requires Short(f) && Short(g)
    ensures h as int == Part(f, g, 1) && Below(h as int, LONG)
  {
    Part1Is(f, g);
    h := Wide27(f.h0, g.h1) + Wide27(f.h1, g.h0);
  }

  method ProductColumn2(f: Limbs, g: Limbs) returns (h: Int64)
    requires Short(f) && Short(g)
    ensures h as int == Part(f, g, 2) && Below(h as int, LONG)
  {
    Part2Is(f, g);
    h := 2 * Wide27(f.h1, g.h1) + Wide27(f.h0, g.h2) + Wide27(f.h2, g.h0);
  }

  method ProductColumn3(f: Limbs, g: Limbs) returns (h: Int64)
    requires Short(f) && Short(g)
    ensures h as int == Part(f, g, 3) && Below(h as int, LONG)
  {
    Part3Is(f, g);
    h := Wide27(f.h1, g.h2) + Wide27(f.h2, g.h1) + Wide27(f.h0, g.h3) + Wide27(f.h3, g.h0);
  }

  method ProductColumn4(f: Limbs, g: Limbs) returns (h: Int64)
    requires Short(f) && Short(g)
    ensures h as int == Part(f, g, 4) && Below(h as int, LONG)
  {
    Part4Is(f, g);
    h := Wide27(f.h2, g.h2) + 2 * (Wide27(f.h1, g.h3) + Wide27(f.h3, g.h1)) + Wide27(f.h0, g.h4)
      + Wide27(f.h4, g.h0);
  }

  method ProductColumn5(f: Limbs, g: Limbs) returns (h: Int64)
    requires Short(f) && Short(g)
    ensures h as int == Part(f, g, 5) && Below(h as int, LONG)
  {
    Part5Is(f, g);
    h := Wide27(f.h2, g.h3) + Wide27(f.h3, g.h2) + Wide27(f.h1, g.h4) + Wide27(f.h4, g.h1) + Wide27(f.h0, g.h5)
      + Wide27(f.h5, g.h0);
  }

  method ProductColumn6(f: Limbs, g: Limbs) returns (h: Int64)
    requires Short(f) && Short(g)
    ensures h as int == Part(f, g, 6) && Below(h as int, LONG)
  {
    Part6Is(f, g);
    h := 2 * (Wide27(f.h3, g.h3) + Wide27(f.h1, g.h5) + Wide27(f.h5, g.h1)) + Wide27(f.h2, g.h4)
      + Wide27(f.h4, g.h2) + Wide27(f.h0, g.h6) + Wide27(f.h6, g.h0);
  }

  method ProductColumn7(f: Limbs, g: Limbs) returns (h: Int64)
    requires Short(f) && Short(g)
    ensures h as int == Part(f, g, 7) && Below(h as int, LONG)
  {
    Part7Is(f, g);
    h := Wide27(f.h3, g.h4) + Wide27(f.h4, g.h3) + Wide27(f.h2, g.h5) + Wide27(f.h5, g.h2) + Wide27(f.h1, g.h6)
      + Wide27(f.h6, g.h1) + Wide27(f.h0, g.h7) + Wide27(f.h7, g.h0);
  }

  method ProductColumn8(f: Limbs, g: Limbs) returns (h: Int64)
    requires Short(f) && Short(g)
    ensures h as int == Part(f, g, 8) && Below(h as int, LONG)
  {
    Part8Is(f, g);
    h := Wide27(f.h4, g.h4) + 2 * (Wide27(f.h3, g.h5) + Wide27(f.h5, g.h3) + Wide27(f.h1, g.h7)
      + Wide27(f.h7, g.h1)) + Wide27(f.h2, g.h6) + Wide27(f.h6, g.h2) + Wide27(f.h0, g.h8)
      + Wide27(f.h8, g.h0);
  }

  method ProductColumn9(f: Limbs, g: Limbs) returns (h: Int64)
    requires Short(f) && Short(g)
    ensures h as int == Part(f, g, 9) && Below(h as int, LONG)
  {
    Part9Is(f, g);
    h := Wide27(f.h4, g.h5) + Wide27(f.h5, g.h4) + Wide27(f.h3, g.h6) + Wide27(f.h6, g.h3) + Wide27(f.h2, g.h7)
      + Wide27(f.h7, g.h2) + Wide27(f.h1, g.h8) + Wide27(f.h8, g.h1) + Wide27(f.h0, g.h9)
      + Wide27(f.h9, g.h0);
  }

  method ProductColumn10(f: Limbs, g: Limbs) returns (h: Int64)
    requires Short(f) && Short(g)
    ensures h as int == Part(f, g, 10) && Below(h as int, LONG)
  {
    Part10Is(f, g);
    h := 2 * (Wide27(f.h5, g.h5) + Wide27(f.h3, g.h7) + Wide27(f.h7, g.h3) + Wide27(f.h1, g.h9)
      + Wide27(f.h9, g.h1)) + Wide27(f.h4, g.h6) + Wide27(f.h6, g.h4) + Wide27(f.h2, g.h8)
      + Wide27(f.h8, g.h2);
  }

  method ProductColumn11(f: Limbs, g: Limbs) returns (h: Int64)
    requires Short(f) && Short(g)
    ensures h as int == Part(f, g, 11) && Below(h as int, LONG)
  {
    Part11Is(f, g);
    h := Wide27(f.h5, g.h6) + Wide27(f.h6, g.h5) + Wide27(f.h4, g.h7) + Wide27(f.h7, g.h4) + Wide27(f.h3, g.h8)
      + Wide27(f.h8, g.h3) + Wide27(f.h2, g.h9) + Wide27(f.h9, g.h2);
  }

  method ProductColumn12(f: Limbs, g: Limbs) returns (h: Int64)
    requires Short(f) && Short(g)
    ensures h as int == Part(f, g, 12) && Below(h as int, LONG)
  {
    Part12Is(f, g);
    h := Wide27(f.h6, g.h6) + 2 * (Wide27(f.h5, g.h7) + Wide27(f.h7, g.h5) + Wide27(f.h3, g.h9)
      + Wide27(f.h9, g.h3)) + Wide27(f.h4, g.h8) + Wide27(f.h8, g.h4);
  }

  method ProductColumn13(f: Limbs, g: Limbs) returns (h: Int64)
    requires Short(f) && Short(g)
    ensures h as int == Part(f, g, 13) && Below(h as int, LONG)
  {
    Part13Is(f, g);
    h := Wide27(f.h6, g.h7) + Wide27(f.h7, g.h6) + Wide27(f.h5, g.h8) + Wide27(f.h8, g.h5) + Wide27(f.h4, g.h9)
      + Wide27(f.h9, g.h4);
  }

  method ProductColumn14(f: Limbs, g: Limbs) returns (h: Int64)
    requires Short(f) && Short(g)
    ensures h as int == Part(f, g, 14) && Below(h as int, LONG)
  {
    Part14Is(f, g);
    h := 2 * (Wide27(f.h7, g.h7) + Wide27(f.h5, g.h9) + Wide27(f.h9, g.h5)) + Wide27(f.h6, g.h8)
      + Wide27(f.h8, g.h6);
  }

  method ProductColumn15(f: Limbs, g: Limbs) returns (h: Int64)
    requires Short(f) && Short(g)
    ensures h as int == Part(f, g, 15) && Below(h as int, LONG)
  {
    Part15Is(f, g);
    h := Wide27(f.h7, g.h8) + Wide27(f.h8, g.h7) + Wide27(f.h6, g.h9) + Wide27(f.h9, g.h6);
  }

  method ProductColumn16(f: Limbs, g: Limbs) returns (h: Int64)
    requires Short(f) && Short(g)
    ensures h as int == Part(f, g, 16) && Below(h as int, LONG)
  {
    Part16Is(f, g);
    h := Wide27(f.h8, g.h8) + 2 * (Wide27(f.h7, g.h9) + Wide27(f.h9, g.h7));
  }

  method ProductColumn17(f: Limbs, g: Limbs) returns (h: Int64)
    requires Short(f) && Short(g)
    ensures h as int == Part(f, g, 17) && Below(h as int, LONG)
  {
    Part17Is(f, g);
    h := Wide27(f.h8, g.h9) + Wide27(f.h9, g.h8);
  }

  method ProductColumn18(f: Limbs, g: Limbs) returns (h: Int64)
    requires Short(f) && Short(g)
    ensures h as int == Part(f, g, 18) && Below(h as int, LONG)
  {
    Part18Is(f, g);
    h := 2 * Wide27(f.h9, g.h9);
  }

  method SquareColumn0(f: Limbs) returns (h: Int64)
    requires Short(f)
    ensures h as int == Part(f, f, 0) && Below(h as int, LONG)
  {
    Part0Is(f, f);
    h := Wide27(f.h0, f.h0);
  }

  method SquareColumn1(f: Limbs) returns (h: Int64)
    requires Short(f)
    ensures h as int == Part(f, f, 1) && Below(h as int, LONG)
  {
    Part1Is(f, f);
    h := 2 * Wide27(f.h0, f.h1);
  }

  method SquareColumn2(f: Limbs) returns (h: Int64)
    requires Short(f)
    ensures h as int == Part(f, f, 2) && Below(h as int, LONG)
  {
    Part2Is(f, f);
    h := 2 * (Wide27(f.h1, f.h1) + Wide27(f.h0, f.h2));
  }

  method SquareColumn3(f: Limbs) returns (h: Int64)
    requires Short(f)
    ensures h as int == Part(f, f, 3) && Below(h as int, LONG)
  {
    Part3Is(f, f);
    h := 2 * (Wide27(f.h1, f.h2) + Wide27(f.h0, f.h3));
  }

  method SquareColumn4(f: Limbs) returns (h: Int64)
    requires Short(f)
    ensures h as int == Part(f, f, 4) && Below(h as int, LONG)
  {
    Part4Is(f, f);
    h := Wide27(f.h2, f.h2) + 4 * Wide27(f.h1, f.h3) + 2 * Wide27(f.h0, f.h4);
  }

  method SquareColumn5(f: Limbs) returns (h: Int64)
    requires Short(f)
    ensures h as int == Part(f, f, 5) && Below(h as int, LONG)
  {
    Part5Is(f, f);
    h := 2 * (Wide27(f.h2, f.h3) + Wide27(f.h1, f.h4) + Wide27(f.h0, f.h5));
  }

  method SquareColumn6(f: Limbs) returns (h: Int64)
    requires Short(f)
    ensures h as int == Part(f, f, 6) && Below(h as int, LONG)
  {
    Part6Is(f, f);
    h := 2 * (Wide27(f.h3, f.h3) + Wide27(f.h2, f.h4) + Wide27(f.h0, f.h6) + 2 * Wide27(f.h1, f.h5));
  }

  method SquareColumn7(f: Limbs) returns (h: Int64)
    requires Short(f)
    ensures h as int == Part(f, f, 7) && Below(h as int, LONG)
  {
    Part7Is(f, f);
    h := 2 * (Wide27(f.h3, f.h4) + Wide27(f.h2, f.h5) + Wide27(f.h1, f.h6) + Wide27(f.h0, f.h7));
  }

  method SquareColumn8(f: Limbs) returns (h: Int64)
    requires Short(f)
    ensures h as int == Part(f, f, 8) && Below(h as int, LONG)
  {
    Part8Is(f, f);
    h := Wide27(f.h4, f.h4) + 2 * (Wide27(f.h2, f.h6) + Wide27(f.h0, f.h8) + 2 * (Wide27(f.h1, f.h7)
      + Wide27(f.h3, f.h5)));
  }

  method SquareColumn9(f: Limbs) returns (h: Int64)
    requires Short(f)
    ensures h as int == Part(f, f, 9) && Below(h as int, LONG)
  {
    Part9Is(f, f);
    h := 2 * (Wide27(f.h4, f.h5) + Wide27(f.h3, f.h6) + Wide27(f.h2, f.h7) + Wide27(f.h1, f.h8)
      + Wide27(f.h0, f.h9));
  }

  method SquareColumn10(f: Limbs) returns (h: Int64)
    requires Short(f)
    ensures h as int == Part(f, f, 10) && Below(h as int, LONG)
  {
    Part10Is(f, f);
    h := 2 * (Wide27(f.h5, f.h5) + Wide27(f.h4, f.h6) + Wide27(f.h2, f.h8) + 2 * (Wide27(f.h3, f.h7)
      + Wide27(f.h1, f.h9)));
  }

  method SquareColumn11(f: Limbs) returns (h: Int64)
    requires Short(f)
    ensures h as int == Part(f, f, 11) && Below(h as int, LONG)
  {
    Part11Is(f, f);
    h := 2 * (Wide27(f.h5, f.h6) + Wide27(f.h4, f.h7) + Wide27(f.h3, f.h8) + Wide27(f.h2, f.h9));
  }

  method SquareColumn12(f: Limbs) returns (h: Int64)
    requires Short(f)
    ensures h as int == Part(f, f, 12) && Below(h as int, LONG)
  {
    Part12Is(f, f);
    h := Wide27(f.h6, f.h6) + 2 * (Wide27(f.h4, f.h8) + 2 * (Wide27(f.h5, f.h7) + Wide27(f.h3, f.h9)));
  }

  method SquareColumn13(f: Limbs) returns (h: Int64)
    requires Short(f)
    ensures h as int == Part(f, f, 13) && Below(h as int, LONG)
  {
    Part13Is(f, f);
    h := 2 * (Wide27(f.h6, f.h7) + Wide27(f.h5, f.h8) + Wide27(f.h4, f.h9));
  }

  method SquareColumn14(f: Limbs) returns (h: Int64)
    requires Short(f)
    ensures h as int == Part(f, f, 14) && Below(h as int, LONG)
  {
    Part14Is(f, f);
    h := 2 * (Wide27(f.h7, f.h7) + Wide27(f.h6, f.h8) + 2 * Wide27(f.h5, f.h9));
  }

  method SquareColumn15(f: Limbs) returns (h: Int64)
    requires Short(f)
    ensures h as int == Part(f, f, 15) && Below(h as int, LONG)
  {
    Part15Is(f, f);
    h := 2 * (Wide27(f.h7, f.h8) + Wide27(f.h6, f.h9));
  }

  method SquareColumn16(f: Limbs) returns (h: Int64)
    requires Short(f)
    ensures h as int == Part(f, f, 16) && Below(h as int, LONG)
  {
    Part16Is(f, f);
    h := Wide27(f.h8, f.h8) + 4 * Wide27(f.h7, f.h9);
  }

  method SquareColumn17(f: Limbs) returns (h: Int64)
    requires Short(f)
    ensures h as int == Part(f, f, 17) && Below(h as int, LONG)
  {
    Part17Is(f, f);
    h := 2 * Wide27(f.h8, f.h9);
  }

  method SquareColumn18(f: Limbs) returns (h: Int64)
    requires Short(f)
    ensures h as int == Part(f, f, 18) && Below(h as int, LONG)
  {
    Part18Is(f, f);
    h := 2 * Wide27(f.h9, f.h9);
  }

  /** The 19 columns of a product, within their bound. */
  predicate Columns(t: seq<Int64>, f: Limbs, g: Limbs) {
    |t| == 19 && forall k :: 0 <= k < 19 ==> t[k] as int == Part(f, g, k) && Below(t[k] as int, LONG)
  }

  /** fproduct */
  method FProduct(f: Limbs, g: Limbs) returns (output: seq<Int64>)
    requires Short(f) && Short(g)
    ensures Columns(output, f, g)
  {
    var c0 := ProductColumn0(f, g);
    var c1 := ProductColumn1(f, g);
    var c2 := ProductColumn2(f, g);
    var c3 := ProductColumn3(f, g);
    var c4 := ProductColumn4(f, g);
    var c5 := ProductColumn5(f, g);
    var c6 := ProductColumn6(f, g);
    var c7 := ProductColumn7(f, g);
    var c8 := ProductColumn8(f, g);
    var c9 := ProductColumn9(f, g);
    var c10 := ProductColumn10(f, g);
    var c11 := ProductColumn11(f, g);
    var c12 := ProductColumn12(f, g);
    var c13 := ProductColumn13(f, g);
    var c14 := ProductColumn14(f, g);
    var c15 := ProductColumn15(f, g);
    var c16 := ProductColumn16(f, g);
    var c17 := ProductColumn17(f, g);
    var c18 := ProductColumn18(f, g);
    output := [c0, c1, c2, c3, c4, c5, c6, c7, c8, c9, c10, c11, c12, c13, c14, c15, c16, c17, c18];
  }

  /** fsquare_inner */
  method FSquareInner(f: Limbs) returns (output: seq<Int64>)
    requires Short(f)
    ensures Columns(output, f, f)
  {
    var c0 := SquareColumn0(f);
    var c1 := SquareColumn1(f);
    var c2 := SquareColumn2(f);
    var c3 := SquareColumn3(f);
    var c4 := SquareColumn4(f);
    var c5 := SquareColumn5(f);
    var c6 := SquareColumn6(f);
    var c7 := SquareColumn7(f);
    var c8 := SquareColumn8(f);
    var c9 := SquareColumn9(f);
    var c10 := SquareColumn10(f);
    var c11 := SquareColumn11(f);
    var c12 := SquareColumn12(f);
    var c13 := SquareColumn13(f);
    var c14 := SquareColumn14(f);
    var c15 := SquareColumn15(f);
    var c16 := SquareColumn16(f);
    var c17 := SquareColumn17(f);
    var c18 := SquareColumn18(f);
    output := [c0, c1, c2, c3, c4, c5, c6, c7, c8, c9, c10, c11, c12, c13, c14, c15, c16, c17, c18];
  }

  method Store(output: array<Int64>, t: seq<Int64>)
    requires output.Length == |t|
    modifies output
    ensures output[..] == t
  {
    for i := 0 to output.Length
      invariant output[..i] == t[..i]
    {
      output[i] := t[i];
    }
  }

  /** One column takes in nineteen times the one ten above it: 16 + 2 + 1 times. */
  method FoldColumn(output: array<Int64>, k: nat)
    requires output.Length == 19 && k < 9
    requires Below(output[k] as int, LONG) && Below(output[k + 10] as int, LONG)
    modifies output
    ensures output[k] as int == old(output[k]) as int + 19 * old(output[k + 10]) as int
    ensures forall j :: 0 <= j < 19 && j != k ==> output[j] == old(output[j])
  {
    output[k] := output[k] + output[k + 10] * 16;
    output[k] := output[k] + output[k + 10] * 2;
    output[k] := output[k] + output[k + 10];
  }

  /** freduce_degree */
  method FReduceDegree(output: array<Int64>)
    requires output.Length == 19 && forall k :: 0 <= k < 19 ==> Below(output[k] as int, LONG)
    modifies output
    ensures forall k :: 0 <= k < 9 ==> output[k] as int == old(output[k]) as int + 19 * old(output[k + 10]) as int
    ensures output[9] == old(output[9])
  {
    FoldColumn(output, 8);
    FoldColumn(output, 7);
    FoldColumn(output, 6);
    FoldColumn(output, 5);
    FoldColumn(output, 4);
    FoldColumn(output, 3);
    FoldColumn(output, 2);
    FoldColumn(output, 1);
    FoldColumn(output, 0);
  }

  /** q is x / w rounded towards zero. */
  ghost predicate Truncated(q: int, x: int, w: int) {
    if x >= 0 then w * q <= x < w * q + w else w * q - w < x <= w * q
  }

  function Unsigned64(v: int): int { if v < 0 then v + 0x1_0000_0000_0000_0000 else v }

  function Unsigned32(v: int): int { if v < 0 then v + 0x1_0000_0000 else v }

  function Signed32(v: int): int { if v >= 0x8000_0000 then v - 0x1_0000_0000 else v }

  /** The sign of a 64-bit word, spread over an unsigned 32-bit word. */
  method SignMask(v: Int64) returns (mask: int)
    ensures mask == if v < 0 then 0xffff_ffff else 0
  {
    var highword := Unsigned64(v as int) / 0x1_0000_0000;
    var sign := Signed32(highword) / 0x8000_0000;
    mask := Unsigned32(sign);
  }

  /** div_by_2_26 */
  method DivBy26(v: Int64) returns (over: Int64)
    requires Below(v as int, 0x7fff_ffff_0000_0000)
    ensures Truncated(over as int, v as int, 0x4000000)
  {
    var mask := SignMask(v);
    var roundoff := (mask / 0x40) as Int64;
    over := (v + roundoff) / 0x4000000;
  }

  /** div_by_2_25 */
  method DivBy25(v: Int64) returns (over: Int64)
    requires Below(v as int, 0x7fff_ffff_0000_0000)
    ensures Truncated(over as int, v as int, 0x2000000)
  {
    var mask := SignMask(v);
    var roundoff := (mask / 0x80) as Int64;
    over := (v + roundoff) / 0x2000000;
  }

  function Low10(s: seq<Int64>): Limbs
    requires |s| == 19
  {
    Limbs(s[0] as int, s[1] as int, s[2] as int, s[3] as int, s[4] as int, s[5] as int, s[6] as int, s[7] as int,
        s[8] as int, s[9] as int)
  }

  /** The value of eleven limbs, the last of weight 2^255. */
  function Long(s: seq<Int64>): int
    requires |s| == 19
  {
    Val(Low10(s)) + (P + 19) * s[10] as int
  }

  function Width(i: nat): int { if i % 2 == 0 then 0x4000000 else 0x2000000 }

  /** Handing a multiple of a limb's width to the next limb keeps the value. */
  lemma Moved(s: seq<Int64>, t: seq<Int64>, i: nat, over: int)
    requires |s| == 19 && |t| == 19 && i < 10
    requires t[i] as int == s[i] as int - over * Width(i) && t[i + 1] as int == s[i + 1] as int + over
    requires forall j :: 0 <= j < 11 && j != i && j != i + 1 ==> t[j] == s[j]
    ensures Long(t) == Long(s)
  {
    ValIs(Low10(s));
    ValIs(Low10(t));
    LowAt(s);
    LowAt(t);
    MovedWeighted(Low10(s), Low10(t), s[10] as int, t[10] as int, i, over);
  }

  lemma LowAt(s: seq<Int64>)
    requires |s| == 19
    ensures forall j :: 0 <= j < 10 ==> At(Low10(s), j) == s[j] as int
  {
  }

  lemma MovedWeighted(x: Limbs, y: Limbs, s: int, t: int, i: nat, over: int)
    requires i < 10 && At(y, i) == At(x, i) - over * Width(i)
    requires if i < 9 then At(y, i + 1) == At(x, i + 1) + over && t == s else t == s + over
    requires forall j :: 0 <= j < 10 && j != i && j != i + 1 ==> At(y, j) == At(x, j)
    ensures Weighted(y) + (P + 19) * t == Weighted(x) + (P + 19) * s
  {
    assert 0 != i && 0 != i + 1 ==> At(y, 0) == At(x, 0);
    assert 1 != i && 1 != i + 1 ==> At(y, 1) == At(x, 1);
    assert 2 != i && 2 != i + 1 ==> At(y, 2) == At(x, 2);
    assert 3 != i && 3 != i + 1 ==> At(y, 3) == At(x, 3);
    assert 4 != i && 4 != i + 1 ==> At(y, 4) == At(x, 4);
    assert 5 != i && 5 != i + 1 ==> At(y, 5) == At(x, 5);
    assert 6 != i && 6 != i + 1 ==> At(y, 6) == At(x, 6);
    assert 7 != i && 7 != i + 1 ==> At(y, 7) == At(x, 7);
    assert 8 != i && 8 != i + 1 ==> At(y, 8) == At(x, 8);
    assert 9 != i && 9 != i + 1 ==> At(y, 9) == At(x, 9);
  }

  /** A limb within its own bits. */
  predicate Narrow(v: int, i: nat) { Below(v, Width(i) - 1) }

  const ENTRY := 280 * 0x40_0000_0000_0000

  /** One turn of the carry loop: limb i keeps its own bits and hands on the rest. */
  method CarryLimb(output: array<Int64>, i: nat)
    requires output.Length == 19 && i < 10
    requires Below(output[i] as int, 281 * 0x40_0000_0000_0000) && Below(output[i + 1] as int, ENTRY)
    modifies output
    ensures Narrow(output[i] as int, i)
    ensures Below(output[i + 1] as int - old(output[i + 1]) as int, 281 * 0x2000_0000)
    ensures Below(old(output[i]) as int, 0x400_0000_0000) ==> Below(output[i + 1] as int - old(output[i + 1]) as int,
      0x20000)
    ensures forall j :: 0 <= j < 19 && j != i && j != i + 1 ==> output[j] == old(output[j])
    ensures Long(output[..]) == Long(old(output[..]))
  {
    ghost var before := output[..];
    var over: Int64;
    if i % 2 == 0 {
      over := DivBy26(output[i]);
      output[i] := output[i] - over * 0x4000000;
    } else {
      over := DivBy25(output[i]);
      output[i] := output[i] - over * 0x2000000;
    }
    output[i + 1] := output[i + 1] + over;
    Moved(before, output[..], i, over as int);
  }

  /** The limbs before i carried, the rest as on entry. */
  predicate CarriedTo(s: seq<Int64>, i: nat) {
    && |s| == 19 && i <= 10
    && (forall j :: 0 <= j < i ==> Narrow(s[j] as int, j))
    && (forall j :: i < j < 10 ==> Below(s[j] as int, ENTRY))
    && (if i < 10 then Below(s[i] as int, 281 * 0x40_0000_0000_0000) && s[10] == 0
        else Below(s[10] as int, 281 * 0x2000_0000))
  }

  method CarryPair(output: array<Int64>, i: nat)
    requires output.Length == 19 && i < 9 && CarriedTo(output[..], i)
    modifies output
    ensures CarriedTo(output[..], i + 2) && Long(output[..]) == Long(old(output[..]))
  {
    CarryLimb(output, i);
    CarryLimb(output, i + 1);
  }

  /** freduce_coefficients */
  method FReduceCoefficients(output: array<Int64>)
    requires output.Length == 19 && forall k :: 0 <= k < 10 ==> Below(output[k] as int, ENTRY)
    modifies output
    ensures Reduced26(Low10(output[..])) && Congruent(Val(Low10(output[..])), Val(Low10(old(output[..]))))
  {
    ghost var value := Val(Low10(output[..]));
    output[10] := 0;
    assert Low10(output[..]) == Low10(old(output[..]));
    var i := 0;
    while i < 10
      invariant i <= 10 && i % 2 == 0 && CarriedTo(output[..], i) && Long(output[..]) == value
    {
      CarryPair(output, i);
      i := i + 2;
    }
    FoldTop(output);
    CarryLimb(output, 0);
  }

  /** Limb 10 is worth nineteen times limb 0. */
  method FoldTop(output: array<Int64>)
    requires output.Length == 19 && CarriedTo(output[..], 10)
    modifies output
    ensures Below(output[0] as int, 0x400_0000_0000) && output[10] == 0
    ensures forall j :: 1 <= j < 10 ==> output[j] == old(output[j])
    ensures Congruent(Long(output[..]), Long(old(output[..])))
  {
    ghost var before := output[..];
    output[0] := output[0] + output[10] * 16;
    output[0] := output[0] + output[10] * 2;
    output[0] := output[0] + output[10];
    output[10] := 0;
    ValIs(Low10(before));
    ValIs(Low10(output[..]));
    CongruentBy(Long(output[..]), Long(before), -(before[10] as int));
  }

  /** fmul: limbs below 2^27 give limbs below 2^26 of the product modulo the prime. */
  method FMul(f: Limbs, g: Limbs) returns (h: Limbs)
    requires Short(f) && Short(g)
    ensures Reduced26(h) && Congruent(Val(h), Val(f) * Val(g))
  {
    var c := FProduct(f, g);
    h := Reduce(c, f, g);
  }

  /** fsquare */
  method FSquare(f: Limbs) returns (h: Limbs)
    requires Short(f)
    ensures Reduced26(h) && Congruent(Val(h), Val(f) * Val(f))
  {
    var c := FSquareInner(f);
    h := Reduce(c, f, f);
  }

  method Reduce(c: seq<Int64>, ghost f: Limbs, ghost g: Limbs) returns (h: Limbs)
    requires Columns(c, f, g)
    ensures Reduced26(h) && Congruent(Val(h), Val(f) * Val(g))
  {
    var t := new Int64[19];
    Store(t, c);
    FReduceDegree(t);
    FoldedProduct(c, t[..], f, g);
    FReduceCoefficients(t);
    h := Low10(t[..]);
    ghost var k := ProductValue(f, g);
    CongruentBy(Val(Product(f, g)), Val(f) * Val(g), -k);
  }

  lemma FoldedProduct(c: seq<Int64>, t: seq<Int64>, f: Limbs, g: Limbs)
    requires Columns(c, f, g) && |t| == 19 && t[9] == c[9]
    requires forall k :: 0 <= k < 9 ==> t[k] as int == c[k] as int + 19 * c[k + 10] as int
    ensures Low10(t) == Product(f, g) && forall k :: 0 <= k < 10 ==> Below(t[k] as int, ENTRY)
  {
    forall k | 0 <= k < 10
      ensures t[k] as int == Column(f, g, k) && Below(t[k] as int, ENTRY)
    {
      FoldedColumn(f, g, k);
    }
  }

  /** x is v to the power n, within the bounds of fmul. Lemma RaisedIs opens the definition. */
  ghost predicate Raised(x: Limbs, v: int, n: nat, fold: nat := 3) {
    if fold > 0 then Raised(x, v, n, fold - 1) else Short(x) && Congruent(Val(x), FieldPower.Power(v, n))
  }

  lemma {:induction false} RaisedIs(x: Limbs, v: int, n: nat, fold: nat := 3)
    ensures Raised(x, v, n, fold) == (Short(x) && Congruent(Val(x), FieldPower.Power(v, n)))
  {
    if fold > 0 {
      RaisedIs(x, v, n, fold - 1);
    }
  }

  method ProductOf(f: Limbs, g: Limbs, ghost v: int, ghost m: nat, ghost n: nat) returns (h: Limbs)
    requires Raised(f, v, m) && Raised(g, v, n)
    ensures Raised(h, v, m + n) && Reduced26(h)
  {
    RaisedIs(f, v, m);
    RaisedIs(g, v, n);
    h := FMul(f, g);
    FieldPower.ProductRaised(Val(h), Val(f), Val(g), v, m, n);
    RaisedIs(h, v, m + n);
  }

  method SquareRaised(f: Limbs, ghost v: int, ghost n: nat) returns (h: Limbs)
    requires Raised(f, v, n)
    ensures Raised(h, v, 2 * n)
  {
    RaisedIs(f, v, n);
    h := FSquare(f);
    FieldPower.ProductRaised(Val(h), Val(f), Val(f), v, n, n);
    RaisedIs(h, v, 2 * n);
  }

  /** Two squarings, there and back between two temporaries, done count times. */
  method SquarePairs(f: Limbs, count: nat, ghost v: int, ghost n: nat, ghost e: nat) returns (h: Limbs)
    requires Raised(f, v, n) && e == n * Pow2(2 * count)
    ensures Raised(h, v, e)
  {
    h := f;
    ghost var m := n;
    var i := 0;
    while i < count
      invariant i <= count && m == n * Pow2(2 * i) && Raised(h, v, m)
    {
      var t := SquareRaised(h, v, m);
      h := SquareRaised(t, v, 2 * m);
      assert Pow2(2 * i + 2) == 4 * Pow2(2 * i) by {
        assert Pow2(2 * i + 2) == 2 * Pow2(2 * i + 1);
      }
      MulAssoc(n, 4, Pow2(2 * i));
      MulAssoc(4, n, Pow2(2 * i));
      m := 4 * m;
      i := i + 1;
    }
  }

  lemma PairPowers()
    ensures Pow2(8) == 0x100 && Pow2(18) == 0x4_0000 && Pow2(48) == 0x1_0000_0000_0000
    ensures Pow2(98) == 0x4_0000_0000_0000_0000_0000_0000
  {
    FieldPower.PowersOfTwo();
    Pow2Add(5, 3);
    assert Pow2(3) == 8;
    Pow2Add(8, 10);
    Pow2Add(18, 30);
    Pow2Add(20, 10);
    Pow2Add(48, 50);
  }

  /** The first half of crecip: the powers 11, 2^10 - 1 and 2^50 - 1. */
  method CRecipStart(z: Limbs, ghost v: int) returns (z11: Limbs, run50: Limbs)
    requires Raised(z, v, 1)
    ensures Raised(z11, v, 11) && Raised(run50, v, 0x3ffffffffffff)
  {
    PairPowers();
    var z2 := SquareRaised(z, v, 0x1);
    var t1 := SquareRaised(z2, v, 0x2);
    var t0 := SquareRaised(t1, v, 0x4);
    var z9 := ProductOf(t0, z, v, 0x8, 0x1);
    z11 := ProductOf(z9, z2, v, 0x9, 0x2);
    t0 := SquareRaised(z11, v, 0xb);
    var run5 := ProductOf(t0, z9, v, 0x16, 0x9);
    t0 := SquareRaised(run5, v, 0x1f);
    t1 := SquareRaised(t0, v, 0x3e);
    t0 := SquareRaised(t1, v, 0x7c);
    t1 := SquareRaised(t0, v, 0xf8);
    t0 := SquareRaised(t1, v, 0x1f0);
    var run10 := ProductOf(t0, run5, v, 0x3e0, 0x1f);
    t0 := SquareRaised(run10, v, 0x3ff);
    t1 := SquareRaised(t0, v, 0x7fe);
    t1 := SquarePairs(t1, 4, v, 0xffc, 0xffc00);
    var run20 := ProductOf(t1, run10, v, 0xffc00, 0x3ff);
    t0 := SquareRaised(run20, v, 0xfffff);
    t1 := SquareRaised(t0, v, 0x1ffffe);
    t1 := SquarePairs(t1, 9, v, 0x3ffffc, 0xfffff00000);
    t0 := ProductOf(t1, run20, v, 0xfffff00000, 0xfffff);
    t1 := SquareRaised(t0, v, 0xffffffffff);
    t0 := SquareRaised(t1, v, 0x1fffffffffe);
    t0 := SquarePairs(t0, 4, v, 0x3fffffffffc, 0x3fffffffffc00);
    run50 := ProductOf(t0, run10, v, 0x3fffffffffc00, 0x3ff);
  }

  /** crecip: the power p - 2, which inverts by Fermat's little theorem. */
  method CRecip(z: Limbs) returns (out: Limbs)
    requires Short(z)
    ensures Reduced26(out) && Congruent(Val(out), FieldPower.Power(Val(z), P - 2))
  {
    ghost var v := Val(z);
    FieldPower.PowerOne(v);
    PairPowers();
    RaisedIs(z, v, 1);
    var z11, run50 := CRecipStart(z, v);
    var t0 := SquareRaised(run50, v, 0x3ffffffffffff);
    var t1 := SquareRaised(t0, v, 0x7fffffffffffe);
    t1 := SquarePairs(t1, 24, v, 0xffffffffffffc, 0xffffffffffffc000000000000);
    var run100 := ProductOf(t1, run50, v, 0xffffffffffffc000000000000, 0x3ffffffffffff);
    t1 := SquareRaised(run100, v, 0xfffffffffffffffffffffffff);
    t0 := SquareRaised(t1, v, 0x1ffffffffffffffffffffffffe);
    t0 := SquarePairs(t0, 49, v, 0x3ffffffffffffffffffffffffc, 0xfffffffffffffffffffffffff0000000000000000000000000);
    t1 := ProductOf(t0, run100, v, 0xfffffffffffffffffffffffff0000000000000000000000000, 0xfffffffffffffffffffffffff);
    t0 := SquareRaised(t1, v, 0xffffffffffffffffffffffffffffffffffffffffffffffffff);
    t1 := SquareRaised(t0, v, 0x1fffffffffffffffffffffffffffffffffffffffffffffffffe);
    t1 := SquarePairs(t1, 24, v, 0x3fffffffffffffffffffffffffffffffffffffffffffffffffc,
        0x3fffffffffffffffffffffffffffffffffffffffffffffffffc000000000000);
    t0 := ProductOf(t1, run50, v, 0x3fffffffffffffffffffffffffffffffffffffffffffffffffc000000000000, 0x3ffffffffffff);
    t1 := SquareRaised(t0, v, 0x3ffffffffffffffffffffffffffffffffffffffffffffffffffffffffffffff);
    t0 := SquareRaised(t1, v, 0x7fffffffffffffffffffffffffffffffffffffffffffffffffffffffffffffe);
    t1 := SquareRaised(t0, v, 0xffffffffffffffffffffffffffffffffffffffffffffffffffffffffffffffc);
    t0 := SquareRaised(t1, v, 0x1ffffffffffffffffffffffffffffffffffffffffffffffffffffffffffffff8);
    t1 := SquareRaised(t0, v, 0x3ffffffffffffffffffffffffffffffffffffffffffffffffffffffffffffff0);
    out := ProductOf(t1, z11, v, 0x7fffffffffffffffffffffffffffffffffffffffffffffffffffffffffffffe0, 0xb);
    RaisedIs(out, v, P - 2);
  }
}
