/** AES_CTX of crypto/aes.c: key conversion in place, and the encryption and decryption of
    one block of four words. */
module AesContext {
  import opened Octets
  import opened AesField
  import opened AesSpec
  import opened WordAes
  import opened TinyAes

  /** The state in four words. */
  function StateOf(d: seq<Word>): State
    requires |d| == 4
  {
    State(ColOf(d[0]), ColOf(d[1]), ColOf(d[2]), ColOf(d[3]))
  }

  /** A state of four words from position p on. */
  function KeyAt(ks: seq<Word>, p: nat): State
    requires p + 4 <= |ks|
  {
    State(ColOf(ks[p]), ColOf(ks[p + 1]), ColOf(ks[p + 2]), ColOf(ks[p + 3]))
  }

  /** The round keys in the key words. */
  function Keys(ks: seq<Word>, rounds: nat): (keys: seq<State>)
    requires 4 * rounds + 4 <= |ks|
    ensures |keys| == rounds + 1 && forall r :: 0 <= r <= rounds ==> keys[r] == KeyAt(ks, 4 * r)
  {
    seq(rounds + 1, r requires 0 <= r <= rounds => KeyAt(ks, 4 * r))
  }

  /** MixColumn as AES_encrypt does it. */
  function MixSteps(x: Col): Col {
    var tmp1 := Add(Add(Add(x.a, x.b), x.c), x.d);
    Col(Add(x.a, Add(tmp1, AesXtime(Add(x.a, x.b)))), Add(x.b, Add(tmp1, AesXtime(Add(x.b, x.c)))),
        Add(x.c, Add(tmp1, AesXtime(Add(x.c, x.d)))), Add(x.d, Add(tmp1, AesXtime(Add(x.d, x.a)))))
  }

  lemma MixStepsIs(x: Col)
    ensures MixSteps(x) == MixCol(x)
  {
    var tmp1 := Add(Add(Add(x.a, x.b), x.c), x.d);
    MixColumnStepsIs(x);
    AddComm(tmp1, XTime(Add(x.a, x.b)));
    AddComm(tmp1, XTime(Add(x.b, x.c)));
    AddComm(tmp1, XTime(Add(x.c, x.d)));
    AddComm(tmp1, XTime(Add(x.d, x.a)));
  }

  /** One column of ByteSub, ShiftRow and, except in the last round, MixColumn. */
  function EncryptColumn(d: seq<Word>, row: nat, last: bool): Word
    requires |d| == 4 && row < 4
  {
    var x := Col(SubByte(ColOf(d[row % 4]).a), SubByte(ColOf(d[(row + 1) % 4]).b),
                 SubByte(ColOf(d[(row + 2) % 4]).c), SubByte(ColOf(d[(row + 3) % 4]).d));
    WordOf(if last then x else MixSteps(x))
  }

  lemma EncryptColumns(d: seq<Word>, t: seq<Word>, last: bool)
    requires |d| == |t| == 4 && forall row :: 0 <= row < 4 ==> t[row] == EncryptColumn(d, row, last)
    ensures StateOf(t) == if last then Shift(Sub(StateOf(d))) else Mix(Shift(Sub(StateOf(d))))
  {
    var s := Shift(Sub(StateOf(d)));
    MixStepsIs(s.c0);
    MixStepsIs(s.c1);
    MixStepsIs(s.c2);
    MixStepsIs(s.c3);
    WordRoundTrip(if last then s.c0 else MixSteps(s.c0), t[0]);
    WordRoundTrip(if last then s.c1 else MixSteps(s.c1), t[1]);
    WordRoundTrip(if last then s.c2 else MixSteps(s.c2), t[2]);
    WordRoundTrip(if last then s.c3 else MixSteps(s.c3), t[3]);
  }

  const Four := Poly(false, false, true, false, false)
  const Eight := Poly(false, false, false, true, false)

  lemma Monomials(x: Gf)
    ensures Product(Four, x) == XTime(XTime(x)) && Product(Eight, x) == XTime(XTime(XTime(x)))
  {
    var x4 := XTime(XTime(x));
    ProductIs(Four, x);
    ProductIs(Eight, x);
    AddZero(Zero);
    AddZero(x4);
    AddZero(XTime(x4));
  }

  /** One row of the decryption's MixColumn: x4 is {04}(a + c), x6 is {08}(a + b + c + d). */
  function DecryptRow(a: Gf, b: Gf, others: Gf, x4: Gf, x6: Gf): Gf {
    Add(XTime(Add(a, b)), Add(Add(others, x4), x6))
  }

  /** The terms of a row, by variable. */
  lemma DecryptRowIs(a: Gf, b: Gf, c: Gf, d: Gf, x4: Gf, x6: Gf)
    requires x4 == Add(XTime(XTime(a)), XTime(XTime(c)))
    requires x6 == Sum(XTime(XTime(XTime(a))), XTime(XTime(XTime(b))), XTime(XTime(XTime(c))), XTime(XTime(XTime(d))))
    ensures DecryptRow(a, b, Add(Add(b, c), d), x4, x6) == InvRow(a, b, c, d)
  {
    var w := Scaled(Two, Two, Nothing, Nothing, a, b, c, d);
    var x := Scaled(Nothing, One, One, One, a, b, c, d);
    var y := Scaled(Four, Nothing, Four, Nothing, a, b, c, d);
    var z := Scaled(Eight, Eight, Eight, Eight, a, b, c, d);
    SmallProducts(a);
    SmallProducts(b);
    SmallProducts(c);
    SmallProducts(d);
    Monomials(a);
    Monomials(b);
    Monomials(c);
    Monomials(d);
    RowTerms(a, b, c, d, x4, w, x, y);
    AddAssoc(XTime(Add(a, b)), Add(Add(Add(b, c), d), x4), x6);
    AddAssoc(XTime(Add(a, b)), Add(Add(b, c), d), x4);
    AddAssoc(Add(XTime(Add(a, b)), Add(Add(b, c), d)), x4, x6);
    Transpose(w, x, y, z);
    SumOfProducts(Two, Nothing, Four, Eight, a);
    SumOfProducts(Two, One, Nothing, Eight, b);
    SumOfProducts(Nothing, One, Four, Eight, c);
    SumOfProducts(Nothing, One, Nothing, Eight, d);
  }

  lemma RowTerms(a: Gf, b: Gf, c: Gf, d: Gf, x4: Gf, w: Col, x: Col, y: Col)
    requires x4 == Add(XTime(XTime(a)), XTime(XTime(c)))
    requires w == Col(XTime(a), XTime(b), Zero, Zero) && x == Col(Zero, b, c, d)
    requires y == Col(XTime(XTime(a)), Zero, XTime(XTime(c)), Zero)
    ensures Sum(w.a, w.b, w.c, w.d) == XTime(Add(a, b))
    ensures Sum(x.a, x.b, x.c, x.d) == Add(Add(b, c), d)
    ensures Sum(y.a, y.b, y.c, y.d) == x4
  {
    XTimeLinear(a, b);
    AddZero(Zero);
    AddZero(Add(XTime(a), XTime(b)));
    AddZero(b);
    AddAssoc(b, c, d);
    AddZero(XTime(XTime(a)));
    AddZero(XTime(XTime(c)));
  }

  /** InvMixColumn as AES_decrypt does it. */
  function InvMixDecrypt(x: Col): Col {
    var xt0, xt1, xt2, xt3 := AesXtime(Add(x.a, x.b)), AesXtime(Add(x.b, x.c)), AesXtime(Add(x.c, x.d)),
        AesXtime(Add(x.d, x.a));
    var xt4, xt5 := AesXtime(Add(xt0, xt1)), AesXtime(Add(xt1, xt2));
    var xt6 := AesXtime(Add(xt4, xt5));
    Col(Add(xt0, Add(Add(Add(Add(x.b, x.c), x.d), xt4), xt6)), Add(xt1, Add(Add(Add(Add(x.a, x.c), x.d), xt5), xt6)),
        Add(xt2, Add(Add(Add(Add(x.a, x.b), x.d), xt4), xt6)), Add(xt3, Add(Add(Add(Add(x.a, x.b), x.c), xt5), xt6)))
  }

  /** Sums of neighbours cancel the common term. */
  lemma Neighbours(a: Gf, b: Gf, c: Gf)
    ensures XTime(Add(XTime(Add(a, b)), XTime(Add(b, c)))) == Add(XTime(XTime(a)), XTime(XTime(c)))
  {
    var x, y, z := XTime(a), XTime(b), XTime(c);
    XTimeLinear(a, b);
    XTimeLinear(b, c);
    AddAssoc(Add(x, y), y, z);
    AddTwice(x, y);
    XTimeLinear(x, z);
  }

  /** The eightfold sum of all four bytes. */
  lemma EightfoldSum(a: Gf, b: Gf, c: Gf, d: Gf)
    ensures XTime(Add(Add(XTime(XTime(a)), XTime(XTime(c))), Add(XTime(XTime(b)), XTime(XTime(d)))))
            == Sum(XTime(XTime(XTime(a))), XTime(XTime(XTime(b))), XTime(XTime(XTime(c))), XTime(XTime(XTime(d))))
  {
    var p, q, r, t := XTime(XTime(a)), XTime(XTime(b)), XTime(XTime(c)), XTime(XTime(d));
    XTimeLinear(Add(p, r), Add(q, t));
    XTimeLinear(p, r);
    XTimeLinear(q, t);
    AddPair(XTime(p), XTime(q), XTime(r), XTime(t));
  }

  lemma ThreeRotated(b: Gf, c: Gf, d: Gf)
    ensures Add(Add(d, b), c) == Add(Add(b, c), d)
  {
    AddAssoc(d, b, c);
    AddComm(d, Add(b, c));
  }

  lemma InvMixDecryptIs(x: Col)
    ensures InvMixDecrypt(x) == InvMixCol(x)
  {
    var a, b, c, d := x.a, x.b, x.c, x.d;
    var xt4, xt5 := XTime(Add(XTime(Add(a, b)), XTime(Add(b, c)))), XTime(Add(XTime(Add(b, c)), XTime(Add(c, d))));
    var xt6 := XTime(Add(xt4, xt5));
    Neighbours(a, b, c);
    Neighbours(b, c, d);
    EightfoldSum(a, b, c, d);
    Rotate(XTime(XTime(XTime(b))), XTime(XTime(XTime(c))), XTime(XTime(XTime(d))), XTime(XTime(XTime(a))));
    Rotate(XTime(XTime(XTime(c))), XTime(XTime(XTime(d))), XTime(XTime(XTime(a))), XTime(XTime(XTime(b))));
    Rotate(XTime(XTime(XTime(d))), XTime(XTime(XTime(a))), XTime(XTime(XTime(b))), XTime(XTime(XTime(c))));
    AddComm(XTime(XTime(a)), XTime(XTime(c)));
    AddComm(XTime(XTime(b)), XTime(XTime(d)));
    DecryptRowIs(a, b, c, d, xt4, xt6);
    DecryptRowIs(b, c, d, a, xt5, xt6);
    DecryptRowIs(c, d, a, b, xt4, xt6);
    DecryptRowIs(d, a, b, c, xt5, xt6);
    ThreeRotated(c, d, a);
    ThreeRotated(a, b, d);
    ThreeRotated(d, a, b);
  }

  /** One column of the inverse steps of a round. */
  function DecryptColumn(d: seq<Word>, row: nat, last: bool): Word
    requires |d| == 4 && 1 <= row <= 4
  {
    var x := Col(InvSubByte(ColOf(d[(row + 3) % 4]).a), InvSubByte(ColOf(d[(row + 2) % 4]).b),
                 InvSubByte(ColOf(d[(row + 1) % 4]).c), InvSubByte(ColOf(d[row % 4]).d));
    WordOf(if last then x else InvMixDecrypt(x))
  }

  lemma DecryptColumns(d: seq<Word>, t: seq<Word>, last: bool)
    requires |d| == |t| == 4 && forall row :: 1 <= row <= 4 ==> t[row - 1] == DecryptColumn(d, row, last)
    ensures StateOf(t) == if last then InvSub(InvShift(StateOf(d))) else InvMix(InvSub(InvShift(StateOf(d))))
  {
    var s := InvSub(InvShift(StateOf(d)));
    assert t[1 - 1] == DecryptColumn(d, 1, last) && t[2 - 1] == DecryptColumn(d, 2, last);
    assert t[3 - 1] == DecryptColumn(d, 3, last) && t[4 - 1] == DecryptColumn(d, 4, last);
    InvMixDecryptIs(s.c0);
    InvMixDecryptIs(s.c1);
    InvMixDecryptIs(s.c2);
    InvMixDecryptIs(s.c3);
    WordRoundTrip(if last then s.c0 else InvMixDecrypt(s.c0), t[0]);
    WordRoundTrip(if last then s.c1 else InvMixDecrypt(s.c1), t[1]);
    WordRoundTrip(if last then s.c2 else InvMixDecrypt(s.c2), t[2]);
    WordRoundTrip(if last then s.c3 else InvMixDecrypt(s.c3), t[3]);
  }

  /** Adding four key words. */
  lemma AddKeyWords(d: seq<Word>, r: seq<Word>, ks: seq<Word>, p: nat)
    requires |d| == |r| == 4 && p + 4 <= |ks| && forall k :: 0 <= k < 4 ==> r[k] == XorWord(d[k], ks[p + k])
    ensures StateOf(r) == AddKey(StateOf(d), KeyAt(ks, p))
  {
    ColOfXor(d[0], ks[p]);
    ColOfXor(d[1], ks[p + 1]);
    ColOfXor(d[2], ks[p + 2]);
    ColOfXor(d[3], ks[p + 3]);
  }

  /** The key words with the middle ones before position p converted. */
  ghost predicate ConvertedUpTo(ks: seq<Word>, ks0: seq<Word>, rounds: nat, p: nat) {
    && |ks| == |ks0| && 4 * rounds + 4 <= |ks|
    && forall i :: 0 <= i < |ks| ==> ks[i] == if 4 <= i < p then InvMixWord(ks0[i]) else ks0[i]
  }

  lemma ConvertedKeys(ks: seq<Word>, ks0: seq<Word>, rounds: nat)
    requires rounds >= 1 && ConvertedUpTo(ks, ks0, rounds, 4 * rounds)
    ensures Keys(ks, rounds) == Converted(Keys(ks0, rounds))
  {
    forall r | 0 < r < rounds ensures KeyAt(ks, 4 * r) == InvMix(KeyAt(ks0, 4 * r)) {
      InvMixWordIs(ks0[4 * r]);
      InvMixWordIs(ks0[4 * r + 1]);
      InvMixWordIs(ks0[4 * r + 2]);
      InvMixWordIs(ks0[4 * r + 3]);
    }
  }

  /** The last n rounds of the decryption, folded: lemma RemainingIs opens it. */
  ghost function Remaining(keys: seq<State>, n: nat, s: State, fold: nat := 3): State
    requires n <= |keys|
  {
    if fold > 0 then Remaining(keys, n, s, fold - 1) else if n == 0 then s else EqRounds(keys, n - 1, s)
  }

  lemma {:induction false} RemainingIs(keys: seq<State>, n: nat, s: State, fold: nat := 3)
    requires n <= |keys|
    ensures Remaining(keys, n, s, fold) == if n == 0 then s else EqRounds(keys, n - 1, s)
  {
    if fold > 0 {
      RemainingIs(keys, n, s, fold - 1);
    }
  }

  class AesCtx {
    const ks: array<Word>
    const iv: array<Octet>
    var rounds: nat

    /** A key schedule of at least one round fits. */
    predicate Valid()
      reads this
    {
      rounds >= 1 && 4 * rounds + 4 <= ks.Length && iv.Length == 16
    }

    ghost function RoundKeys(): seq<State>
      requires Valid()
      reads this, ks
    {
      Keys(ks[..], rounds)
    }

    constructor (keyWords: array<Word>, vector: array<Octet>, n: nat)
      requires n >= 1 && 4 * n + 4 <= keyWords.Length && vector.Length == 16
      ensures Valid() && ks == keyWords && iv == vector && rounds == n
    {
      ks, iv, rounds := keyWords, vector, n;
    }

    /** AES_convert_key */
    method ConvertKey()
      requires Valid()
      modifies ks
      ensures RoundKeys() == Converted(old(RoundKeys()))
    {
      ghost var ks0 := ks[..];
      var i, k := 4 * rounds, 4;
      while i > 4
        invariant 4 <= i && i + k == 4 * rounds + 4
        invariant ConvertedUpTo(ks[..], ks0, rounds, k)
      {
        ks[k] := InvMixWord(ks[k]);
        i, k := i - 1, k + 1;
      }
      ConvertedKeys(ks[..], ks0, rounds);
    }

    /** The key addition, from key word p on. */
    method AddWords(data: array<Word>, tmp: seq<Word>, p: nat)
      requires data.Length == |tmp| == 4 && p + 4 <= ks.Length && data != ks
      modifies data
      ensures StateOf(data[..]) == AddKey(StateOf(tmp), KeyAt(ks[..], p))
    {
      var row := 0;
      while row < 4
        invariant 0 <= row <= 4
        invariant forall k :: 0 <= k < row ==> data[k] == XorWord(tmp[k], ks[p + k])
      {
        data[row] := XorWord(tmp[row], ks[p + row]);
        row := row + 1;
      }
      AddKeyWords(tmp, data[..], ks[..], p);
    }

    /** The substitution, shift and mix of one round, into tmp. */
    method EncryptStep(data: array<Word>, last: bool) returns (tmp: seq<Word>)
      requires data.Length == 4
      ensures |tmp| == 4
      ensures StateOf(tmp) == if last then Shift(Sub(StateOf(data[..]))) else Mix(Shift(Sub(StateOf(data[..]))))
    {
      tmp := [];
      var row := 0;
      while row < 4
        invariant 0 <= row <= 4 && |tmp| == row
        invariant forall k :: 0 <= k < row ==> tmp[k] == EncryptColumn(data[..], k, last)
      {
        tmp := tmp + [EncryptColumn(data[..], row, last)];
        row := row + 1;
      }
      EncryptColumns(data[..], tmp, last);
    }

    /** AES_encrypt */
    method EncryptBlock(data: array<Word>)
      requires Valid() && data.Length == 4 && data != ks
      modifies data
      ensures StateOf(data[..]) == Encrypt(RoundKeys(), StateOf(old(data[..])))
    {
      ghost var s, keys := StateOf(data[..]), RoundKeys();
      AddWords(data, data[..], 0);
      var curr := 0;
      while curr < rounds
        invariant 0 <= curr <= rounds
        invariant curr < rounds ==> StateOf(data[..]) == Rounds(keys, curr, s)
        invariant curr == rounds ==> StateOf(data[..]) == Encrypt(keys, s)
      {
        EncryptRound(data, curr);
        curr := curr + 1;
      }
    }

    /** One round of AES_encrypt. */
    method EncryptRound(data: array<Word>, curr: nat)
      requires Valid() && data.Length == 4 && data != ks && curr < rounds
      modifies data
      ensures var t := Shift(Sub(StateOf(old(data[..]))));
              StateOf(data[..]) == AddKey(if curr == rounds - 1 then t else Mix(t), RoundKeys()[curr + 1])
    {
      assert RoundKeys()[curr + 1] == KeyAt(ks[..], 4 * (curr + 1));
      var tmp := EncryptStep(data, curr == rounds - 1);
      AddWords(data, tmp, 4 * curr + 4);
    }

    /** The inverse shift, substitution and mix of one round, into tmp, from the last row up. */
    method DecryptStep(data: array<Word>, last: bool) returns (tmp: seq<Word>)
      requires data.Length == 4
      ensures |tmp| == 4
      ensures StateOf(tmp) == if last then InvSub(InvShift(StateOf(data[..]))) else InvMix(InvSub(InvShift(StateOf(data[..]))))
    {
      tmp := data[..];
      var row := 4;
      while row > 0
        invariant 0 <= row <= 4 && |tmp| == 4
        invariant forall r :: row < r <= 4 ==> tmp[r - 1] == DecryptColumn(data[..], r, last)
      {
        tmp := tmp[row - 1 := DecryptColumn(data[..], row, last)];
        row := row - 1;
      }
      DecryptColumns(data[..], tmp, last);
    }

    /** The key addition from the last word back. */
    method AddWordsBack(data: array<Word>, tmp: seq<Word>, p: nat)
      requires data.Length == |tmp| == 4 && p + 4 <= ks.Length && data != ks
      modifies data
      ensures StateOf(data[..]) == AddKey(StateOf(tmp), KeyAt(ks[..], p))
    {
      var row, k := 4, p + 4;
      while row > 0
        invariant 0 <= row <= 4 && k == p + row
        invariant forall j :: row <= j < 4 ==> data[j] == XorWord(tmp[j], ks[p + j])
      {
        k := k - 1;
        data[row - 1] := XorWord(tmp[row - 1], ks[k]);
        row := row - 1;
      }
      AddKeyWords(tmp, data[..], ks[..], p);
    }

    /** AES_decrypt, on a converted key. */
    method DecryptBlock(data: array<Word>)
      requires Valid() && data.Length == 4 && data != ks
      modifies data
      ensures StateOf(data[..]) == EqDecrypt(RoundKeys(), StateOf(old(data[..])))
    {
      ghost var s, keys := StateOf(data[..]), RoundKeys();
      AddWordsBack(data, data[..], 4 * rounds);
      assert keys[rounds] == KeyAt(ks[..], 4 * rounds);
      RemainingIs(keys, rounds, StateOf(data[..]));
      var curr := 0;
      while curr < rounds
        invariant 0 <= curr <= rounds
        invariant Remaining(keys, rounds - curr, StateOf(data[..])) == EqDecrypt(keys, s)
      {
        DecryptRound(data, rounds - 1 - curr);
        curr := curr + 1;
      }
      RemainingIs(keys, 0, StateOf(data[..]));
    }

    /** One round of AES_decrypt, with round key r. */
    method DecryptRound(data: array<Word>, r: nat)
      requires Valid() && data.Length == 4 && data != ks && r < rounds
      modifies data
      ensures Remaining(RoundKeys(), r + 1, StateOf(old(data[..]))) == Remaining(RoundKeys(), r, StateOf(data[..]))
    {
      RemainingIs(RoundKeys(), r + 1, StateOf(data[..]));
      assert RoundKeys()[r] == KeyAt(ks[..], 4 * r);
      var tmp := DecryptStep(data, r == 0);
      AddWordsBack(data, tmp, 4 * r);
      RemainingIs(RoundKeys(), r, StateOf(data[..]));
    }
  }
}
