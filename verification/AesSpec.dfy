/** The AES transformations (FIPS 197) on columns of four bytes, and why decryption undoes
    encryption for any key schedule and any number of rounds. */
module AesSpec {
  import opened AesSbox
  import opened AesField

  datatype Col = Col(a: Gf, b: Gf, c: Gf, d: Gf)

  datatype State = State(c0: Col, c1: Col, c2: Col, c3: Col)

  /** The byte substitution and its inverse, folded: lemma SubByteIs opens them. */
  function SubByte(x: Gf, fold: nat := 3): Gf {
    if fold > 0 then SubByte(x, fold - 1) else Gf(Sbox(x.bits))
  }

  function InvSubByte(x: Gf, fold: nat := 3): Gf {
    if fold > 0 then InvSubByte(x, fold - 1) else Gf(InvSbox(x.bits))
  }

  lemma {:induction false} SubByteIs(x: Gf, fold: nat := 3)
    ensures SubByte(x, fold) == Gf(Sbox(x.bits)) && InvSubByte(x, fold) == Gf(InvSbox(x.bits))
  {
    if fold > 0 {
      SubByteIs(x, fold - 1);
    }
  }

  lemma SubByteInverse(x: Gf)
    ensures InvSubByte(SubByte(x)) == x
  {
    SubByteIs(x);
    SubByteIs(SubByte(x));
    SboxInverse(x.bits);
  }

  function AddCol(x: Col, y: Col): Col {
    Col(Add(x.a, y.a), Add(x.b, y.b), Add(x.c, y.c), Add(x.d, y.d))
  }

  function SubCol(x: Col): Col {
    Col(SubByte(x.a), SubByte(x.b), SubByte(x.c), SubByte(x.d))
  }

  function InvSubCol(x: Col): Col {
    Col(InvSubByte(x.a), InvSubByte(x.b), InvSubByte(x.c), InvSubByte(x.d))
  }

  /** One row of MixColumns and of its inverse. */
  function Row(a: Gf, b: Gf, c: Gf, d: Gf): Gf {
    Sum(Product(Two, a), Product(Three, b), c, d)
  }

  function InvRow(a: Gf, b: Gf, c: Gf, d: Gf): Gf {
    Sum(Product(Fourteen, a), Product(Eleven, b), Product(Thirteen, c), Product(Nine, d))
  }

  function MixCol(x: Col): Col {
    Col(Row(x.a, x.b, x.c, x.d), Row(x.b, x.c, x.d, x.a), Row(x.c, x.d, x.a, x.b), Row(x.d, x.a, x.b, x.c))
  }

  function InvMixCol(x: Col): Col {
    Col(InvRow(x.a, x.b, x.c, x.d), InvRow(x.b, x.c, x.d, x.a), InvRow(x.c, x.d, x.a, x.b), InvRow(x.d, x.a, x.b, x.c))
  }

  function AddKey(s: State, k: State): State {
    State(AddCol(s.c0, k.c0), AddCol(s.c1, k.c1), AddCol(s.c2, k.c2), AddCol(s.c3, k.c3))
  }

  function Sub(s: State): State {
    State(SubCol(s.c0), SubCol(s.c1), SubCol(s.c2), SubCol(s.c3))
  }

  function InvSub(s: State): State {
    State(InvSubCol(s.c0), InvSubCol(s.c1), InvSubCol(s.c2), InvSubCol(s.c3))
  }

  /** Row r moves r columns to the left. */
  function Shift(s: State): State {
    State(Col(s.c0.a, s.c1.b, s.c2.c, s.c3.d), Col(s.c1.a, s.c2.b, s.c3.c, s.c0.d),
          Col(s.c2.a, s.c3.b, s.c0.c, s.c1.d), Col(s.c3.a, s.c0.b, s.c1.c, s.c2.d))
  }

  function InvShift(s: State): State {
    State(Col(s.c0.a, s.c3.b, s.c2.c, s.c1.d), Col(s.c1.a, s.c0.b, s.c3.c, s.c2.d),
          Col(s.c2.a, s.c1.b, s.c0.c, s.c3.d), Col(s.c3.a, s.c2.b, s.c1.c, s.c0.d))
  }

  function Mix(s: State): State {
    State(MixCol(s.c0), MixCol(s.c1), MixCol(s.c2), MixCol(s.c3))
  }

  function InvMix(s: State): State {
    State(InvMixCol(s.c0), InvMixCol(s.c1), InvMixCol(s.c2), InvMixCol(s.c3))
  }

  // Each transformation is undone by its inverse

  lemma AddColTwice(x: Col, y: Col)
    ensures AddCol(AddCol(x, y), y) == x
  {
    AddTwice(x.a, y.a);
    AddTwice(x.b, y.b);
    AddTwice(x.c, y.c);
    AddTwice(x.d, y.d);
  }

  lemma AddKeyTwice(s: State, k: State)
    ensures AddKey(AddKey(s, k), k) == s
  {
    AddColTwice(s.c0, k.c0);
    AddColTwice(s.c1, k.c1);
    AddColTwice(s.c2, k.c2);
    AddColTwice(s.c3, k.c3);
  }

  lemma SubColInverse(x: Col)
    ensures InvSubCol(SubCol(x)) == x
  {
    SubByteInverse(x.a);
    SubByteInverse(x.b);
    SubByteInverse(x.c);
    SubByteInverse(x.d);
  }

  lemma SubInverse(s: State)
    ensures InvSub(Sub(s)) == s
  {
    SubColInverse(s.c0);
    SubColInverse(s.c1);
    SubColInverse(s.c2);
    SubColInverse(s.c3);
  }

  lemma ShiftInverse(s: State)
    ensures InvShift(Shift(s)) == s
  {
  }

  lemma ProductSum(p: Poly, w: Gf, x: Gf, y: Gf, z: Gf)
    ensures Product(p, Sum(w, x, y, z)) == Sum(Product(p, w), Product(p, x), Product(p, y), Product(p, z))
  {
    ProductLinear(p, Add(w, x), Add(y, z));
    ProductLinear(p, w, x);
    ProductLinear(p, y, z);
  }

  /** A factor times one row of MixColumns, by coefficients of a, b, c, d. */
  lemma ProductRow(p: Poly, a: Gf, b: Gf, c: Gf, d: Gf)
    requires !p.p4
    ensures Product(p, Row(a, b, c, d))
            == Sum(Product(PolyShift(p), a), Product(PolyAdd(p, PolyShift(p)), b), Product(p, c), Product(p, d))
  {
    ProductSum(p, Product(Two, a), Product(Three, b), c, d);
    ProductOfProduct(p, a);
    ProductOfProduct(p, b);
  }

  /** Four products with the same element add up. */
  lemma SumOfProducts(p: Poly, q: Poly, r: Poly, t: Poly, x: Gf)
    ensures Sum(Product(p, x), Product(q, x), Product(r, x), Product(t, x))
            == Product(PolyAdd(PolyAdd(p, q), PolyAdd(r, t)), x)
  {
    ProductAdd(p, q, x);
    ProductAdd(r, t, x);
    ProductAdd(PolyAdd(p, q), PolyAdd(r, t), x);
  }

  lemma Transpose(w: Col, x: Col, y: Col, z: Col)
    ensures Sum(Sum(w.a, w.b, w.c, w.d), Sum(x.a, x.b, x.c, x.d), Sum(y.a, y.b, y.c, y.d), Sum(z.a, z.b, z.c, z.d))
            == Sum(Sum(w.a, x.a, y.a, z.a), Sum(w.b, x.b, y.b, z.b), Sum(w.c, x.c, y.c, z.c), Sum(w.d, x.d, y.d, z.d))
  {
    SumPair(w.a, w.b, w.c, w.d, x.a, x.b, x.c, x.d);
    SumPair(y.a, y.b, y.c, y.d, z.a, z.b, z.c, z.d);
    SumPair(Add(w.a, x.a), Add(w.b, x.b), Add(w.c, x.c), Add(w.d, x.d), Add(y.a, z.a), Add(y.b, z.b), Add(y.c, z.c),
        Add(y.d, z.d));
  }

  /** The inverse matrix applied to the matrix gives back the first byte. */
  lemma RowInverse(a: Gf, b: Gf, c: Gf, d: Gf)
    ensures InvRow(Row(a, b, c, d), Row(b, c, d, a), Row(c, d, a, b), Row(d, a, b, c)) == a
  {
    ProductRow(Fourteen, a, b, c, d);
    ProductRow(Eleven, b, c, d, a);
    ProductRow(Thirteen, c, d, a, b);
    ProductRow(Nine, d, a, b, c);
    RowInverseSums(a, b, c, d);
  }

  function Scaled(p: Poly, q: Poly, r: Poly, t: Poly, a: Gf, b: Gf, c: Gf, d: Gf): Col {
    Col(Product(p, a), Product(q, b), Product(r, c), Product(t, d))
  }

  lemma RowInverseSums(a: Gf, b: Gf, c: Gf, d: Gf)
    ensures Sum(Sum(Product(PolyShift(Fourteen), a), Product(PolyAdd(Fourteen, PolyShift(Fourteen)), b),
      Product(Fourteen, c), Product(Fourteen, d)),
                Sum(Product(PolyShift(Eleven), b), Product(PolyAdd(Eleven, PolyShift(Eleven)), c), Product(Eleven, d),
                    Product(Eleven, a)),
                Sum(Product(PolyShift(Thirteen), c), Product(PolyAdd(Thirteen, PolyShift(Thirteen)), d),
                    Product(Thirteen, a), Product(Thirteen, b)),
                Sum(Product(PolyShift(Nine), d), Product(PolyAdd(Nine, PolyShift(Nine)), a), Product(Nine, b),
                    Product(Nine, c)))
            == a
  {
    var w := Scaled(PolyShift(Fourteen), PolyAdd(Fourteen, PolyShift(Fourteen)), Fourteen, Fourteen, a, b, c, d);
    var x := Scaled(Eleven, PolyShift(Eleven), PolyAdd(Eleven, PolyShift(Eleven)), Eleven, a, b, c, d);
    var y := Scaled(Thirteen, Thirteen, PolyShift(Thirteen), PolyAdd(Thirteen, PolyShift(Thirteen)), a, b, c, d);
    var z := Scaled(PolyAdd(Nine, PolyShift(Nine)), Nine, Nine, PolyShift(Nine), a, b, c, d);
    Rotate(x.b, x.c, x.d, x.a);
    Rotate(y.c, y.d, y.a, y.b);
    Rotate(y.b, y.c, y.d, y.a);
    Rotate(z.d, z.a, z.b, z.c);
    Rotate(z.c, z.d, z.a, z.b);
    Rotate(z.b, z.c, z.d, z.a);
    Transpose(w, x, y, z);
    SumOfProducts(PolyShift(Fourteen), Eleven, Thirteen, PolyAdd(Nine, PolyShift(Nine)), a);
    SumOfProducts(PolyAdd(Fourteen, PolyShift(Fourteen)), PolyShift(Eleven), Thirteen, Nine, b);
    SumOfProducts(Fourteen, PolyAdd(Eleven, PolyShift(Eleven)), PolyShift(Thirteen), Nine, c);
    SumOfProducts(Fourteen, Eleven, PolyAdd(Thirteen, PolyShift(Thirteen)), PolyShift(Nine), d);
    SmallProducts(a);
    SmallProducts(b);
    SmallProducts(c);
    SmallProducts(d);
    AddZero(a);
    AddZero(Zero);
  }

  lemma Rotate(a: Gf, b: Gf, c: Gf, d: Gf)
    ensures Sum(a, b, c, d) == Sum(d, a, b, c)
  {
    AddComm(Add(a, b), Add(c, d));
    AddComm(c, d);
    AddAssoc(d, c, Add(a, b));
    AddComm(c, Add(a, b));
    AddAssoc(a, b, c);
    AddAssoc(d, a, Add(b, c));
  }

  lemma MixColInverse(x: Col)
    ensures InvMixCol(MixCol(x)) == x
  {
    RowInverse(x.a, x.b, x.c, x.d);
    RowInverse(x.b, x.c, x.d, x.a);
    RowInverse(x.c, x.d, x.a, x.b);
    RowInverse(x.d, x.a, x.b, x.c);
  }

  lemma MixInverse(s: State)
    ensures InvMix(Mix(s)) == s
  {
    MixColInverse(s.c0);
    MixColInverse(s.c1);
    MixColInverse(s.c2);
    MixColInverse(s.c3);
  }

  /** InvMixColumns distributes over the key addition. */
  lemma InvMixColLinear(x: Col, y: Col)
    ensures InvMixCol(AddCol(x, y)) == AddCol(InvMixCol(x), InvMixCol(y))
  {
    InvRowLinear(x.a, x.b, x.c, x.d, y.a, y.b, y.c, y.d);
    InvRowLinear(x.b, x.c, x.d, x.a, y.b, y.c, y.d, y.a);
    InvRowLinear(x.c, x.d, x.a, x.b, y.c, y.d, y.a, y.b);
    InvRowLinear(x.d, x.a, x.b, x.c, y.d, y.a, y.b, y.c);
  }

  lemma InvRowLinear(a: Gf, b: Gf, c: Gf, d: Gf, a': Gf, b': Gf, c': Gf, d': Gf)
    ensures InvRow(Add(a, a'), Add(b, b'), Add(c, c'), Add(d, d')) == Add(InvRow(a, b, c, d), InvRow(a', b', c', d'))
  {
    ProductLinear(Fourteen, a, a');
    ProductLinear(Eleven, b, b');
    ProductLinear(Thirteen, c, c');
    ProductLinear(Nine, d, d');
    SumPair(Product(Fourteen, a), Product(Eleven, b), Product(Thirteen, c), Product(Nine, d),
            Product(Fourteen, a'), Product(Eleven, b'), Product(Thirteen, c'), Product(Nine, d'));
  }

  lemma InvMixLinear(s: State, k: State)
    ensures InvMix(AddKey(s, k)) == AddKey(InvMix(s), InvMix(k))
  {
    InvMixColLinear(s.c0, k.c0);
    InvMixColLinear(s.c1, k.c1);
    InvMixColLinear(s.c2, k.c2);
    InvMixColLinear(s.c3, k.c3);
  }

  // The cipher

  /** The state after the first `round` middle rounds. */
  function Rounds(keys: seq<State>, round: nat, s: State): State
    requires round < |keys|
  {
    if round == 0 then AddKey(s, keys[0])
    else AddKey(Mix(Shift(Sub(Rounds(keys, round - 1, s)))), keys[round])
  }

  /** The cipher with |keys| - 1 rounds, the last without MixColumns. */
  function Encrypt(keys: seq<State>, s: State): State
    requires |keys| >= 2
  {
    AddKey(Shift(Sub(Rounds(keys, |keys| - 2, s))), keys[|keys| - 1])
  }

  /** The rounds of the inverse cipher that are left at `round`, down to the first. */
  function InvRounds(keys: seq<State>, round: nat, s: State): State
    requires round < |keys|
  {
    if round == 0 then AddKey(InvSub(InvShift(s)), keys[0])
    else InvRounds(keys, round - 1, InvMix(AddKey(InvSub(InvShift(s)), keys[round])))
  }

  function Decrypt(keys: seq<State>, s: State): State
    requires |keys| >= 2
  {
    InvRounds(keys, |keys| - 2, AddKey(s, keys[|keys| - 1]))
  }

  lemma {:induction false} InvRoundsUndo(keys: seq<State>, round: nat, s: State)
    requires round < |keys|
    ensures InvRounds(keys, round, Shift(Sub(Rounds(keys, round, s)))) == s
  {
    var t := Rounds(keys, round, s);
    ShiftInverse(Sub(t));
    SubInverse(t);
    if round == 0 {
      AddKeyTwice(s, keys[0]);
    } else {
      var u := Shift(Sub(Rounds(keys, round - 1, s)));
      AddKeyTwice(Mix(u), keys[round]);
      MixInverse(u);
      InvRoundsUndo(keys, round - 1, s);
    }
  }

  /** Decryption undoes encryption, for every key schedule. */
  lemma DecryptEncrypt(keys: seq<State>, s: State)
    requires |keys| >= 2
    ensures Decrypt(keys, Encrypt(keys, s)) == s
  {
    AddKeyTwice(Shift(Sub(Rounds(keys, |keys| - 2, s))), keys[|keys| - 1]);
    InvRoundsUndo(keys, |keys| - 2, s);
  }

  // The equivalent inverse cipher (section 5.3.5 of FIPS 197)

  /** AES_convert_key: the middle round keys through InvMixColumns. */
  function Converted(keys: seq<State>): (r: seq<State>)
    ensures |r| == |keys|
  {
    seq(|keys|, i requires 0 <= i < |keys| => if 0 < i < |keys| - 1 then InvMix(keys[i]) else keys[i])
  }

  /** The rounds of crypto/aes.c: the columns are mixed before the key is added. */
  function EqRounds(keys: seq<State>, round: nat, s: State): State
    requires round < |keys|
  {
    if round == 0 then AddKey(InvSub(InvShift(s)), keys[0])
    else EqRounds(keys, round - 1, AddKey(InvMix(InvSub(InvShift(s))), keys[round]))
  }

  function EqDecrypt(keys: seq<State>, s: State): State
    requires |keys| >= 2
  {
    EqRounds(keys, |keys| - 2, AddKey(s, keys[|keys| - 1]))
  }

  lemma {:induction false} EqRoundsSame(keys: seq<State>, round: nat, s: State)
    requires round < |keys| - 1
    ensures EqRounds(Converted(keys), round, s) == InvRounds(keys, round, s)
  {
    if round > 0 {
      var t := InvSub(InvShift(s));
      InvMixLinear(t, keys[round]);
      EqRoundsSame(keys, round - 1, InvMix(AddKey(t, keys[round])));
    }
  }

  /** With converted keys the equivalent cipher is the inverse cipher. */
  lemma EqDecryptSame(keys: seq<State>, s: State)
    requires |keys| >= 2
    ensures EqDecrypt(Converted(keys), s) == Decrypt(keys, s)
  {
    EqRoundsSame(keys, |keys| - 2, AddKey(s, keys[|keys| - 1]));
  }

  /** So it undoes encryption as well. */
  lemma EqDecryptEncrypt(keys: seq<State>, s: State)
    requires |keys| >= 2
    ensures EqDecrypt(Converted(keys), Encrypt(keys, s)) == s
  {
    EqDecryptSame(keys, Encrypt(keys, s));
    DecryptEncrypt(keys, s);
  }

  // Cipher block chaining (section 6.2 of NIST SP 800-38A)

  function CbcEncrypt(keys: seq<State>, iv: State, blocks: seq<State>): (r: seq<State>)
    requires |keys| >= 2
    ensures |r| == |blocks|
    decreases |blocks|
  {
    if blocks == [] then [] else
      var c := Encrypt(keys, AddKey(blocks[0], iv));
      [c] + CbcEncrypt(keys, c, blocks[1..])
  }

  /** Decryption with a block function f. */
  function CbcDecrypt(f: State -> State, iv: State, blocks: seq<State>): (r: seq<State>)
    ensures |r| == |blocks|
    decreases |blocks|
  {
    if blocks == [] then [] else [AddKey(f(blocks[0]), iv)] + CbcDecrypt(f, blocks[0], blocks[1..])
  }

  /** The block before block i: the IV, or the block of the sequence. */
  function Before(iv: State, blocks: seq<State>, i: nat): State
    requires i <= |blocks|
  {
    if i == 0 then iv else blocks[i - 1]
  }

  lemma LaterBlock(keys: seq<State>, iv: State, blocks: seq<State>, r: seq<State>, i: nat)
    requires |keys| >= 2 && |r| == |blocks| && i + 1 < |r|
    requires r[i + 1] == Encrypt(keys, AddKey(blocks[i + 1], Before(iv, r, i + 1)))
    ensures r[1..][i] == Encrypt(keys, AddKey(blocks[1..][i], Before(r[0], r[1..], i)))
  {
    assert Before(r[0], r[1..], i) == Before(iv, r, i + 1);
  }

  /** Blocks that satisfy the chaining equations are the encryption. */
  lemma {:induction false} CbcEncryptIs(keys: seq<State>, iv: State, blocks: seq<State>, r: seq<State>)
    requires |keys| >= 2 && |r| == |blocks|
    requires forall i :: 0 <= i < |r| ==> r[i] == Encrypt(keys, AddKey(blocks[i], Before(iv, r, i)))
    ensures r == CbcEncrypt(keys, iv, blocks)
    decreases |blocks|
  {
    if blocks != [] {
      var rest, later := blocks[1..], r[1..];
      forall i | 0 <= i < |later|
        ensures later[i] == Encrypt(keys, AddKey(rest[i], Before(r[0], later, i)))
      {
        LaterBlock(keys, iv, blocks, r, i);
      }
      CbcEncryptIs(keys, r[0], rest, later);
      assert Before(iv, r, 0) == iv;
      assert r == [r[0]] + later;
    }
  }

  /** Blocks before i encrypted in place, the others still those of b. */
  ghost predicate Encrypting(keys: seq<State>, iv: State, b: seq<State>, r: seq<State>, i: nat)
    requires |keys| >= 2
  {
    && |r| == |b| && i <= |b|
    && (forall k :: i <= k < |b| ==> r[k] == b[k])
    && forall k :: 0 <= k < i ==> r[k] == Encrypt(keys, AddKey(b[k], Before(iv, r, k)))
  }

  lemma EncryptingStep(keys: seq<State>, iv: State, b: seq<State>, r: seq<State>, i: nat)
    requires |keys| >= 2 && Encrypting(keys, iv, b, r, i) && i < |b|
    ensures var r' := r[i := Encrypt(keys, AddKey(r[i], Before(iv, r, i)))];
            Encrypting(keys, iv, b, r', i + 1) && Before(iv, r', i + 1) == r'[i]
  {
    var r' := r[i := Encrypt(keys, AddKey(r[i], Before(iv, r, i)))];
    forall k | 0 <= k <= i ensures Before(iv, r', k) == Before(iv, r, k) {
    }
  }

  ghost predicate Decrypting(f: State -> State, iv: State, b: seq<State>, r: seq<State>, i: nat) {
    && |r| == |b| && i <= |b|
    && (forall k :: i <= k < |b| ==> r[k] == b[k])
    && forall k :: 0 <= k < i ==> r[k] == AddKey(f(b[k]), Before(iv, b, k))
  }

  lemma DecryptingStep(f: State -> State, iv: State, b: seq<State>, r: seq<State>, i: nat)
    requires Decrypting(f, iv, b, r, i) && i < |b|
    ensures Decrypting(f, iv, b, r[i := AddKey(f(r[i]), Before(iv, b, i))], i + 1)
    ensures Before(iv, b, i + 1) == r[i]
  {
  }

  /** Blocks that satisfy the unchaining equations are the decryption. */
  lemma {:induction false} CbcDecryptIs(f: State -> State, iv: State, blocks: seq<State>, r: seq<State>)
    requires |r| == |blocks|
    requires forall i :: 0 <= i < |r| ==> r[i] == AddKey(f(blocks[i]), Before(iv, blocks, i))
    ensures r == CbcDecrypt(f, iv, blocks)
    decreases |blocks|
  {
    if blocks != [] {
      forall i | 0 <= i < |r| - 1
        ensures r[1..][i] == AddKey(f(blocks[1..][i]), Before(blocks[0], blocks[1..], i))
      {
        assert Before(blocks[0], blocks[1..], i) == Before(iv, blocks, i + 1);
      }
      CbcDecryptIs(f, blocks[0], blocks[1..], r[1..]);
      assert r == [r[0]] + r[1..];
    }
  }

  ghost predicate Undoes(f: State -> State, keys: seq<State>)
    requires |keys| >= 2
  {
    forall s :: f(Encrypt(keys, s)) == s
  }

  /** CBC decryption undoes CBC encryption, for every key, IV and number of blocks. */
  lemma {:induction false} CbcRoundTrip(f: State -> State, keys: seq<State>, iv: State, blocks: seq<State>)
    requires |keys| >= 2 && Undoes(f, keys)
    ensures CbcDecrypt(f, iv, CbcEncrypt(keys, iv, blocks)) == blocks
    decreases |blocks|
  {
    if blocks != [] {
      var c := Encrypt(keys, AddKey(blocks[0], iv));
      var rest := CbcEncrypt(keys, c, blocks[1..]);
      assert ([c] + rest)[1..] == rest;
      AddKeyTwice(blocks[0], iv);
      CbcRoundTrip(f, keys, c, blocks[1..]);
    }
  }

  /** Both decryptions undo the encryption. */
  lemma BothUndo(keys: seq<State>)
    requires |keys| >= 2
    ensures Undoes(s => Decrypt(keys, s), keys) && Undoes(s => EqDecrypt(Converted(keys), s), keys)
  {
    forall s ensures Decrypt(keys, Encrypt(keys, s)) == s && EqDecrypt(Converted(keys), Encrypt(keys, s)) == s {
      DecryptEncrypt(keys, s);
      EqDecryptEncrypt(keys, s);
    }
  }
}
