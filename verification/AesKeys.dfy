/** The key schedule (section 5.2 of FIPS 197) as both AES codes compute it, so that the same
    128-bit key gives the same cipher in aes.c and in crypto/aes.c. */
module AesKeys {
  import opened Octets
  import opened AesField
  import opened AesSpec
  import opened TinyAes
  import opened WordAes
  import opened AesContext

  /** x to the power n - 1. */
  function RoundConstant(n: nat): Gf {
    if n <= 1 then Gf(0x01) else XTime(RoundConstant(n - 1))
  }

  /** The part of the Rcon tables that is used. */
  const Rcon: seq<Octet> := [0x01, 0x02, 0x04, 0x08, 0x10, 0x20, 0x40, 0x80, 0x1b, 0x36]

  /** The table holds the powers of x. */
  lemma RconIs(n: nat)
    requires 1 <= n <= 10
    ensures Gf(Rcon[n - 1]) == RoundConstant(n)
  {
    if n > 1 {
      RconIs(n - 1);
      RconStep(n);
    }
  }

  lemma RconStep(n: nat)
    requires 2 <= n <= 10
    ensures XTime(Gf(Rcon[n - 2])) == Gf(Rcon[n - 1])
  {
    XTimeIs(Gf(Rcon[n - 2]));
  }

  /** What is done to the word before word i. */
  function Mangled(nk: nat, i: nat, t: Col): Col
    requires nk > 0
  {
    if i % nk == 0 then
      var u := SubCol(Col(t.b, t.c, t.d, t.a));
      Col(Add(u.a, RoundConstant(i / nk)), u.b, u.c, u.d)
    else if nk == 8 && i % nk == 4 then SubCol(t)
    else t
  }

  /** Word i of the schedule of a key of |key| words. */
  function Schedule(key: seq<Col>, i: nat): Col
    requires |key| > 0
  {
    if i < |key| then key[i] else AddCol(Schedule(key, i - |key|), Mangled(|key|, i, Schedule(key, i - 1)))
  }

  function ScheduleState(key: seq<Col>, r: nat): State
    requires |key| > 0
  {
    State(Schedule(key, 4 * r), Schedule(key, 4 * r + 1), Schedule(key, 4 * r + 2), Schedule(key, 4 * r + 3))
  }

  /** The round keys of a key. */
  function ScheduleKeys(key: seq<Col>, rounds: nat): (keys: seq<State>)
    requires |key| > 0
    ensures |keys| == rounds + 1
  {
    seq(rounds + 1, r requires 0 <= r <= rounds => ScheduleState(key, r))
  }

  /** The columns of key bytes. */
  function KeyCols(key: seq<Octet>, nk: nat): (r: seq<Col>)
    requires 4 * nk <= |key|
    ensures |r| == nk && forall i :: 0 <= i < nk ==> r[i] == ColAt(key, 4 * i)
  {
    seq(nk, i requires 0 <= i < nk => ColAt(key, 4 * i))
  }

  // aes.c

  /** The columns of a buffer before column i are those of the schedule. */
  ghost predicate Expanded(s: seq<Octet>, key: seq<Col>, i: nat)
    requires |key| > 0
  {
    4 * i <= |s| && forall k :: 0 <= k < i ==> ColAt(s, 4 * k) == Schedule(key, k)
  }

  lemma ExpandedNext(s: seq<Octet>, s': seq<Octet>, key: seq<Col>, i: nat)
    requires |key| > 0 && Expanded(s, key, i) && |s'| == |s| && 4 * i + 4 <= |s|
    requires forall q :: 0 <= q < 4 * i ==> s'[q] == s[q]
    requires ColAt(s', 4 * i) == Schedule(key, i)
    ensures Expanded(s', key, i + 1)
  {
    forall k | 0 <= k < i ensures ColAt(s', 4 * k) == ColAt(s, 4 * k) {
    }
  }

  lemma ExpandedKeys(s: seq<Octet>, key: seq<Col>)
    requires |key| > 0 && |s| == 176 && Expanded(s, key, 44)
    ensures KeysOf(s) == ScheduleKeys(key, Nr)
  {
    forall r | 0 <= r <= Nr ensures StateAt(s, 16 * r) == ScheduleState(key, r) {
      assert ColAt(s, 4 * (4 * r)) == Schedule(key, 4 * r);
      assert ColAt(s, 4 * (4 * r + 1)) == Schedule(key, 4 * r + 1);
      assert ColAt(s, 4 * (4 * r + 2)) == Schedule(key, 4 * r + 2);
      assert ColAt(s, 4 * (4 * r + 3)) == Schedule(key, 4 * r + 3);
    }
  }

  /** The temporary word of KeyExpansion, for Nk = 4: RotWord, SubWord, Rcon. */
  method NextWord(tempa: Col, i: nat) returns (t: Col)
    requires 4 <= i < 44
    ensures t == Mangled(4, i, tempa)
  {
    t := tempa;
    if i % 4 == 0 {
      var u8tmp := t.a;
      t := Col(t.b, t.c, t.d, u8tmp);
      t := SubCol(t);
      RconIs(i / 4);
      t := Col(Add(t.a, Gf(Rcon[i / 4 - 1])), t.b, t.c, t.d);
    }
  }

  /** KeyExpansion */
  method KeyExpansion(roundKey: array<Octet>, key: seq<Octet>)
    requires roundKey.Length == 176 && |key| == 16
    modifies roundKey
    ensures KeysOf(roundKey[..]) == ScheduleKeys(KeyCols(key, 4), Nr)
  {
    ghost var cols := KeyCols(key, 4);
    var i := 0;
    while i < 4
      invariant 0 <= i <= 4 && Expanded(roundKey[..], cols, i)
    {
      ghost var s := roundKey[..];
      PutCol(roundKey, 4 * i, ColAt(key, 4 * i));
      ExpandedNext(s, roundKey[..], cols, i);
      i := i + 1;
    }
    while i < 44
      invariant 4 <= i <= 44 && Expanded(roundKey[..], cols, i)
    {
      ghost var s := roundKey[..];
      var t := NextWord(ColAt(roundKey[..], 4 * (i - 1)), i);
      PutCol(roundKey, 4 * i, AddCol(ColAt(roundKey[..], 4 * (i - 4)), t));
      ExpandedNext(s, roundKey[..], cols, i);
      i := i + 1;
    }
    ExpandedKeys(roundKey[..], cols);
  }

  // crypto/aes.c

  datatype Mode = Aes128 | Aes256

  /** The words before word i are those of the schedule. */
  ghost predicate Scheduled(w: seq<Word>, key: seq<Col>, i: nat)
    requires |key| > 0
  {
    i <= |w| && forall k :: 0 <= k < i ==> ColOf(w[k]) == Schedule(key, k)
  }

  lemma ScheduledKeys(w: seq<Word>, key: seq<Col>, rounds: nat)
    requires |key| > 0 && 4 * rounds + 4 <= |w| && Scheduled(w, key, 4 * rounds + 4)
    ensures Keys(w, rounds) == ScheduleKeys(key, rounds)
  {
    forall r | 0 <= r <= rounds ensures KeyAt(w, 4 * r) == ScheduleState(key, r) {
    }
  }

  /** The temporary word of AES_set_key: the bytes looked up and put together, rotated by
      one place at the start of a key length. */
  method NextTmp(tmp: Word, words: nat, i: nat) returns (r: Word)
    requires (words == 4 || words == 8) && words <= i < 60 && i / words <= 10
    ensures ColOf(r) == Mangled(words, i, ColOf(tmp))
  {
    r := tmp;
    if i % words == 0 {
      var x := ColOf(tmp);
      var u := SubCol(Col(x.b, x.c, x.d, x.a));
      r := XorWord(WordOf(u), WordOf(Col(Gf(Rcon[i / words - 1]), Zero, Zero, Zero)));
      WordRoundTrip(u, r);
      WordRoundTrip(Col(Gf(Rcon[i / words - 1]), Zero, Zero, Zero), r);
      ColOfXor(WordOf(u), WordOf(Col(Gf(Rcon[i / words - 1]), Zero, Zero, Zero)));
      RconIs(i / words);
      AddZero(u.b);
      AddZero(u.c);
      AddZero(u.d);
    }
    if words == 8 && i % words == 4 {
      WordRoundTrip(SubCol(ColOf(r)), r);
      r := WordOf(SubCol(ColOf(r)));
    }
  }

  /** AES_set_key, the schedule. */
  method SetKey(w: array<Word>, key: seq<Octet>, mode: Mode) returns (rounds: nat)
    requires w.Length == 60 && |key| == if mode == Aes128 then 16 else 32
    modifies w
    ensures rounds == if mode == Aes128 then 10 else 14
    ensures Keys(w[..], rounds) == ScheduleKeys(KeyCols(key, |key| / 4), rounds)
  {
    var words := if mode == Aes128 then 4 else 8;
    rounds := if mode == Aes128 then 10 else 14;
    ghost var cols := KeyCols(key, words);
    var i := 0;
    while i < words
      invariant 0 <= i <= words && Scheduled(w[..], cols, i)
    {
      WordRoundTrip(ColAt(key, 4 * i), w[i]);
      w[i] := WordOf(ColAt(key, 4 * i));
      i := i + 1;
    }
    var ii := 4 * (rounds + 1);
    while i < ii
      invariant words <= i <= ii && Scheduled(w[..], cols, i)
    {
      RoundsBound(mode, i);
      var tmp := NextTmp(w[i - 1], words, i);
      ColOfXor(w[i - words], tmp);
      w[i] := XorWord(w[i - words], tmp);
      i := i + 1;
    }
    ScheduledKeys(w[..], cols, rounds);
  }

  lemma RoundsBound(mode: Mode, i: nat)
    requires i < if mode == Aes128 then 44 else 60
    ensures i / (if mode == Aes128 then 4 else 8) <= 10
  {
  }

  /** For the same 128-bit key both codes encrypt a block to the same block, and each
      decryption undoes the other's encryption. */
  lemma SameCipher(key: seq<Octet>, roundKey: seq<Octet>, w: seq<Word>, s: State)
    requires |key| == 16 && |roundKey| == 176 && |w| >= 44
    requires KeysOf(roundKey) == ScheduleKeys(KeyCols(key, 4), Nr) && Keys(w, 10) == ScheduleKeys(KeyCols(key, 4), 10)
    ensures Encrypt(KeysOf(roundKey), s) == Encrypt(Keys(w, 10), s)
    ensures EqDecrypt(Converted(Keys(w, 10)), Encrypt(KeysOf(roundKey), s)) == s
    ensures Decrypt(KeysOf(roundKey), Encrypt(Keys(w, 10), s)) == s
  {
    EqDecryptEncrypt(Keys(w, 10), s);
    DecryptEncrypt(KeysOf(roundKey), s);
  }
}
