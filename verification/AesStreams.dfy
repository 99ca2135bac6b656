/** The two stream decryptions over the two AES codes. */
module AesStreams {
  import opened Octets
  import opened AesField
  import opened AesSpec
  import opened TinyAes
  import opened WordAes
  import opened AesContext
  import opened AesKeys
  import opened CtrStream

  function ColBytes(x: Col): seq<Octet> { [x.a.bits, x.b.bits, x.c.bits, x.d.bits] }

  function BytesOf(s: State): Block {
    ColBytes(s.c0) + ColBytes(s.c1) + ColBytes(s.c2) + ColBytes(s.c3)
  }

  lemma BytesRoundTrip(s: State)
    ensures StateAt(BytesOf(s), 0) == s
  {
  }

  /** The block cipher of a key schedule, on 16 bytes. */
  function BlockCipher(keys: seq<State>): Cipher
    requires |keys| >= 2
  {
    (b: Block) => BytesOf(Encrypt(keys, StateAt(b, 0)))
  }

  /** AES_ctr_encrypt makes its keystream with a CBC encryption of one block from a zero
      IV, which is the block cipher itself. */
  lemma OneBlockFromZero(keys: seq<State>, b: Block)
    requires |keys| >= 2
    ensures var zero: Block := seq(16, _ => 0);
            CbcEncrypt(keys, StateAt(zero, 0), [StateAt(b, 0)]) == [StateAt(BlockCipher(keys)(b), 0)]
  {
    var zero: Block := seq(16, _ => 0);
    var s := StateAt(b, 0);
    AddZeroCol(s.c0);
    AddZeroCol(s.c1);
    AddZeroCol(s.c2);
    AddZeroCol(s.c3);
    assert StateAt(zero, 0) == State(ZeroCol, ZeroCol, ZeroCol, ZeroCol);
    assert AddKey(s, StateAt(zero, 0)) == s;
    BytesRoundTrip(Encrypt(keys, s));
  }

  const ZeroCol := Col(Zero, Zero, Zero, Zero)

  lemma AddZeroCol(x: Col)
    ensures AddCol(x, ZeroCol) == x
  {
    AddZero(x.a);
    AddZero(x.b);
    AddZero(x.c);
    AddZero(x.d);
  }

  /** With the same key and IV, mirror_buffer_decrypt over aes.c and AES_ctr_encrypt over
      crypto/aes.c give the same bytes, however each divides its input, provided that the
      packets of the former stay in step. */
  lemma SameStream(key: seq<Octet>, roundKey: seq<Octet>, w: seq<Word>, iv: Block, packets: seq<seq<Octet>>,
      others: seq<seq<Octet>>)
    requires |key| == 16 && |roundKey| == 176 && |w| >= 44
    requires KeysOf(roundKey) == ScheduleKeys(KeyCols(key, 4), Nr) && Keys(w, 10) == ScheduleKeys(KeyCols(key, 4), 10)
    requires InStep(0, packets) && Concat(packets) == Concat(others)
    ensures Delivered(BlockCipher(KeysOf(roundKey)), iv, 0, packets) == DeliveredCtr(BlockCipher(Keys(w, 10)), iv, 0, others)
  {
    MirrorEqualsCtr(BlockCipher(KeysOf(roundKey)), iv, packets, others);
  }
}
