/** AES_cbc_encrypt and AES_cbc_decrypt of crypto/aes.c: chaining over bytes in network
    order, from one buffer to another (which may be the same). */
module AesCbc {
  import opened Octets
  import opened AesField
  import opened AesSpec
  import opened WordAes
  import opened TinyAes
  import opened AesContext

  /** ntohl on the four words of a block. */
  method LoadBlock(msg: array<Octet>, off: nat) returns (w: seq<Word>)
    requires off + 16 <= msg.Length
    ensures |w| == 4 && StateOf(w) == StateAt(msg[..], off)
  {
    w := [];
    var i := 0;
    while i < 4
      invariant 0 <= i <= 4 && |w| == i
      invariant forall k :: 0 <= k < i ==> w[k] == WordOf(ColAt(msg[..], off + 4 * k))
    {
      w := w + [WordOf(ColAt(msg[..], off + 4 * i))];
      i := i + 1;
    }
    LoadedState(msg[..], off, w);
  }

  lemma LoadedState(s: seq<Octet>, off: nat, w: seq<Word>)
    requires off + 16 <= |s| && |w| == 4 && forall k :: 0 <= k < 4 ==> w[k] == WordOf(ColAt(s, off + 4 * k))
    ensures StateOf(w) == StateAt(s, off)
  {
    assert w[0] == WordOf(ColAt(s, off + 4 * 0)) && w[1] == WordOf(ColAt(s, off + 4 * 1));
    assert w[2] == WordOf(ColAt(s, off + 4 * 2)) && w[3] == WordOf(ColAt(s, off + 4 * 3));
    WordRoundTrip(ColAt(s, off), w[0]);
    WordRoundTrip(ColAt(s, off + 4), w[1]);
    WordRoundTrip(ColAt(s, off + 8), w[2]);
    WordRoundTrip(ColAt(s, off + 12), w[3]);
  }

  /** htonl on the four words of a block. */
  method StoreBlock(out: array<Octet>, off: nat, w: seq<Word>)
    requires off + 16 <= out.Length && |w| == 4
    modifies out
    ensures SameElsewhere(out[..], old(out[..]), off)
    ensures StateAt(out[..], off) == StateOf(w)
  {
    PutCol(out, off, ColOf(w[0]));
    PutCol(out, off + 4, ColOf(w[1]));
    PutCol(out, off + 8, ColOf(w[2]));
    PutCol(out, off + 12, ColOf(w[3]));
  }

  /** Exclusive or of two blocks of words. */
  method XorWords(v: seq<Word>, w: seq<Word>) returns (data: array<Word>)
    requires |v| == |w| == 4
    ensures fresh(data) && data.Length == 4 && StateOf(data[..]) == AddKey(StateOf(v), StateOf(w))
  {
    data := new Word[4];
    var i := 0;
    while i < 4
      invariant 0 <= i <= 4
      invariant forall k :: 0 <= k < i ==> data[k] == XorWord(v[k], w[k])
    {
      data[i] := XorWord(v[i], w[i]);
      i := i + 1;
    }
    AddKeyWords(v, data[..], w, 0);
  }

  /** The message blocks from i on have not been overwritten. */
  ghost predicate Unread(m: seq<Octet>, b: seq<State>, i: nat) {
    && 16 * |b| <= |m|
    && forall k :: i <= k < |b| ==> Blocks(m, |b|)[k] == b[k]
  }

  lemma UnreadNext(msg: seq<Octet>, msg': seq<Octet>, b: seq<State>, i: nat)
    requires Unread(msg, b, i) && i < |b| && (msg' == msg || SameElsewhere(msg', msg, 16 * i))
    ensures Unread(msg', b, i + 1)
  {
    if msg' != msg {
      OtherBlocks(msg', msg, i, |b|);
    }
  }

  lemma UnreadNow(m: seq<Octet>, b: seq<State>, i: nat)
    requires Unread(m, b, i) && i < |b|
    ensures StateAt(m, 16 * i) == b[i]
  {
    BlocksAre(m, |b|);
  }

  /** The number of whole blocks that `for (length -= 16; length >= 0; length -= 16)` runs. */
  function BlockCount(length: int): nat { if length < 16 then 0 else length / 16 }

  /** What has been written: chained blocks before i. */
  ghost predicate Chained(keys: seq<State>, iv: State, b: seq<State>, r: seq<State>, i: nat)
    requires |keys| >= 2
  {
    && |r| == |b| && i <= |b|
    && forall k :: 0 <= k < i ==> r[k] == Encrypt(keys, AddKey(b[k], Before(iv, r, k)))
  }

  lemma ChainedStep(keys: seq<State>, iv: State, b: seq<State>, r: seq<State>, i: nat)
    requires |keys| >= 2 && Chained(keys, iv, b, r, i) && i < |b|
    ensures var r' := r[i := Encrypt(keys, AddKey(b[i], Before(iv, r, i)))];
            Chained(keys, iv, b, r', i + 1) && Before(iv, r', i + 1) == r'[i]
  {
    var r' := r[i := Encrypt(keys, AddKey(b[i], Before(iv, r, i)))];
    forall k | 0 <= k <= i ensures Before(iv, r', k) == Before(iv, r, k) {
    }
  }

  /** AES_cbc_encrypt */
  method CbcEncryptWords(ctx: AesCtx, msg: array<Octet>, out: array<Octet>, length: int)
    requires ctx.Valid() && 16 * BlockCount(length) <= msg.Length && 16 * BlockCount(length) <= out.Length
    requires out != ctx.iv && msg != ctx.iv && ctx.ks as object != out && ctx.ks as object != ctx.iv
    modifies out, ctx.iv
    ensures var n := BlockCount(length);
            && Blocks(out[..], n) == CbcEncrypt(ctx.RoundKeys(), StateAt(old(ctx.iv[..]), 0), Blocks(old(msg[..]), n))
            && StateAt(ctx.iv[..], 0) == Before(StateAt(old(ctx.iv[..]), 0), Blocks(out[..], n), n)
  {
    ghost var keys, iv0, b := ctx.RoundKeys(), StateAt(ctx.iv[..], 0), Blocks(msg[..], BlockCount(length));
    var tout := LoadBlock(ctx.iv, 0);
    tout := CbcEncryptLoop(ctx, msg, out, length, tout, keys, iv0, b);
    CbcEncryptIs(keys, iv0, b, Blocks(out[..], |b|));
    ghost var o := out[..];
    StoreBlock(ctx.iv, 0, tout);
    assert out[..] == o;
  }

  /** The loop of AES_cbc_encrypt. */
  method CbcEncryptLoop(ctx: AesCtx, msg: array<Octet>, out: array<Octet>, length: int, first: seq<Word>,
                        ghost keys: seq<State>, ghost iv0: State, ghost b: seq<State>) returns (tout: seq<Word>)
    requires ctx.Valid() && ctx.RoundKeys() == keys && ctx.ks as object != out && |first| == 4
    requires |b| == BlockCount(length) && 16 * |b| <= out.Length && Unread(msg[..], b, 0) && StateOf(first) == iv0
    modifies out
    ensures |tout| == 4 && Chained(keys, iv0, b, Blocks(out[..], |b|), |b|)
    ensures StateOf(tout) == Before(iv0, Blocks(out[..], |b|), |b|)
  {
    ghost var ks := ctx.ks[..];
    tout := first;
    var i, left := 0, length - 16;
    while left >= 0
      invariant left == length - 16 * i - 16 && 0 <= i <= |b|
      invariant |tout| == 4 && Unread(msg[..], b, i)
      invariant Chained(keys, iv0, b, Blocks(out[..], |b|), i) && StateOf(tout) == Before(iv0, Blocks(out[..], |b|), i)
      invariant ctx.ks[..] == ks
    {
      tout := EncryptTurn(ctx, msg, out, i, tout, keys, iv0, b);
      i, left := i + 1, left - 16;
    }
  }

  /** One turn of the loop. */
  method EncryptTurn(ctx: AesCtx, msg: array<Octet>, out: array<Octet>, i: nat, last: seq<Word>,
                     ghost keys: seq<State>, ghost iv0: State, ghost b: seq<State>) returns (tout: seq<Word>)
    requires ctx.Valid() && ctx.RoundKeys() == keys && ctx.ks as object != out && |last| == 4 && i < |b|
    requires 16 * |b| <= out.Length && Unread(msg[..], b, i)
    requires Chained(keys, iv0, b, Blocks(out[..], |b|), i) && StateOf(last) == Before(iv0, Blocks(out[..], |b|), i)
    modifies out
    ensures |tout| == 4 && ctx.ks[..] == old(ctx.ks[..]) && Unread(msg[..], b, i + 1)
    ensures Chained(keys, iv0, b, Blocks(out[..], |b|), i + 1)
    ensures StateOf(tout) == Before(iv0, Blocks(out[..], |b|), i + 1)
  {
    ghost var m, o := msg[..], out[..];
    ChainedStep(keys, iv0, b, Blocks(o, |b|), i);
    UnreadNow(m, b, i);
    tout := EncryptOne(ctx, msg, out, 16 * i, last);
    OtherBlocks(out[..], o, i, |b|);
    UnreadNext(m, msg[..], b, i);
  }

  /** One block of AES_cbc_encrypt. */
  method EncryptOne(ctx: AesCtx, msg: array<Octet>, out: array<Octet>, p: nat, last: seq<Word>) returns (tout: seq<Word>)
    requires ctx.Valid() && |last| == 4 && p + 16 <= msg.Length && p + 16 <= out.Length && ctx.ks as object != out
    modifies out
    ensures |tout| == 4 && SameElsewhere(out[..], old(out[..]), p)
    ensures StateOf(tout) == StateAt(out[..], p) == Encrypt(ctx.RoundKeys(), AddKey(StateAt(old(msg[..]), p), StateOf(last)))
    ensures (msg == out || msg[..] == old(msg[..])) && ctx.ks[..] == old(ctx.ks[..])
  {
    var msg32 := LoadBlock(msg, p);
    var tin := XorWords(msg32, last);
    assert ctx.ks[..] == old(ctx.ks[..]);
    ctx.EncryptBlock(tin);
    assert ctx.ks[..] == old(ctx.ks[..]);
    tout := tin[..];
    StoreBlock(out, p, tout);
    assert ctx.ks[..] == old(ctx.ks[..]);
  }

  /** What AES_cbc_decrypt has written: unchained blocks before i. */
  ghost predicate Unchained(keys: seq<State>, iv: State, b: seq<State>, r: seq<State>, i: nat)
    requires |keys| >= 2
  {
    && |r| == |b| && i <= |b|
    && forall k :: 0 <= k < i ==> r[k] == AddKey(EqDecrypt(keys, b[k]), Before(iv, b, k))
  }

  lemma UnchainedStep(keys: seq<State>, iv: State, b: seq<State>, r: seq<State>, i: nat)
    requires |keys| >= 2 && Unchained(keys, iv, b, r, i) && i < |b|
    ensures Unchained(keys, iv, b, r[i := AddKey(EqDecrypt(keys, b[i]), Before(iv, b, i))], i + 1)
    ensures Before(iv, b, i + 1) == b[i]
  {
  }

  lemma UnchainedEnd(keys: seq<State>, iv: State, b: seq<State>, r: seq<State>)
    requires |keys| >= 2 && Unchained(keys, iv, b, r, |b|)
    ensures r == CbcDecrypt(s => EqDecrypt(keys, s), iv, b)
  {
    CbcDecryptIs(s => EqDecrypt(keys, s), iv, b, r);
  }

  /** AES_cbc_decrypt */
  method CbcDecryptWords(ctx: AesCtx, msg: array<Octet>, out: array<Octet>, length: int)
    requires ctx.Valid() && 16 * BlockCount(length) <= msg.Length && 16 * BlockCount(length) <= out.Length
    requires out != ctx.iv && msg != ctx.iv && ctx.ks as object != out && ctx.ks as object != ctx.iv
    modifies out, ctx.iv
    ensures var n := BlockCount(length);
            var keys := old(ctx.RoundKeys());
            && Blocks(out[..], n) == CbcDecrypt(s => EqDecrypt(keys, s), StateAt(old(ctx.iv[..]), 0),
                Blocks(old(msg[..]), n))
            && StateAt(ctx.iv[..], 0) == Before(StateAt(old(ctx.iv[..]), 0), Blocks(old(msg[..]), n), n)
  {
    ghost var keys, iv0, b := ctx.RoundKeys(), StateAt(ctx.iv[..], 0), Blocks(msg[..], BlockCount(length));
    var xor := LoadBlock(ctx.iv, 0);
    xor := CbcDecryptLoop(ctx, msg, out, length, xor, keys, iv0, b);
    UnchainedEnd(keys, iv0, b, Blocks(out[..], |b|));
    ghost var o := out[..];
    StoreBlock(ctx.iv, 0, xor);
    assert out[..] == o;
  }

  /** The loop of AES_cbc_decrypt. */
  method CbcDecryptLoop(ctx: AesCtx, msg: array<Octet>, out: array<Octet>, length: int, first: seq<Word>,
                        ghost keys: seq<State>, ghost iv0: State, ghost b: seq<State>) returns (xor: seq<Word>)
    requires ctx.Valid() && ctx.RoundKeys() == keys && ctx.ks as object != out && |first| == 4
    requires |b| == BlockCount(length) && 16 * |b| <= out.Length && Unread(msg[..], b, 0) && StateOf(first) == iv0
    modifies out
    ensures |xor| == 4 && Unchained(keys, iv0, b, Blocks(out[..], |b|), |b|) && StateOf(xor) == Before(iv0, b, |b|)
  {
    ghost var ks := ctx.ks[..];
    xor := first;
    var i, left := 0, length - 16;
    while left >= 0
      invariant left == length - 16 * i - 16 && 0 <= i <= |b|
      invariant |xor| == 4 && Unread(msg[..], b, i)
      invariant Unchained(keys, iv0, b, Blocks(out[..], |b|), i) && StateOf(xor) == Before(iv0, b, i)
      invariant ctx.ks[..] == ks
    {
      xor := DecryptTurn(ctx, msg, out, i, xor, keys, iv0, b);
      i, left := i + 1, left - 16;
    }
  }

  /** One turn of the loop. */
  method DecryptTurn(ctx: AesCtx, msg: array<Octet>, out: array<Octet>, i: nat, xor: seq<Word>,
                     ghost keys: seq<State>, ghost iv0: State, ghost b: seq<State>) returns (next: seq<Word>)
    requires ctx.Valid() && ctx.RoundKeys() == keys && ctx.ks as object != out && |xor| == 4 && i < |b|
    requires 16 * |b| <= out.Length && Unread(msg[..], b, i)
    requires Unchained(keys, iv0, b, Blocks(out[..], |b|), i) && StateOf(xor) == Before(iv0, b, i)
    modifies out
    ensures |next| == 4 && ctx.ks[..] == old(ctx.ks[..]) && Unread(msg[..], b, i + 1)
    ensures Unchained(keys, iv0, b, Blocks(out[..], |b|), i + 1) && StateOf(next) == Before(iv0, b, i + 1)
  {
    ghost var m, o := msg[..], out[..];
    UnreadNow(m, b, i);
    UnchainedStep(keys, iv0, b, Blocks(o, |b|), i);
    next := DecryptOne(ctx, msg, out, 16 * i, xor);
    OtherBlocks(out[..], o, i, |b|);
    UnreadNext(m, msg[..], b, i);
  }

  /** One block of AES_cbc_decrypt: the ciphertext block is kept for the next one. */
  method DecryptOne(ctx: AesCtx, msg: array<Octet>, out: array<Octet>, p: nat, xor: seq<Word>) returns (next: seq<Word>)
    requires ctx.Valid() && |xor| == 4 && p + 16 <= msg.Length && p + 16 <= out.Length && ctx.ks as object != out
    modifies out
    ensures |next| == 4 && SameElsewhere(out[..], old(out[..]), p)
    ensures StateOf(next) == StateAt(old(msg[..]), p)
    ensures StateAt(out[..], p) == AddKey(EqDecrypt(ctx.RoundKeys(), StateAt(old(msg[..]), p)), StateOf(xor))
    ensures (msg == out || msg[..] == old(msg[..])) && ctx.ks[..] == old(ctx.ks[..])
  {
    next := LoadBlock(msg, p);
    var data := new Word[4](i requires 0 <= i < 4 => next[i]);
    assert data[..] == next;
    assert ctx.ks[..] == old(ctx.ks[..]);
    ctx.DecryptBlock(data);
    assert ctx.ks[..] == old(ctx.ks[..]);
    var tout := XorWords(data[..], xor);
    StoreBlock(out, p, tout[..]);
    assert ctx.ks[..] == old(ctx.ks[..]);
  }

  /** Decrypting with a converted key what was encrypted with the key itself, from the same
      IV, gives the message back, for any number of blocks. */
  lemma WordsRoundTrip(keys: seq<State>, iv: State, blocks: seq<State>)
    requires |keys| >= 2
    ensures CbcDecrypt(s => EqDecrypt(Converted(keys), s), iv, CbcEncrypt(keys, iv, blocks)) == blocks
  {
    BothUndo(keys);
    CbcRoundTrip(s => EqDecrypt(Converted(keys), s), keys, iv, blocks);
  }
}
