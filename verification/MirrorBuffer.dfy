/** Video stream decryption: AES_CTR_xcrypt_buffer of aes.c, which always starts a new
    keystream block, and mirror_buffer.c, which carries the rest of a block over to the
    next packet. */
module MirrorBuffer {
  import opened Octets
  import opened CtrStream
  import opened CtrContext

  /** A last byte of 255 carries into the bytes before it. */
  lemma CarryByte(front: seq<Octet>, rest: seq<Octet>)
    ensures Increment(front + [255]) + rest == Increment(front) + ([0] + rest)
  {
    var c: seq<Octet> := front + [255];
    assert c[..|c| - 1] == front;
    assert (Increment(front) + [0]) + rest == Increment(front) + ([0] + rest);
  }

  /** Any other last byte takes the one. */
  lemma CountByte(front: seq<Octet>, x: Octet)
    requires x != 255
    ensures Increment(front + [x]) == front + [x + 1]
  {
    var c := front + [x];
    assert c[..|c| - 1] == front;
  }

  /** The counter loop of AES_CTR_xcrypt_buffer. */
  method IncrementIv(counter: array<Octet>)
    requires counter.Length == 16
    modifies counter
    ensures counter[..] == Increment(old(counter[..]))
  {
    ghost var before := counter[..];
    ghost var rest: seq<Octet> := [];
    var bi := 15;
    assert before[..16] == before && before + rest == before;
    while bi >= 0
      invariant -1 <= bi <= 15 && |before| == 16 && |rest| == 15 - bi
      invariant counter[..] == before[..bi + 1] + rest
      invariant Increment(before[..bi + 1]) + rest == Increment(before)
    {
      assert before[..bi + 1] == before[..bi] + [before[bi]] && counter[bi] == before[bi];
      if counter[bi] == 255 {
        CarryByte(before[..bi], rest);
        counter[bi] := 0;
        rest := [0] + rest;
        bi := bi - 1;
      } else {
        CountByte(before[..bi], counter[bi]);
        counter[bi] := counter[bi] + 1;
        return;
      }
    }
    assert before[..0] == [] && Increment([]) + rest == rest;
  }

  /** AES_CTR_xcrypt_buffer on `length` bytes of buf from `off` on: in place, from a new
      keystream block. */
  method XcryptBuffer(enc: Cipher, iv: array<Octet>, buf: array<Octet>, off: nat, length: nat)
    requires iv.Length == 16 && buf != iv && off + length <= buf.Length
    modifies iv, buf
    ensures buf[..] == Patched(enc, old(iv[..]), 0, old(buf[..]), old(buf[..]), off, off + length)
    ensures iv[..] == Counter(old(iv[..]), (length + 15) / 16)
  {
    ghost var c, o := iv[..], buf[..];
    var buffer: Block := seq(16, _ => 0);
    var i, bi := 0, 16;
    PatchNone(enc, c, 0, o, o, off);
    AlignedStart(enc, c, buffer);
    while i < length
      invariant 0 <= i <= length && 1 <= bi <= 16 && (i == 0 ==> bi == 16)
      invariant Aligned(enc, c, i, iv[..], buffer, 16 - bi)
      invariant buf[..] == Patched(enc, c, 0, o, o, off, off + i)
    {
      if bi == 16 {
        buffer := NextBlock(enc, iv, c, i, buffer);
        bi := 0;
      }
      XcryptByte(enc, buf, off, i, buffer, bi, iv[..], c, o);
      i, bi := i + 1, bi + 1;
    }
    CountedBlocks(enc, c, length, iv[..], buffer, 16 - bi);
  }

  /** The counter after `length` bytes is past every block that was begun. */
  lemma CountedBlocks(enc: Cipher, iv: Block, length: nat, counter: seq<Octet>, state: seq<Octet>, available: nat)
    requires Aligned(enc, iv, length, counter, state, available) && available < 16
    ensures counter == Counter(iv, (length + 15) / 16)
  {
    AlignedIs(enc, iv, length, counter, state, available);
    assert (length + available) / 16 == (length + 15) / 16;
  }

  /** A new keystream block. */
  method NextBlock(enc: Cipher, iv: array<Octet>, ghost c: Block, ghost used: nat, ghost last: Block) returns (buffer: Block)
    requires iv.Length == 16 && Aligned(enc, c, used, iv[..], last, 0)
    modifies iv
    ensures Aligned(enc, c, used, iv[..], buffer, 16)
  {
    AlignedRefill(enc, c, used, iv[..], last);
    buffer := enc(iv[..]);
    IncrementIv(iv);
  }

  /** One byte, in place. */
  method XcryptByte(enc: Cipher, buf: array<Octet>, off: nat, i: nat, buffer: Block, bi: nat,
                    ghost ivs: seq<Octet>, ghost c: Block, ghost o: seq<Octet>)
    requires off + i < buf.Length == |o| && bi < 16 && Aligned(enc, c, i, ivs, buffer, 16 - bi)
    requires buf[..] == Patched(enc, c, 0, o, o, off, off + i)
    modifies buf
    ensures buf[..] == Patched(enc, c, 0, o, o, off, off + i + 1)
    ensures Aligned(enc, c, i + 1, ivs, buffer, 15 - bi)
  {
    LeftoverKey(enc, c, i, ivs, buffer, 16 - bi, 0);
    AlignedNext(enc, c, i, ivs, buffer, 16 - bi, 1);
    PatchByte(enc, c, 0, o, o, off, off + i);
    ghost var before := buf[..];
    assert before[off + i] == buf[off + i];
    buf[off + i] := buf[off + i] ^ buffer[bi];
    assert buf[..] == before[off + i := buf[off + i]];
  }

  /** C's truncating division of a length difference by the block size. */
  function BlocksIn(d: int): int { if d < 0 then -(-d / 16) else d / 16 }

  function BlocksRest(d: int): int { d - 16 * BlocksIn(d) }

  /** What is kept for the next packet: the last `pending` bytes of og are the next
      keystream bytes. */
  ghost predicate LeftoverParts(enc: Cipher, c: Block, used: nat, iv: seq<Octet>, og: seq<Octet>, pending: nat, block: nat) {
    && |og| == 16 && pending < 16 && used + pending == 16 * block && iv == Counter(c, block)
    && forall k :: 16 - pending <= k < 16 ==> og[k] == Key(enc, c, used + pending + k - 16)
  }

  /** Lemma LeftoverIs opens the definition. */
  ghost predicate Leftover(enc: Cipher, c: Block, used: nat, iv: seq<Octet>, og: seq<Octet>, pending: nat, block: nat,
                           fold: nat := 3): (ok: bool)
    ensures ok ==> pending < 16 && used + pending == 16 * block
  {
    if fold > 0 then Leftover(enc, c, used, iv, og, pending, block, fold - 1)
    else LeftoverParts(enc, c, used, iv, og, pending, block)
  }

  lemma {:induction false} LeftoverIs(enc: Cipher, c: Block, used: nat, iv: seq<Octet>, og: seq<Octet>, pending: nat,
      block: nat, fold: nat := 3)
    ensures Leftover(enc, c, used, iv, og, pending, block, fold) == LeftoverParts(enc, c, used, iv, og, pending, block)
  {
    if fold > 0 {
      LeftoverIs(enc, c, used, iv, og, pending, block, fold - 1);
    }
  }

  /** mirror_buffer_s */
  class MirrorBuffer {
    const enc: Cipher
    const iv: array<Octet>
    const og: array<Octet>
    var nextDecryptCount: nat
    ghost const initial: Block
    /** The keystream bytes used so far, and the number of the next keystream block. */
    ghost var used: nat
    ghost var block: nat

    ghost predicate Valid()
      reads this, iv, og
    {
      iv.Length == 16 && iv != og && Leftover(enc, initial, used, iv[..], og[..], nextDecryptCount, block)
    }

    /** mirror_buffer_init and mirror_buffer_init_aes, for the derived key and IV. */
    constructor (cipher: Cipher, nonce: Block)
      ensures Valid() && fresh(iv) && fresh(og) && enc == cipher && initial == nonce && used == 0
    {
      enc, initial, used, block, nextDecryptCount := cipher, nonce, 0, 0, 0;
      iv := new Octet[16](i requires 0 <= i < 16 => nonce[i]);
      og := new Octet[16](_ => 0);
      new;
      assert iv[..] == nonce;
      LeftoverIs(enc, nonce, 0, iv[..], og[..], 0, 0);
    }

    /** The first loop of mirror_buffer_decrypt: the bytes pending from the last packet. */
    method UseLeftover(input: array<Octet>, output: array<Octet>)
      requires Valid() && input != output && output != og && output != iv && input.Length == output.Length
      requires nextDecryptCount <= input.Length
      modifies output
      ensures Valid()
      ensures output[..] == Patched(enc, initial, used, old(output[..]), input[..], 0, nextDecryptCount)
    {
      ghost var m, o := input[..], output[..];
      LeftoverIs(enc, initial, used, iv[..], og[..], nextDecryptCount, block);
      PatchNone(enc, initial, used, o, m, 0);
      var i := 0;
      while i < nextDecryptCount
        invariant 0 <= i <= nextDecryptCount
        invariant output[..] == Patched(enc, initial, used, o, m, 0, i)
      {
        PatchByte(enc, initial, used, o, m, 0, i);
        ghost var before := output[..];
        output[i] := input[i] ^ og[16 - nextDecryptCount + i];
        assert output[..] == before[i := output[i]];
        i := i + 1;
      }
    }

    /** memcpy of n bytes at the same place. */
    method CopyBytes(input: array<Octet>, output: array<Octet>, from: nat, n: nat)
      requires input != output && from + n <= input.Length == output.Length
      modifies output
      ensures output[..] == old(output[..from]) + input[from..from + n] + old(output[from + n..])
    {
      forall k | from <= k < from + n {
        output[k] := input[k];
      }
    }

    /** The whole blocks of a packet: decrypted in place, then copied. */
    method WholeBlocks(input: array<Octet>, output: array<Octet>, from: nat, k: nat, ghost m: seq<Octet>,
        ghost o: seq<Octet>)
      requires iv.Length == 16 && input != output && input != iv && output != iv
      requires from + 16 * k <= input.Length == output.Length == |o| && input[..] == m
      requires used + from == 16 * block && iv[..] == Counter(initial, block)
      requires output[..] == Patched(enc, initial, used, o, m, 0, from)
      modifies iv, input, output
      ensures iv[..] == Counter(initial, block + k)
      ensures output[..] == Patched(enc, initial, used, o, m, 0, from + 16 * k)
      ensures input[..] == Patched(enc, initial, used + from, m, m, from, from + 16 * k)
      ensures input[from + 16 * k..] == m[from + 16 * k..]
    {
      var n := 16 * k;
      ghost var c := iv[..];
      XcryptBuffer(enc, iv, input, from, n);
      BlockPatched(enc, initial, block, m, from, k);
      PatchedIs(enc, initial, used + from, m, m, from, from + n);
      PatchMore(enc, initial, used, o, m, from, from + n, input[from..from + n]);
      CopyBytes(input, output, from, n);
    }

    /** The rest of a packet, shorter than a block: decrypted at the front of og, whose end
        is then the keystream that is left. */
    method PartialBlock(input: array<Octet>, output: array<Octet>, from: nat, n: nat, ghost b: nat,
        ghost m: seq<Octet>, ghost o: seq<Octet>)
      requires iv.Length == og.Length == 16 && iv != og && input != output && output != iv && output != og
        && input != og && input != iv
      requires 0 < n < 16 && from + n <= input.Length == output.Length == |o| == |m| && input[from..] == m[from..]
      requires used + from == 16 * b && iv[..] == Counter(initial, b)
      requires output[..] == Patched(enc, initial, used, o, m, 0, from)
      modifies iv, og, output
      ensures Leftover(enc, initial, used + from + n, iv[..], og[..], 16 - n, b + 1)
      ensures output[..] == Patched(enc, initial, used, o, m, 0, from + n)
    {
      LoadBlock(input, from, n, b);
      assert input[from..from + n] == input[from..][..n] == m[from..from + n];
      LeftoverIs(enc, initial, used + from + n, iv[..], og[..], 16 - n, b + 1);
      PatchMore(enc, initial, used, o, m, from, from + n, og[..n]);
      CopyFront(output, from, n);
    }

    /** og becomes the rest of the packet and zeros. */
    method PadBlock(input: array<Octet>, from: nat, n: nat)
      requires og.Length == 16 && input != og && n < 16 && from + n <= input.Length
      modifies og
      ensures og[..n] == input[from..from + n] && forall k :: n <= k < 16 ==> og[k] == 0
    {
      forall k | 0 <= k < 16 {
        og[k] := if k < n then input[from + k] else 0;
      }
    }

    /** og becomes the padded rest of the packet, decrypted. */
    method LoadBlock(input: array<Octet>, from: nat, n: nat, ghost b: nat)
      requires iv.Length == og.Length == 16 && iv != og && input != og && input != iv
      requires 0 < n < 16 && from + n <= input.Length && iv[..] == Counter(initial, b)
      modifies iv, og
      ensures iv[..] == Counter(initial, b + 1)
      ensures og[..n] == Crypt(enc, initial, 16 * b, input[from..from + n])
      ensures forall k :: n <= k < 16 ==> og[k] == Key(enc, initial, 16 * b + k)
    {
      ghost var c, data := iv[..], input[from..from + n];
      ghost var pos: nat := 16 * b;
      PadBlock(input, from, n);
      assert iv[..] == c;
      ghost var padded := og[..];
      assert padded[..n] == data;
      XcryptBuffer(enc, iv, og, 0, 16);
      OneBlock(enc, initial, b, padded);
      PaddedRest(enc, initial, pos, padded, n, og[..]);
    }

    /** The last loop of mirror_buffer_decrypt. */
    method CopyFront(output: array<Octet>, from: nat, n: nat)
      requires og.Length == 16 && output != og && n <= 16 && from + n <= output.Length
      modifies output
      ensures output[..] == old(output[..from]) + og[..n] + old(output[from + n..])
    {
      ghost var o := output[..];
      var j := 0;
      while j < n
        invariant 0 <= j <= n
        invariant forall k :: 0 <= k < output.Length ==>
                    output[k] == if from <= k < from + j then og[k - from] else o[k]
      {
        output[from + j] := og[j];
        j := j + 1;
      }
    }

    /** mirror_buffer_decrypt. The packet has inputLen bytes; the buffers have room for the
        pending bytes even when the packet is shorter than those. */
    method Decrypt(input: array<Octet>, output: array<Octet>, inputLen: nat)
      requires Valid() && input.Length == output.Length
      requires inputLen <= input.Length && nextDecryptCount <= input.Length
      requires input != output && input != iv && input != og && output != iv && output != og
      modifies this, iv, og, input, output
      ensures Valid() && used == NextPosition(old(used), inputLen)
      ensures output[..] == Patched(enc, initial, old(used), old(output[..]), old(input[..]), 0, used - old(used))
    {
      ghost var m, o := input[..], output[..];
      LeftoverIs(enc, initial, used, iv[..], og[..], nextDecryptCount, block);
      UseLeftover(input, output);
      Lengths(used, nextDecryptCount, inputLen);
      if inputLen < nextDecryptCount {
        LeftoverIs(enc, initial, used + nextDecryptCount, iv[..], og[..], 0, block);
        used := used + nextDecryptCount;
        nextDecryptCount := 0;
      } else {
        DecryptRest(input, output, inputLen, m, o);
      }
    }

    /** The packet past the pending bytes. */
    method DecryptRest(input: array<Octet>, output: array<Octet>, inputLen: nat, ghost m: seq<Octet>, ghost o: seq<Octet>)
      requires iv.Length == og.Length == 16 && iv != og
      requires used + nextDecryptCount == 16 * block && iv[..] == Counter(initial, block)
      requires nextDecryptCount <= inputLen <= input.Length == output.Length == |o|
      requires input != output && input != iv && input != og && output != iv && output != og
      requires input[..] == m && output[..] == Patched(enc, initial, used, o, m, 0, nextDecryptCount)
      modifies this, iv, og, input, output
      ensures Valid() && used == old(used) + inputLen
      ensures output[..] == Patched(enc, initial, old(used), o, m, 0, inputLen)
    {
      var pending := nextDecryptCount;
      var k := (inputLen - pending) / 16;
      var restlen := (inputLen - pending) % 16;
      var reststart := inputLen - restlen;
      WholeBlocks(input, output, pending, k, m, o);
      nextDecryptCount := 0;
      block := block + k;
      FinishRest(input, output, reststart, restlen, m, o);
    }

    /** What is left of the packet after its whole blocks. */
    method FinishRest(input: array<Octet>, output: array<Octet>, from: nat, n: nat, ghost m: seq<Octet>, ghost o: seq<Octet>)
      requires iv.Length == og.Length == 16 && iv != og && nextDecryptCount == 0
      requires input != output && output != iv && output != og && input != og && input != iv
      requires n < 16 && from + n <= input.Length == output.Length == |o| == |m| && input[from..] == m[from..]
      requires used + from == 16 * block && iv[..] == Counter(initial, block)
      requires output[..] == Patched(enc, initial, used, o, m, 0, from)
      modifies this, iv, og, output
      ensures Valid() && used == old(used) + from + n
      ensures output[..] == Patched(enc, initial, old(used), o, m, 0, from + n)
    {
      if n > 0 {
        PartialBlock(input, output, from, n, block, m, o);
        nextDecryptCount := 16 - n;
        block := block + 1;
      }
      used := used + from + n;
      if n == 0 {
        LeftoverIs(enc, initial, used, iv[..], og[..], 0, block);
      }
    }
  }

  /** The length arithmetic of a packet. With fewer bytes than are pending, C's truncating
      division and remainder give no block and no rest. */
  lemma Lengths(used: nat, pending: nat, inputLen: nat)
    requires pending < 16 && (used + pending) % 16 == 0
    ensures pending == Pending(used)
    ensures inputLen < pending ==> BlocksIn(inputLen - pending) == 0 && BlocksRest(inputLen - pending) < 0
  {
  }

  /** Whole blocks decrypted in place, as part of the stream. */
  lemma BlockPatched(enc: Cipher, c: Block, b: nat, m: seq<Octet>, from: nat, k: nat)
    requires from + 16 * k <= |m|
    ensures Patched(enc, Counter(c, b), 0, m, m, from, from + 16 * k) == Patched(enc, c, 16 * b, m, m, from, from + 16 * k)
    ensures Counter(Counter(c, b), (16 * k + 15) / 16) == Counter(c, b + k)
  {
    var n := 16 * k;
    PatchedIs(enc, Counter(c, b), 0, m, m, from, from + n);
    PatchedIs(enc, c, 16 * b, m, m, from, from + n);
    CryptFromBlock(enc, c, b, m[from..from + n]);
    CounterAdd(c, b, k);
    assert (n + 15) / 16 == k;
  }

  lemma OneBlock(enc: Cipher, c: Block, b: nat, padded: Block)
    ensures Patched(enc, Counter(c, b), 0, padded, padded, 0, 16) == Crypt(enc, c, 16 * b, padded)
    ensures Counter(Counter(c, b), (16 + 15) / 16) == Counter(c, b + 1)
  {
    var from, k := 0, 1;
    BlockPatched(enc, c, b, padded, from, k);
    PatchedIs(enc, Counter(c, b), 0, padded, padded, 0, 16);
    assert padded[0..16] == padded;
    CryptFromBlock(enc, c, b, padded);
    CounterAdd(c, b, 1);
  }

  /** A block of padded bytes, decrypted: the front is the data, the rest keystream. */
  lemma PaddedRest(enc: Cipher, c: Block, pos: nat, padded: seq<Octet>, n: nat, og: seq<Octet>)
    requires |padded| == 16 && 0 < n < 16 && og == Crypt(enc, c, pos, padded)
    requires forall k :: n <= k < 16 ==> padded[k] == 0
    ensures og[..n] == Crypt(enc, c, pos, padded[..n])
    ensures forall k :: n <= k < 16 ==> og[k] == Key(enc, c, pos + k)
  {
    assert padded == padded[..n] + padded[n..];
    CryptAt(enc, c, pos, padded);
    CryptSplit(enc, c, pos, padded[..n], padded[n..]);
  }
}
