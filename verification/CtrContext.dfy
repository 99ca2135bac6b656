/** The stream cipher of aes_ctr.c: the counter, the last keystream block, and how much of
    it is left. */
module CtrContext {
  import Arith
  import opened Octets
  import opened CtrStream

  /** What remains to be incremented in ctr128_inc's loop: from index n down, with the
      carry c. */
  function Propagate(c: seq<Octet>, carry: bool): seq<Octet> {
    if carry then Increment(c) else c
  }

  /** One byte of the addition: the new byte and the carry out. */
  function AddOctet(b: Octet, c: bv32): (r: (Octet, bv32))
    requires c == 0 || c == 1
    ensures r.1 == if c == 1 && b == 255 then 1 else 0
    ensures r.0 == if c == 0 then b else b + 1
  {
    var sum := c + (b as bv32);
    ((sum & 0xff) as bv8, sum >> 8)
  }

  lemma PropagateStep(c: seq<Octet>, carry: bool, rest: seq<Octet>)
    requires |c| > 0
    ensures var m := |c| - 1;
            var r := AddOctet(c[m], if carry then 1 else 0);
            Propagate(c, carry) + rest == Propagate(c[..m], r.1 == 1) + ([r.0] + rest)
  {
    var m := |c| - 1;
    var r := AddOctet(c[m], if carry then 1 else 0);
    assert Propagate(c, carry) == Propagate(c[..m], r.1 == 1) + [r.0];
  }

  /** ctr128_inc: bytes added up in a 32-bit accumulator that carries the rest. */
  method Ctr128Inc(counter: array<Octet>)
    requires counter.Length == 16
    modifies counter
    ensures counter[..] == Increment(old(counter[..]))
  {
    var n, c: bv32 := 16, 1;
    assert counter[..16] == counter[..];
    while n > 0
      invariant 0 <= n <= 16 && (c == 0 || c == 1)
      invariant Propagate(counter[..n], c == 1) + counter[n..] == Increment(old(counter[..]))
    {
      n := n - 1;
      ghost var before, rest := counter[..n + 1], counter[n + 1..];
      PropagateStep(before, c == 1, rest);
      var r := AddOctet(counter[n], c);
      counter[n], c := r.0, r.1;
      assert before[..n] == counter[..n] && counter[n..] == [counter[n]] + rest;
    }
    assert counter[0..] == counter[..];
  }

  /** The state between calls, when `used` keystream bytes have been used: the counter of
      the next block, and the current block with its last `available` bytes left. */
  ghost predicate IsAligned(enc: Cipher, iv: Block, used: nat, counter: seq<Octet>, state: seq<Octet>, available: nat) {
    && |state| == 16 && available <= 16 && (used + available) % 16 == 0
    && counter == Counter(iv, (used + available) / 16)
    && (available > 0 ==> state == enc(Counter(iv, (used + available) / 16 - 1)))
  }

  /** The same, folded: lemma AlignedIs opens it. */
  ghost predicate Aligned(enc: Cipher, iv: Block, used: nat, counter: seq<Octet>, state: seq<Octet>, available: nat,
      fold: nat := 3)
  {
    if fold == 0 then IsAligned(enc, iv, used, counter, state, available)
    else Aligned(enc, iv, used, counter, state, available, fold - 1)
  }

  lemma {:induction false} AlignedIs(enc: Cipher, iv: Block, used: nat, counter: seq<Octet>, state: seq<Octet>,
      available: nat, fold: nat := 3)
    ensures Aligned(enc, iv, used, counter, state, available, fold) <==> IsAligned(enc, iv, used, counter, state, available)
  {
    if fold > 0 {
      AlignedIs(enc, iv, used, counter, state, available, fold - 1);
    }
  }

  /** The bytes left over are the next keystream bytes. */
  lemma LeftoverKey(enc: Cipher, iv: Block, used: nat, counter: seq<Octet>, state: seq<Octet>, available: nat, i: nat)
    requires Aligned(enc, iv, used, counter, state, available) && i < available <= 16 == |state|
    ensures state[16 - available + i] == Key(enc, iv, used + i)
  {
    AlignedIs(enc, iv, used, counter, state, available);
    var n := (used + available) / 16;
    Arith.QuotientUnique(used + i, 16, n - 1, 16 - available + i);
  }

  lemma AlignedNext(enc: Cipher, iv: Block, used: nat, counter: seq<Octet>, state: seq<Octet>, available: nat, n: nat)
    requires Aligned(enc, iv, used, counter, state, available) && n <= available
    ensures Aligned(enc, iv, used + n, counter, state, available - n)
  {
    AlignedIs(enc, iv, used, counter, state, available);
    AlignedIs(enc, iv, used + n, counter, state, available - n);
  }

  lemma AlignedRefill(enc: Cipher, iv: Block, used: nat, counter: Block, state: seq<Octet>)
    requires Aligned(enc, iv, used, counter, state, 0)
    ensures Aligned(enc, iv, used, Increment(counter), enc(counter), 16)
  {
    AlignedIs(enc, iv, used, counter, state, 0);
    AlignedIs(enc, iv, used, Increment(counter), enc(counter), 16);
    assert (used + 16) / 16 == used / 16 + 1;
    assert Counter(iv, used / 16 + 1) == Increment(Counter(iv, used / 16));
  }

  /** Before the first byte. */
  lemma AlignedStart(enc: Cipher, iv: Block, state: Block)
    ensures Aligned(enc, iv, 0, iv, state, 0)
  {
    AlignedIs(enc, iv, 0, iv, state, 0);
    assert Counter(iv, 0) == iv;
  }

  /** AES_CTR_CTX */
  class AesCtr {
    const enc: Cipher
    const counter: array<Octet>
    var state: Block
    var available: nat
    ghost const iv: Block
    ghost var used: nat

    ghost predicate Valid()
      reads this, counter
    {
      counter.Length == 16 && available <= 16 && Aligned(enc, iv, used, counter[..], state, available)
    }

    /** AES_ctr_set_key */
    constructor (cipher: Cipher, nonce: Block)
      ensures Valid() && fresh(counter) && enc == cipher && iv == nonce && used == 0
    {
      enc, iv, used := cipher, nonce, 0;
      state, available := seq(16, _ => 0), 0;
      counter := new Octet[16](i requires 0 <= i < 16 => nonce[i]);
      new;
      assert counter[..] == nonce;
      AlignedStart(enc, nonce, state);
    }

    /** A new keystream block. */
    method Refill()
      requires Valid() && available == 0
      modifies this, counter
      ensures Valid() && available == 16 && used == old(used)
    {
      AlignedRefill(enc, iv, used, counter[..], state);
      state := enc(counter[..]);
      available := 16;
      Ctr128Inc(counter);
    }

    /** Bytes up to `done` of the message m have been written over the buffer o. */
    ghost predicate Written(msg: array<Octet>, out: array<Octet>, m: seq<Octet>, o: seq<Octet>, base: nat, done: nat)
      reads msg, out
    {
      && done <= |m| == msg.Length && done <= |o|
      && out[..] == Patched(enc, iv, base, o, m, 0, done)
      && (msg != out ==> msg[..] == m) && (msg == out ==> m == o)
    }

    /** The inner loop of AES_ctr_encrypt: as many bytes as the block and the message have. */
    method XorSome(msg: array<Octet>, out: array<Octet>, start: nat, length: nat,
                   ghost m: seq<Octet>, ghost o: seq<Octet>, ghost base: nat) returns (i: nat)
      requires Valid() && available > 0 && start < length <= msg.Length && length <= out.Length
      requires out != counter && Written(msg, out, m, o, base, start) && used == base + start
      modifies out
      ensures Valid() && 1 <= i <= available && start + i <= length && Written(msg, out, m, o, base, start + i)
    {
      i := 0;
      while i < available && start + i < length
        invariant 0 <= i <= available && start + i <= length && Written(msg, out, m, o, base, start + i)
      {
        LeftoverKey(enc, iv, used, counter[..], state, available, i);
        XorByte(msg, out, start + i, state[16 - available + i], m, o, base);
        i := i + 1;
      }
    }

    /** One byte of the output. */
    method XorByte(msg: array<Octet>, out: array<Octet>, k: nat, key: Octet,
                   ghost m: seq<Octet>, ghost o: seq<Octet>, ghost base: nat)
      requires k < msg.Length && k < out.Length && Written(msg, out, m, o, base, k)
      requires key == Key(enc, iv, base + k)
      modifies out
      ensures Written(msg, out, m, o, base, k + 1)
    {
      PatchByte(enc, iv, base, o, m, 0, k);
      assert out[..][k] == out[k];
      ghost var before := out[..];
      out[k] := msg[k] ^ key;
      assert out[..] == before[k := out[k]];
    }

    /** AES_ctr_encrypt. The output may be the message itself. */
    method Encrypt(msg: array<Octet>, out: array<Octet>, length: nat)
      requires Valid() && length <= msg.Length && length <= out.Length
      requires out != counter && msg != counter
      modifies this, counter, out
      ensures Valid() && used == old(used) + length
      ensures out[..] == Crypt(enc, iv, old(used), old(msg[..length])) + old(out[length..])
    {
      var msgidx := 0;
      ghost var m, o := msg[..], out[..];
      PatchNone(enc, iv, used, o, m, 0);
      while msgidx < length
        invariant Valid() && 0 <= msgidx <= length && used == old(used) + msgidx
        invariant Written(msg, out, m, o, old(used), msgidx)
      {
        if available == 0 {
          Refill();
        }
        var i := XorSome(msg, out, msgidx, length, m, o, old(used));
        AlignedNext(enc, iv, used, counter[..], state, available, i);
        available, used, msgidx := available - i, used + i, msgidx + i;
      }
      PatchedIs(enc, iv, old(used), o, m, 0, length);
      assert m[..length] == old(msg[..length]) && o[length..] == old(out[length..]) && m[0..length] == m[..length];
    }
  }
}
