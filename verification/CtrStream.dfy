/** Counter mode (section 6.5 of NIST SP 800-38A) as one long keystream, for any block
    cipher. */
module CtrStream {
  import Arith
  import opened Octets

  type Cipher = Block -> Block

  /** A big-endian counter plus one, wrapping. */
  function Increment(c: seq<Octet>): (r: seq<Octet>)
    ensures |r| == |c|
  {
    if c == [] then []
    else if c[|c| - 1] == 255 then Increment(c[..|c| - 1]) + [0]
    else c[..|c| - 1] + [c[|c| - 1] + 1]
  }

  /** The number a counter stands for. */
  function Number(c: seq<Octet>): nat {
    if c == [] then 0 else 256 * Number(c[..|c| - 1]) + c[|c| - 1] as int
  }

  function Radix(n: nat): (p: nat)
    ensures p >= 1
  {
    if n == 0 then 1 else 256 * Radix(n - 1)
  }

  lemma OctetNext(b: Octet)
    ensures b != 255 ==> (b + 1) as int == b as int + 1
    ensures b == 255 ==> b as int == 255
  {
  }

  /** The increment is addition of one modulo 256^n. */
  lemma {:induction false} IncrementNumber(c: seq<Octet>)
    ensures Number(c) < Radix(|c|)
    ensures Number(Increment(c)) == if Number(c) + 1 == Radix(|c|) then 0 else Number(c) + 1
  {
    if c != [] {
      var m := |c| - 1;
      IncrementNumber(c[..m]);
      OctetNext(c[m]);
      var r := Increment(c);
      assert r[..m] == if c[m] == 255 then Increment(c[..m]) else c[..m];
      assert c[m] as int <= 255;
    }
  }

  /** The counter after n increments. */
  function Counter(iv: Block, n: nat): Block
    decreases n
  {
    if n == 0 then iv else Increment(Counter(iv, n - 1))
  }

  /** Byte i of the keystream. */
  function Key(enc: Cipher, iv: Block, i: nat): Octet {
    enc(Counter(iv, i / 16))[i % 16]
  }

  /** Data combined with the keystream from byte `pos` on. Lemma CryptAt opens the
      definition. */
  function Crypt(enc: Cipher, iv: Block, pos: nat, data: seq<Octet>, fold: nat := 3): (r: seq<Octet>)
    ensures |r| == |data|
  {
    if fold == 0 then seq(|data|, i requires 0 <= i < |data| => data[i] ^ Key(enc, iv, pos + i))
    else Crypt(enc, iv, pos, data, fold - 1)
  }

  lemma {:induction false} CryptAt(enc: Cipher, iv: Block, pos: nat, data: seq<Octet>, fold: nat := 3)
    ensures forall i :: 0 <= i < |data| ==> Crypt(enc, iv, pos, data, fold)[i] == data[i] ^ Key(enc, iv, pos + i)
  {
    if fold > 0 {
      CryptAt(enc, iv, pos, data, fold - 1);
    }
  }

  /** Splitting the data does not matter. */
  lemma CryptSplit(enc: Cipher, iv: Block, pos: nat, a: seq<Octet>, b: seq<Octet>)
    ensures Crypt(enc, iv, pos, a + b) == Crypt(enc, iv, pos, a) + Crypt(enc, iv, pos + |a|, b)
  {
    CryptAt(enc, iv, pos, a + b);
    CryptAt(enc, iv, pos, a);
    CryptAt(enc, iv, pos + |a|, b);
    var x, y := Crypt(enc, iv, pos, a + b), Crypt(enc, iv, pos, a) + Crypt(enc, iv, pos + |a|, b);
    forall i | 0 <= i < |x| ensures x[i] == y[i] {
      if i >= |a| {
        assert pos + i == pos + |a| + (i - |a|);
      }
    }
  }

  lemma XorTwice(a: Octet, k: Octet)
    ensures (a ^ k) ^ k == a
  {
  }

  /** The receiver undoes the sender. */
  lemma CryptTwice(enc: Cipher, iv: Block, pos: nat, data: seq<Octet>)
    ensures Crypt(enc, iv, pos, Crypt(enc, iv, pos, data)) == data
  {
    var once := Crypt(enc, iv, pos, data);
    CryptAt(enc, iv, pos, data);
    CryptAt(enc, iv, pos, once);
    forall i | 0 <= i < |data| ensures (data[i] ^ Key(enc, iv, pos + i)) ^ Key(enc, iv, pos + i) == data[i] {
      XorTwice(data[i], Key(enc, iv, pos + i));
    }
  }

  /** Counting on from a later counter. */
  lemma {:induction false} CounterAdd(iv: Block, m: nat, n: nat)
    ensures Counter(Counter(iv, m), n) == Counter(iv, m + n)
    decreases n
  {
    if n > 0 {
      CounterAdd(iv, m, n - 1);
    }
  }

  /** From a block boundary on, the keystream is that of the counter reached. */
  lemma CryptFromBlock(enc: Cipher, iv: Block, n: nat, data: seq<Octet>)
    ensures Crypt(enc, Counter(iv, n), 0, data) == Crypt(enc, iv, 16 * n, data)
  {
    CryptAt(enc, Counter(iv, n), 0, data);
    CryptAt(enc, iv, 16 * n, data);
    forall i | 0 <= i < |data| ensures Key(enc, Counter(iv, n), i) == Key(enc, iv, 16 * n + i) {
      CounterAdd(iv, n, i / 16);
      Arith.QuotientUnique(16 * n + i, 16, n + i / 16, i % 16);
    }
  }

  /** A buffer o whose bytes a to b were replaced by those of m, encrypted from keystream
      byte `pos` on. Lemma PatchedIs opens the definition. */
  function Patched(enc: Cipher, iv: Block, pos: nat, o: seq<Octet>, m: seq<Octet>, a: nat, b: nat,
      fold: nat := 3): (r: seq<Octet>)
    requires a <= b <= |m| && b <= |o|
    ensures |r| == |o|
  {
    if fold == 0 then o[..a] + Crypt(enc, iv, pos, m[a..b]) + o[b..] else Patched(enc, iv, pos, o, m, a, b, fold - 1)
  }

  lemma {:induction false} PatchedIs(enc: Cipher, iv: Block, pos: nat, o: seq<Octet>, m: seq<Octet>, a: nat, b: nat,
      fold: nat := 3)
    requires a <= b <= |m| && b <= |o|
    ensures Patched(enc, iv, pos, o, m, a, b, fold) == o[..a] + Crypt(enc, iv, pos, m[a..b]) + o[b..]
  {
    if fold > 0 {
      PatchedIs(enc, iv, pos, o, m, a, b, fold - 1);
    }
  }

  /** One more byte. */
  lemma PatchByte(enc: Cipher, iv: Block, pos: nat, o: seq<Octet>, m: seq<Octet>, a: nat, b: nat)
    requires a <= b < |m| && b < |o|
    ensures Patched(enc, iv, pos, o, m, a, b)[b := m[b] ^ Key(enc, iv, pos + (b - a))] == Patched(enc, iv, pos, o, m,
      a, b + 1)
    ensures Patched(enc, iv, pos, o, m, a, b)[b] == o[b]
  {
    PatchedIs(enc, iv, pos, o, m, a, b);
    PatchedIs(enc, iv, pos, o, m, a, b + 1);
    assert m[a..b + 1] == m[a..b] + [m[b]];
    CryptSplit(enc, iv, pos, m[a..b], [m[b]]);
    CryptAt(enc, iv, pos + (b - a), [m[b]]);
    assert Crypt(enc, iv, pos + (b - a), [m[b]]) == [m[b] ^ Key(enc, iv, pos + (b - a))];
  }

  /** Nothing replaced yet. */
  lemma PatchNone(enc: Cipher, iv: Block, pos: nat, o: seq<Octet>, m: seq<Octet>, a: nat)
    requires a <= |m| && a <= |o|
    ensures Patched(enc, iv, pos, o, m, a, a) == o
  {
    PatchedIs(enc, iv, pos, o, m, a, a);
  }

  /** The next stretch of replaced bytes. */
  lemma PatchMore(enc: Cipher, iv: Block, pos: nat, o: seq<Octet>, m: seq<Octet>, b: nat, c: nat, x: seq<Octet>)
    requires b <= c <= |m| && c <= |o| && x == Crypt(enc, iv, pos + b, m[b..c])
    ensures var r := Patched(enc, iv, pos, o, m, 0, b);
            r[..b] + x + r[c..] == Patched(enc, iv, pos, o, m, 0, c)
  {
    PatchedIs(enc, iv, pos, o, m, 0, b);
    PatchedIs(enc, iv, pos, o, m, 0, c);
    assert m[0..c] == m[0..b] + m[b..c];
    CryptSplit(enc, iv, pos, m[0..b], m[b..c]);
  }

  // Packets

  function Concat(packets: seq<seq<Octet>>): seq<Octet> {
    if packets == [] then [] else packets[0] + Concat(packets[1..])
  }

  /** What remains of the current keystream block after `pos` bytes. */
  function Pending(pos: nat): (n: nat)
    ensures n < 16 && (pos + n) % 16 == 0
  {
    (16 - pos % 16) % 16
  }

  /** Where mirror_buffer_decrypt is in the keystream after a packet of n bytes: a packet
      shorter than the pending remainder drops the rest of that remainder. */
  function NextPosition(pos: nat, n: nat): nat {
    if n >= Pending(pos) then pos + n else pos + Pending(pos)
  }

  function EndPosition(pos: nat, packets: seq<seq<Octet>>): nat
    decreases |packets|
  {
    if packets == [] then pos else EndPosition(NextPosition(pos, |packets[0]|), packets[1..])
  }

  /** The concatenated output of mirror_buffer_decrypt on these packets. */
  function Delivered(enc: Cipher, iv: Block, pos: nat, packets: seq<seq<Octet>>): seq<Octet>
    decreases |packets|
  {
    if packets == [] then [] else
      Crypt(enc, iv, pos, packets[0]) + Delivered(enc, iv, NextPosition(pos, |packets[0]|), packets[1..])
  }

  /** Every packet is at least as long as what is pending when it arrives. */
  predicate InStep(pos: nat, packets: seq<seq<Octet>>)
    decreases |packets|
  {
    packets == [] || (|packets[0]| >= Pending(pos) && InStep(pos + |packets[0]|, packets[1..]))
  }

  /** Packets in step are decrypted as one stream. */
  lemma {:induction false} DeliveredInStep(enc: Cipher, iv: Block, pos: nat, packets: seq<seq<Octet>>)
    requires InStep(pos, packets)
    ensures Delivered(enc, iv, pos, packets) == Crypt(enc, iv, pos, Concat(packets))
    decreases |packets|
  {
    if packets != [] {
      DeliveredInStep(enc, iv, pos + |packets[0]|, packets[1..]);
      CryptSplit(enc, iv, pos, packets[0], Concat(packets[1..]));
    }
  }

  /** The keystream position never falls behind the bytes, and equals their number exactly
      when the packets are in step. */
  lemma {:induction false} InStepExactly(pos: nat, packets: seq<seq<Octet>>)
    ensures EndPosition(pos, packets) >= pos + |Concat(packets)|
    ensures EndPosition(pos, packets) == pos + |Concat(packets)| <==> InStep(pos, packets)
    decreases |packets|
  {
    if packets != [] {
      InStepExactly(NextPosition(pos, |packets[0]|), packets[1..]);
    }
  }

  /** The concatenated output of AES_ctr_encrypt on the same packets. */
  function DeliveredCtr(enc: Cipher, iv: Block, pos: nat, packets: seq<seq<Octet>>): seq<Octet>
    decreases |packets|
  {
    if packets == [] then [] else
      Crypt(enc, iv, pos, packets[0]) + DeliveredCtr(enc, iv, pos + |packets[0]|, packets[1..])
  }

  /** AES_ctr_encrypt does not depend on how the bytes are split. */
  lemma {:induction false} CtrSplitInvariant(enc: Cipher, iv: Block, pos: nat, packets: seq<seq<Octet>>)
    ensures DeliveredCtr(enc, iv, pos, packets) == Crypt(enc, iv, pos, Concat(packets))
    decreases |packets|
  {
    if packets != [] {
      CtrSplitInvariant(enc, iv, pos + |packets[0]|, packets[1..]);
      CryptSplit(enc, iv, pos, packets[0], Concat(packets[1..]));
    }
  }

  /** Both stream decryptions give the same bytes, under any two splits of them. */
  lemma MirrorEqualsCtr(enc: Cipher, iv: Block, packets: seq<seq<Octet>>, others: seq<seq<Octet>>)
    requires InStep(0, packets) && Concat(packets) == Concat(others)
    ensures Delivered(enc, iv, 0, packets) == DeliveredCtr(enc, iv, 0, others)
  {
    DeliveredInStep(enc, iv, 0, packets);
    CtrSplitInvariant(enc, iv, 0, others);
  }
}
