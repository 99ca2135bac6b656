/** The signed number that the bits of a 32-bit word stand for. */
module WordBits {
  import opened Arith
  import opened Machine

  /** The number of a sequence of bits, the lowest first. */
  function Number(bits: seq<bool>): (n: nat)
    ensures n < Pow2(|bits|)
  {
    if bits == [] then 0 else 2 * Number(bits[1..]) + if bits[0] then 1 else 0
  }

  lemma {:induction false} NumberUnique(s: seq<bool>, t: seq<bool>)
    requires |s| == |t| && Number(s) == Number(t)
    ensures s == t
  {
    if s != [] {
      NumberUnique(s[1..], t[1..]);
      assert s == [s[0]] + s[1..] && t == [t[0]] + t[1..];
    }
  }

  lemma {:induction false} NumberUniform(bits: seq<bool>, b: bool)
    requires forall i :: 0 <= i < |bits| ==> bits[i] == b
    ensures Number(bits) == if b then Pow2(|bits|) - 1 else 0
  {
    if bits != [] {
      NumberUniform(bits[1..], b);
    }
  }

  /** The lowest eight bits. */
  function LowBits(w: bv32): (s: seq<bool>)
    ensures |s| == 8
  {
    [w & 1 != 0, w & 2 != 0, w & 4 != 0, w & 8 != 0, w & 16 != 0, w & 32 != 0, w & 64 != 0, w & 128 != 0]
  }

  lemma LowBitsUnique(a: bv32, b: bv32)
    ensures LowBits(a) == LowBits(b) ==> a & 0xff == b & 0xff
  {
    var s, t := LowBits(a), LowBits(b);
    if s == t {
      assert s[0] == t[0] && s[1] == t[1] && s[2] == t[2] && s[3] == t[3];
      assert s[4] == t[4] && s[5] == t[5] && s[6] == t[6] && s[7] == t[7];
    }
  }

  /** The lower half of the bits. */
  function HalfBits(w: bv32): (s: seq<bool>)
    ensures |s| == 16
  {
    LowBits(w) + LowBits(w >> 8)
  }

  function Bits(w: bv32): (s: seq<bool>)
    ensures |s| == 32
  {
    HalfBits(w) + HalfBits(w >> 16)
  }

  lemma Parts(s: seq<bool>, s': seq<bool>, t: seq<bool>, t': seq<bool>)
    requires |s| == |t|
    ensures s + s' == t + t' ==> s == t && s' == t'
  {
    assert (s + s')[..|s|] == s && (t + t')[..|t|] == t;
    assert (s + s')[|s|..] == s' && (t + t')[|t|..] == t';
  }

  lemma JoinBytes(a: bv32, b: bv32)
    ensures a & 0xff == b & 0xff && (a >> 8) & 0xff == (b >> 8) & 0xff ==> a & 0xffff == b & 0xffff
  {
  }

  lemma JoinHalves(a: bv32, b: bv32)
    ensures a & 0xffff == b & 0xffff && (a >> 16) & 0xffff == (b >> 16) & 0xffff ==> a == b
  {
  }

  lemma HalfBitsUnique(a: bv32, b: bv32)
    ensures HalfBits(a) == HalfBits(b) ==> a & 0xffff == b & 0xffff
  {
    Parts(LowBits(a), LowBits(a >> 8), LowBits(b), LowBits(b >> 8));
    LowBitsUnique(a, b);
    LowBitsUnique(a >> 8, b >> 8);
    JoinBytes(a, b);
  }

  lemma BitsUnique(a: bv32, b: bv32)
    ensures Bits(a) == Bits(b) ==> a == b
  {
    Parts(HalfBits(a), HalfBits(a >> 16), HalfBits(b), HalfBits(b >> 16));
    HalfBitsUnique(a, b);
    HalfBitsUnique(a >> 16, b >> 16);
    JoinHalves(a, b);
  }

  lemma Pow32()
    ensures Pow2(32) == 0x1_0000_0000
  {
    assert Pow2(8) == 0x100;
    Pow2Add(8, 8);
    Pow2Add(16, 16);
  }

  /** The word as a signed number in two's complement. */
  function Signed(w: bv32): Int32 {
    Pow32();
    var n := Number(Bits(w));
    if n < 0x8000_0000 then n else n - 0x1_0000_0000
  }

  lemma SignedUnique(a: bv32, b: bv32)
    requires Signed(a) == Signed(b)
    ensures a == b
  {
    Pow32();
    NumberUnique(Bits(a), Bits(b));
    BitsUnique(a, b);
  }

  lemma UniformBits()
    ensures forall i :: 0 <= i < 32 ==> !Bits(0)[i] && Bits(0xffff_ffff)[i]
  {
  }

  lemma SignedUniform()
    ensures Signed(0) == 0 && Signed(0xffff_ffff) == -1
  {
    Pow32();
    UniformBits();
    NumberUniform(Bits(0), false);
    NumberUniform(Bits(0xffff_ffff), true);
  }
}
