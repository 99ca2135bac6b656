/** The machine integers of the code, where a step that leaves their range is an error, and the
    bitwise or of their non-negative values. */
module Machine {
  import opened Arith

  type Int32 = x: int | -0x8000_0000 <= x < 0x8000_0000

  newtype Int64 = x: int | -0x8000_0000_0000_0000 <= x < 0x8000_0000_0000_0000

  /** a | b, one binary digit at a time. */
  function BitOr(a: nat, b: nat): nat {
    if a == 0 && b == 0 then 0
    else 2 * BitOr(a / 2, b / 2) + (if a % 2 == 1 || b % 2 == 1 then 1 else 0)
  }

  lemma {:induction false} BitOrZero(b: nat)
    ensures BitOr(0, b) == b
  {
    if b > 0 {
      BitOrZero(b / 2);
    }
  }

  lemma {:induction false} BitOrCommutes(a: nat, b: nat)
    ensures BitOr(a, b) == BitOr(b, a)
  {
    if a != 0 || b != 0 {
      BitOrCommutes(a / 2, b / 2);
    }
  }

  /** Bits that do not overlap add up. */
  lemma {:induction false} BitOrDisjoint(a: nat, b: nat, k: nat)
    requires a < Pow2(k)
    ensures BitOr(a, Pow2(k) * b) == a + Pow2(k) * b
  {
    if k == 0 {
      BitOrZero(b);
    } else {
      var c := Pow2(k - 1) * b;
      assert Pow2(k) * b == 2 * c by { MulAssoc(2, Pow2(k - 1), b); }
      BitOrDisjoint(a / 2, b, k - 1);
      assert (2 * c) / 2 == c && (2 * c) % 2 == 0;
      if a == 0 && c == 0 {
      } else {
        assert BitOr(a, 2 * c) == 2 * BitOr(a / 2, c) + a % 2;
      }
    }
  }
}
