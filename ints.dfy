/** Fixed-width unsigned integers of the Rust source, as subsets of `int`,
    and the powers of two that shifts by a bit count stand for. */
module Ints {

  const TWO_TO_THE_16: int := 0x1_0000
  const TWO_TO_THE_32: int := 0x1_0000_0000
  const TWO_TO_THE_64: int := 0x1_0000_0000_0000_0000

  type u8 = x: int | 0 <= x < 0x100
  type u16 = x: int | 0 <= x < TWO_TO_THE_16
  type u32 = x: int | 0 <= x < TWO_TO_THE_32
  type u64 = x: int | 0 <= x < TWO_TO_THE_64

  /** 2^n, the value of `1 << n` while no bit is shifted out. */
  function Pow2(n: nat): (p: nat)
    ensures p >= 1
  {
    if n == 0 then 1 else 2 * Pow2(n - 1)
  }

  /** `x >> amount`: the low `amount` bits dropped, one at a time. */
  function ShiftRight(x: nat, amount: nat): nat
  {
    if amount == 0 then x else ShiftRight(x / 2, amount - 1)
  }

  /** The shifted value `q` brackets `x`: `q * 2^amount <= x < (q + 1) * 2^amount`. */
  lemma {:induction false} ShiftRightBracket(x: nat, amount: nat)
    ensures ShiftRight(x, amount) * Pow2(amount) <= x < (ShiftRight(x, amount) + 1) * Pow2(amount)
  {
    if amount > 0 {
      var q, p := ShiftRight(x / 2, amount - 1), Pow2(amount - 1);
      ShiftRightBracket(x / 2, amount - 1);
      assert ShiftRight(x, amount) == q;
      assert Pow2(amount) == 2 * p;
      MulDouble(q, p);
      MulDouble(q + 1, p);
    }
  }

  lemma MulDouble(a: nat, b: nat)
    ensures a * (2 * b) == 2 * (a * b)
  {
  }

  lemma MulMonotone(a: nat, b: nat, c: nat)
    requires a <= b
    ensures a * c <= b * c
  {
    assert b * c == a * c + (b - a) * c;
  }

  /** Values below `k * 2^amount` shift to below `k`. */
  lemma ShiftRightBelow(x: nat, amount: nat, k: nat)
    requires x < k * Pow2(amount)
    ensures ShiftRight(x, amount) < k
  {
    ShiftRightBracket(x, amount);
    if ShiftRight(x, amount) >= k {
      MulMonotone(k, ShiftRight(x, amount), Pow2(amount));
    }
  }

  /** Values from `k * 2^amount` on shift to at least `k`. */
  lemma ShiftRightAtLeast(x: nat, amount: nat, k: nat)
    requires k * Pow2(amount) <= x
    ensures k <= ShiftRight(x, amount)
  {
    ShiftRightBracket(x, amount);
    if ShiftRight(x, amount) + 1 <= k {
      MulMonotone(ShiftRight(x, amount) + 1, k, Pow2(amount));
    }
  }

  /** Powers of two multiply by adding exponents. */
  lemma {:induction false} Pow2Add(a: nat, b: nat)
    ensures Pow2(a + b) == Pow2(a) * Pow2(b)
  {
    if a > 0 {
      Pow2Add(a - 1, b);
      assert Pow2(a + b) == 2 * Pow2(a - 1 + b);
    }
  }

  /** 2^64 is one past the largest `u64`. */
  lemma Pow2SixtyFour()
    ensures Pow2(64) == TWO_TO_THE_64
  {
    assert Pow2(2) == 4;
    Pow2Add(2, 2);
    assert Pow2(4) == 0x10;
    Pow2Add(4, 4);
    assert Pow2(8) == 0x100;
    Pow2Add(8, 8);
    assert Pow2(16) == 0x1_0000;
    Pow2Add(16, 16);
    assert Pow2(32) == 0x1_0000_0000;
    Pow2Add(32, 32);
  }
}
