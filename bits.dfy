/** The few operations on unsigned big integers that the Edwards code uses on
    scalars and on the field prime: `BitLen`, `Bit` and `SetBit` of Go's
    `math/big`, over mathematical naturals. */
module Bits {

  function Pow2(n: nat): (r: nat)
    ensures r >= 1
  {
    if n == 0 then 1 else 2 * Pow2(n - 1)
  }

  /** `v` shifted right by `i` bits. */
  function Shr(v: nat, i: nat): nat
  {
    if i == 0 then v else Shr(v / 2, i - 1)
  }

  /** Bit `i` of `v` (`big.Int.Bit`). */
  function Bit(v: nat, i: nat): (b: nat)
    ensures b < 2
  {
    Shr(v, i) % 2
  }

  /** Number of significant bits of `v` (`big.Int.BitLen`); 0 for 0. */
  function BitLen(v: nat): (n: nat)
    ensures v < Pow2(n)
    ensures v > 0 ==> n >= 1 && Pow2(n - 1) <= v
    ensures v == 0 ==> n == 0
  {
    if v == 0 then 0 else 1 + BitLen(v / 2)
  }

  /** `v` with bit `i` set to 1 (`big.Int.SetBit(v, i, 1)`): bit `i` of the
      result is 1, and the value grows by `2^i` or, when the bit was already
      set, not at all. */
  function SetBit(v: nat, i: nat): (r: nat)
    ensures Bit(r, i) == 1
    ensures r == v || r == v + Pow2(i)
  {
    if Bit(v, i) == 1 then v
    else
      ShrAddPow2(v, i);
      v + Pow2(i)
  }

  lemma {:induction false} Pow2Add(a: nat, b: nat)
    ensures Pow2(a + b) == Pow2(a) * Pow2(b)
    decreases a
  {
    if a > 0 {
      Pow2Add(a - 1, b);
      assert Pow2(a + b) == 2 * Pow2(a - 1 + b);
    }
  }

  lemma {:induction false} Pow2Monotone(i: nat, j: nat)
    requires i <= j
    ensures Pow2(i) <= Pow2(j)
    decreases j
  {
    if i < j {
      Pow2Monotone(i, j - 1);
    }
  }

  /** Shifting by one more bit halves the shifted value. */
  lemma {:induction false} ShrSucc(v: nat, i: nat)
    ensures Shr(v, i + 1) == Shr(v, i) / 2
    decreases i
  {
    if i > 0 {
      ShrSucc(v / 2, i - 1);
    }
  }

  /** Every bit at or above `i` of a value below `2^i` is clear. */
  lemma {:induction false} ShrSmall(v: nat, i: nat)
    requires v < Pow2(i)
    ensures Shr(v, i) == 0
    decreases i
  {
    if i > 0 {
      ShrSmall(v / 2, i - 1);
    }
  }

  /** Adding `2^i` adds exactly 1 to the value shifted right by `i`. */
  lemma {:induction false} ShrAddPow2(v: nat, i: nat)
    ensures Shr(v + Pow2(i), i) == Shr(v, i) + 1
    decreases i
  {
    if i > 0 {
      assert (v + Pow2(i)) / 2 == v / 2 + Pow2(i - 1);
      ShrAddPow2(v / 2, i - 1);
    }
  }

  /** BitLen is the unique `k` with `2^(k-1) <= v < 2^k`. */
  lemma BitLenUnique(v: nat, k: nat)
    requires k >= 1 && Pow2(k - 1) <= v < Pow2(k)
    ensures BitLen(v) == k
  {
    var n := BitLen(v);
    if n < k {
      Pow2Monotone(n, k - 1);
    } else if n > k {
      Pow2Monotone(k, n - 1);
    }
  }

  /** Shifting right by the bit length leaves nothing. */
  lemma ShrBitLen(v: nat)
    ensures Shr(v, BitLen(v)) == 0
  {
    ShrSmall(v, BitLen(v));
  }

  /** On a value below `2^i`, SetBit adds exactly `2^i`. */
  lemma SetBitSets(v: nat, i: nat)
    requires v < Pow2(i)
    ensures SetBit(v, i) == v + Pow2(i)
  {
    ShrSmall(v, i);
  }
}
