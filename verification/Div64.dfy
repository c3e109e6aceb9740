/** 64-by-32 division by shift and subtract. Machine words are subset types of their exact range, so
    every assignment below carries the obligation that the C operation does not overflow. */
module Div64 {
  import opened Arithmetic

  const TWO_TO_THE_32: int := 0x1_0000_0000
  const TWO_TO_THE_64: int := 0x1_0000_0000_0000_0000

  type u32 = x: int | 0 <= x < TWO_TO_THE_32
  type u64 = x: int | 0 <= x < TWO_TO_THE_64

  function Pow2(k: nat): (p: nat)
    ensures p >= 1
  {
    if k == 0 then 1 else 2 * Pow2(k - 1)
  }

  lemma {:induction false} Pow2Monotone(j: nat, k: nat)
    requires j <= k
    ensures Pow2(j) <= Pow2(k)
    decreases k
  {
    if j < k {
      Pow2Monotone(j, k - 1);
    }
  }

  lemma Pow2At32()
    ensures Pow2(32) == TWO_TO_THE_32
  {
    assert Pow2(8) == 0x100;
    assert Pow2(16) == 0x1_0000;
    assert Pow2(24) == 0x100_0000;
  }

  /** The shifted base stays in 64 bits as long as it is below the reduced dividend. */
  lemma DoublingFits(base: u32, k: nat)
    requires Pow2(k) * base < TWO_TO_THE_32 * base
    ensures Pow2(k + 1) <= TWO_TO_THE_32 && 2 * (Pow2(k) * base) == Pow2(k + 1) * base < TWO_TO_THE_64
  {
    Pow2At32();
    if k >= 32 {
      Pow2Monotone(32, k);
      MulMonotone(TWO_TO_THE_32, Pow2(k), base);
      assert false;
    }
    Pow2Monotone(k + 1, 32);
    MulMonotone(Pow2(k + 1), TWO_TO_THE_32, base);
    MulAdd(Pow2(k), Pow2(k), base);
  }

  /** The pre-reduction: the product fits 32 bits and leaves a dividend below base * 2^32. */
  lemma PreReduction(n: u64, high: u32, base: u32)
    requires base != 0 && high == n / TWO_TO_THE_32
    ensures high < base ==> n < TWO_TO_THE_32 * base
    ensures 0 <= high / base * base <= high
    ensures 0 <= n - TWO_TO_THE_32 * (high / base * base) < TWO_TO_THE_32 * base
  {
    assert high == high / base * base + high % base;
  }

  /** Moving b = 2^k * base from the dividend to the quotient keeps the balance within 64 bits. */
  lemma QuotientFits(n: u64, base: u32, res: nat, k: nat, b: nat, rem: int)
    requires base != 0 && n == res * base + rem && b == Pow2(k) * base && b <= rem
    ensures n == (res + Pow2(k)) * base + (rem - b) && res + Pow2(k) < TWO_TO_THE_64
  {
    MulAdd(res, Pow2(k), base);
    MulMonotone(1, base, res + Pow2(k));
  }

  /** Returns the remainder; q is what is stored back through the pointer. */
  method DivRem(n: u64, base: u32) returns (q: u64, r: u32)
    requires base != 0
    ensures q == n / base && r == n % base
  {
    var res, rem := Reduce(n, base);
    var b, d;
    ghost var k;
    b, d, k := ScaleUp(base, rem);
    q, r := ShiftSubtract(n, base, res, rem, b, d, k);
    DivModUnique(n, base, q, r);
  }

  /** "Reduce the thing a bit first." */
  method Reduce(n: u64, base: u32) returns (res: u64, rem: u64)
    requires base != 0
    ensures n == res * base + rem && rem < TWO_TO_THE_32 * base
  {
    res, rem := 0, n;
    var high: u32 := rem / TWO_TO_THE_32;
    PreReduction(n, high, base);
    if high >= base {
      high := high / base;
      res := high * TWO_TO_THE_32;
      var product: u32 := high * base;
      rem := rem - TWO_TO_THE_32 * product;
      Shifted(high, base);
    }
  }

  /** Doubles base until it reaches rem; d counts the doublings as a power of two. */
  method ScaleUp(base: u32, rem: u64) returns (b: u64, d: u64, ghost k: nat)
    requires base != 0 && rem < TWO_TO_THE_32 * base
    ensures b == Pow2(k) * base && d == Pow2(k) && rem <= b
  {
    b, d, k := base, 1, 0;
    while b > 0 && b < rem
      invariant 0 < b == Pow2(k) * base && d == Pow2(k) <= TWO_TO_THE_32
      decreases rem - b
    {
      DoublingFits(base, k);
      b := b + b;
      d := d + d;
      k := k + 1;
    }
  }

  /** Long division in binary. The loop tests d at its end; d starts positive. */
  method ShiftSubtract(n: u64, base: u32, res0: u64, rem0: u64, b0: u64, d0: u64, ghost k0: nat)
    returns (res: u64, rem: u32)
    requires base != 0 && n == res0 * base + rem0
    requires b0 == Pow2(k0) * base && d0 == Pow2(k0) && rem0 <= b0
    ensures n == res * base + rem && rem < base
  {
    var b, d, rem64: u64 := b0, d0, rem0;
    res := res0;
    ghost var k := k0;
    Halving(base, k);
    while d != 0
      invariant n == res * base + rem64 && Shifting(base, rem64, b, d, k)
      decreases d
    {
      if rem64 >= b {
        QuotientFits(n, base, res, k, b, rem64);
        rem64 := rem64 - b;
        res := res + d;
      }
      ShiftDown(base, rem64, b, d, k);
      b := b / 2;
      d := d / 2;
      k := if k > 0 then k - 1 else 0;
    }
    rem := rem64;
  }

  /** b = d * base with d = 2^k, above half the dividend, until d has been shifted out. */
  ghost predicate Shifting(base: u32, rem: u64, b: u64, d: u64, k: nat)
  {
    if d == 0 then rem < base else b == Pow2(k) * base && d == Pow2(k) && rem < 2 * b
  }

  lemma ShiftDown(base: u32, rem: u64, b: u64, d: u64, k: nat)
    requires base != 0 && b == Pow2(k) * base && d == Pow2(k) && rem < b
    ensures Shifting(base, rem, b / 2, d / 2, if k > 0 then k - 1 else 0)
  {
    Halving(base, k);
  }

  lemma Shifted(high: u32, base: u32)
    ensures high * TWO_TO_THE_32 * base == high * base * TWO_TO_THE_32
  {
  }

  lemma Halving(base: u32, k: nat)
    requires base != 0
    ensures var b := Pow2(k) * base;
            && b > 0
            && (k == 0 ==> Pow2(k) == 1 && b == base)
            && (k > 0 ==> Pow2(k) / 2 == Pow2(k - 1) && b / 2 == Pow2(k - 1) * base && b == 2 * (b / 2))
  {
    MulMonotone(1, Pow2(k), base);
    if k > 0 {
      MulAdd(Pow2(k - 1), Pow2(k - 1), base);
    }
  }

  /** The base is truncated to 32 bits on entry. */
  method Modular64(n: u64, base: u64) returns (r: u64)
    requires base % TWO_TO_THE_32 != 0
    ensures r == n % (base % TWO_TO_THE_32)
  {
    var base32: u32 := base % TWO_TO_THE_32;
    if n / TWO_TO_THE_32 == 0 {
      r := n % base32;
    } else {
      var q;
      q, r := DivRem(n, base32);
    }
  }

  /** What the truncated base yields is n mod base for every n exactly when base fits 32 bits. */
  lemma ModularExact(base: u64)
    requires base % TWO_TO_THE_32 != 0
    ensures (forall n: u64 :: n % (base % TWO_TO_THE_32) == n % base) <==> base < TWO_TO_THE_32
  {
    var low := base % TWO_TO_THE_32;
    if base >= TWO_TO_THE_32 {
      DivModUnique(low, low, 1, 0);
      DivModUnique(low, base, 0, low);
      assert low % low != low % base;
    }
  }
}
