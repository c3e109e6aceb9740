/** Products, quotients and remainders of natural numbers. */
module Arithmetic {

  lemma {:induction false} MulMonotone(a: nat, b: nat, c: nat)
    requires a <= b
    ensures a * c <= b * c
    decreases c
  {
    if c > 0 {
      MulMonotone(a, b, c - 1);
      assert a * c == a * (c - 1) + a && b * c == b * (c - 1) + b;
    }
  }

  lemma MulAdd(a: int, b: int, c: int)
    ensures (a + b) * c == a * c + b * c
  {
  }

  /** Quotient and remainder are unique. */
  lemma DivModUnique(n: nat, base: nat, q: nat, r: nat)
    requires base > 0 && n == q * base + r && r < base
    ensures q == n / base && r == n % base
  {
    var q', r' := n / base, n % base;
    assert n == q' * base + r';
    if q < q' {
      MulMonotone(q + 1, q', base);
      MulAdd(q, 1, base);
      assert false;
    }
    if q' < q {
      MulMonotone(q' + 1, q, base);
      MulAdd(q', 1, base);
      assert false;
    }
  }
}
