/** The few facts about products and quotients the proofs lean on. */
module Arith {
  lemma MulMono(a: int, b: int, c: nat)
    requires a <= b
    ensures a * c <= b * c && c * a <= c * b
  {
  }

  lemma MulStrict(a: int, b: int, c: nat)
    requires a < b && c > 0
    ensures a * c < b * c
  {
  }

  /** A remainder below the divisor pins down quotient and remainder. */
  lemma DivUnique(i: int, d: nat, q: int, r: nat)
    requires r < d && i == d * q + r
    ensures i / d == q && i % d == r
  {
    var q', r' := i / d, i % d;
    assert i == d * q' + r';
    if q' < q {
      MulMono(q' + 1, q, d);
      assert false;
    }
    if q < q' {
      MulMono(q + 1, q', d);
      assert false;
    }
  }

  lemma DivModIff(i: nat, d: nat, q: nat, r: nat)
    requires r < d
    ensures i == q * d + r <==> i / d == q && i % d == r
  {
    if i == q * d + r { DivUnique(i, d, q, r); }
  }

  /** `q` is the quotient exactly when `i` lies between `d * q` and `d * (q + 1)`. */
  lemma DivBounds(i: int, d: nat)
    requires d > 0
    ensures d * (i / d) <= i < d * (i / d) + d
  {
  }

  lemma DivMono(a: int, b: int, d: nat)
    requires d > 0 && a <= b
    ensures a / d <= b / d
  {
    if a / d > b / d {
      MulMono(b / d + 1, a / d, d);
      DivBounds(a, d);
      DivBounds(b, d);
      assert false;
    }
  }

  /** Adding `d * k` to the dividend adds `k` to the quotient. */
  lemma DivShift(a: int, k: int, d: nat)
    requires d > 0
    ensures (a + d * k) / d == a / d + k
  {
    assert a + d * k == d * (a / d + k) + a % d;
    DivUnique(a + d * k, d, a / d + k, a % d);
  }

  lemma QuotientAtLeast(d: nat, k: nat, n: nat)
    requires d > 0 && d * k <= n
    ensures k <= n / d
  {
    DivMono(d * k, n, d);
    DivShift(0, k, d);
  }

  /** Rounding up, as `div_ceil` does. */
  function DivCeil(a: nat, d: nat): (r: nat)
    requires d > 0
    ensures d * r >= a && (r == 0 || d * (r - 1) < a)
  {
    DivBounds(a + d - 1, d);
    (a + d - 1) / d
  }

  /** A quotient rounded up is at most `m` exactly when `m` times the divisor reaches the dividend. */
  lemma DivCeilAtMost(a: nat, d: nat, m: nat)
    requires d > 0
    ensures DivCeil(a, d) <= m <==> a <= m * d
  {
    var r := DivCeil(a, d);
    if r <= m { MulMono(r, m, d); } else { MulMono(m, r - 1, d); }
  }

  function MinNat(a: nat, b: nat): nat { if a <= b then a else b }
  function MaxNat(a: nat, b: nat): nat { if a >= b then a else b }

  function Pow2(n: nat): (r: nat)
    ensures r > 0
  {
    if n == 0 then 1 else 2 * Pow2(n - 1)
  }

  lemma {:induction false} Pow2Grows(a: nat, b: nat)
    requires a <= b
    ensures Pow2(a) <= Pow2(b)
  {
    if a < b { Pow2Grows(a, b - 1); }
  }
}
