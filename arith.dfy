/** Integer helpers shared by the bit packing and the modulator: powers of two
    and Rust's `usize::div_ceil`. */
module Arith {

  /** 2^n. */
  function Pow2(n: nat): (r: nat)
    ensures r >= 1
  {
    if n == 0 then 1 else 2 * Pow2(n - 1)
  }

  lemma {:induction false} Pow2Monotone(a: nat, b: nat)
    requires a <= b
    ensures Pow2(a) <= Pow2(b)
  {
    if a < b {
      Pow2Monotone(a, b - 1);
    }
  }

  function Min(a: int, b: int): int
  {
    if a <= b then a else b
  }

  /** Rust's `usize::div_ceil` for a nonzero divisor (a zero divisor panics,
      which callers model as a failure before calling this): the least `r`
      with `r * b >= a`. */
  function DivCeil(a: nat, b: nat): (r: nat)
    requires b > 0
    ensures r * b >= a
    ensures r * b < a + b
  {
    assert a == (a / b) * b + a % b;
    a / b + (if a % b > 0 then 1 else 0)
  }

  /** `x * c <= y * c` with a positive `c` gives `x <= y`. */
  lemma MulCancelLe(x: int, y: int, c: int)
    requires c > 0 && x * c <= y * c
    ensures x <= y
  {
  }

  /** `x * c < y * c` with a positive `c` gives `x < y`. */
  lemma MulCancelLt(x: int, y: int, c: int)
    requires c > 0 && x * c < y * c
    ensures x < y
  {
  }

  lemma MulSwap(a: int, b: int, c: int)
    ensures (a * b) * c == (a * c) * b
    ensures (a * b) * c == a * (b * c)
  {
  }

  /** `x <= y` with a nonnegative `c` gives `x * c <= y * c`. */
  lemma MulMonotone(x: int, y: int, c: int)
    requires x <= y && c >= 0
    ensures x * c <= y * c
  {
  }

  /** One more low-order bit: if `u` is `p` shifted by `q` plus `v`, then
      `2u + x` is `p` shifted by `2q` plus `2v + x`. */
  lemma ShiftStep(p: int, q: int, u: int, v: int, x: int)
    requires u == p * q + v
    ensures 2 * u + x == p * (2 * q) + (2 * v + x)
  {
  }

  /** Any `x` within the bounds of `DivCeil`'s contract is `DivCeil` itself. */
  lemma DivCeilUnique(a: nat, b: nat, x: nat)
    requires b > 0 && x * b >= a && x * b < a + b
    ensures x == DivCeil(a, b)
  {
    var r := DivCeil(a, b);
    if x < r {
      MulMonotone(x + 1, r, b);
    } else if r < x {
      MulMonotone(r + 1, x, b);
    }
  }

  /** A whole multiple divides exactly. */
  lemma DivCeilOfMultiple(n: nat, b: nat)
    requires b > 0
    ensures DivCeil(n * b, b) == n
  {
    DivCeilUnique(n * b, b, n);
  }

  /** Removing one divisor's worth from the dividend removes one from the
      rounded-up quotient. */
  lemma DivCeilStep(a: nat, b: nat)
    requires b > 0 && a >= b
    ensures DivCeil(a, b) == DivCeil(a - b, b) + 1
  {
    var s := DivCeil(a - b, b);
    assert (s + 1) * b == s * b + b;
    DivCeilUnique(a, b, s + 1);
  }

  /** A dividend holding `n` whole divisors has a quotient of at least `n`. */
  lemma DivLowerBound(a: nat, b: nat, n: nat)
    requires b > 0 && a >= n * b
    ensures a / b >= n
  {
    if a / b < n {
      MulMonotone(a / b + 1, n, b);
    }
  }

  /** Euclidean division is unique: a quotient and remainder that rebuild
      the dividend are `/` and `%`. */
  lemma DivModUnique(a: int, b: nat, q: int, r: int)
    requires b > 0 && a == q * b + r && 0 <= r < b
    ensures q == a / b && r == a % b
  {
    var q', r' := a / b, a % b;
    assert a == q' * b + r';
    assert (q - q') * b == r' - r;
    if q > q' {
      MulMonotone(1, q - q', b);
    } else if q < q' {
      MulMonotone(1, q' - q, b);
    }
  }

  /** Taking one divisor off the dividend keeps the remainder. */
  lemma ModStep(a: nat, b: nat)
    requires b > 0 && a >= b
    ensures (a - b) % b == a % b
  {
    assert a == (a / b) * b + a % b;
    assert a - b == (a / b - 1) * b + a % b;
    DivModUnique(a - b, b, a / b - 1, a % b);
  }

  lemma MulSucc(j: int, b: int)
    ensures (j + 1) * b == j * b + b
  {
  }

  lemma MulAdd(a: int, c: int, b: int)
    ensures a * b + c * b == (a + c) * b
  {
  }

  /** Block `j` of `n` blocks of `b` ends within the `n * b` total. */
  lemma BlockEnd(j: nat, n: nat, b: nat)
    requires j < n
    ensures j * b + b <= n * b
  {
    MulMonotone(j + 1, n, b);
    assert (j + 1) * b == j * b + b;
  }
}
