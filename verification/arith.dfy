/** Facts about Euclidean division that the tag arithmetic relies on. */
module Arith {

  /** Multiplication of naturals by repeated addition. Kept recursive so
      that the verifier unfolds it only on demand; `MulProduct` connects it
      to `*`. */
  function Mul(a: nat, b: nat): nat
  {
    if a == 0 then 0 else Mul(a - 1, b) + b
  }

  lemma {:induction false} MulProduct(a: nat, b: nat)
    ensures Mul(a, b) == a * b
  {
    if a > 0 {
      MulProduct(a - 1, b);
    }
  }

  /** Quotient of naturals by repeated subtraction (Python's `//` on
      non-negative operands). Kept recursive like `Mul`; `DivModProduct`
      connects it and `Mod` to `/` and `%`. */
  function Div(a: nat, m: nat): nat
    requires m > 0
  {
    if a < m then 0 else 1 + Div(a - m, m)
  }

  /** Remainder of naturals by repeated subtraction (Python's `%` on
      non-negative operands). */
  function Mod(a: nat, m: nat): nat
    requires m > 0
  {
    if a < m then a else Mod(a - m, m)
  }

  lemma {:induction false} DivModProduct(a: nat, m: nat)
    requires m > 0
    ensures Div(a, m) == a / m && Mod(a, m) == a % m
  {
    if a >= m {
      DivModProduct(a - m, m);
      DivModUnique(a, m, Div(a - m, m) + 1, Mod(a - m, m));
    } else {
      DivModUnique(a, m, 0, a);
    }
  }

  /** Quotient and remainder are determined by any decomposition
      `i == q * m + r` with `0 <= r < m`. */
  lemma DivModUnique(i: int, m: int, q: int, r: int)
    requires m > 0 && 0 <= r < m && i == q * m + r
    ensures i / m == q && i % m == r
  {
    var q', r' := i / m, i % m;
    assert (q - q') * m == r' - r;
    MultipleGap(q - q', m);
  }

  /** A non-zero multiple of `m` is at least `m` away from zero. */
  lemma MultipleGap(d: int, m: int)
    requires m > 0
    ensures d == 0 || d * m >= m || d * m <= -m
  {
    if d >= 1 {
      MulAtLeast(d, m);
    } else if d <= -1 {
      MulAtLeast(-d, m);
    }
  }

  lemma MulAtLeast(a: int, m: int)
    requires a >= 1 && m > 0
    ensures a * m >= m
  {
  }

  /** Multiplication by a non-negative factor is monotone. */
  lemma MulMonotone(a: int, b: int, m: int)
    requires a <= b && m >= 0
    ensures a * m <= b * m
  {
    assert b * m - a * m == (b - a) * m;
  }
}
