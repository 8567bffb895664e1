/**
 * Integer counterparts of the two floating-point roundings the layout code
 * uses on whole numbers: `Math.ceil(a / b)` and `Math.ceil(Math.sqrt(n))`.
 */
module Numeric {

  /** `Math.ceil(a / b)` for whole numbers: the least `q` with `q * b >= a`. */
  function CeilDiv(a: nat, b: nat): (q: nat)
    requires b >= 1
    ensures q * b >= a
    ensures q == 0 || (q - 1) * b < a
  {
    var q := (a + b - 1) / b;
    var r := (a + b - 1) % b;
    assert a + b - 1 == q * b + r && r < b;
    assert (q - 1) * b == q * b - b;
    q
  }

  /** Any `q` whose multiple covers `a` is at least the ceiling quotient. */
  lemma CeilDivLeast(a: nat, b: nat, q: nat)
    requires b >= 1 && q * b >= a
    ensures CeilDiv(a, b) <= q
  {
    var c := CeilDiv(a, b);
    if c > q {
      MulLe(q, c - 1, b);
    }
  }

  /** The two conditions on `CeilDiv` single out one number. */
  lemma CeilDivIs(a: nat, b: nat, q: nat)
    requires b >= 1 && q * b >= a && (q == 0 || (q - 1) * b < a)
    ensures CeilDiv(a, b) == q
  {
    CeilDivLeast(a, b, q);
    var c := CeilDiv(a, b);
    if c < q {
      MulLe(c, q - 1, b);
    }
  }

  /** `Math.ceil(Math.sqrt(n))` for whole numbers: the least `c` with `c * c >= n`. */
  function CeilSqrt(n: nat): (c: nat)
    ensures c * c >= n
    ensures c == 0 || (c - 1) * (c - 1) < n
    decreases n
  {
    if n == 0 then 0
    else
      var c := CeilSqrt(n - 1);
      if c * c >= n then c
      else
        assert (c + 1) * (c + 1) == c * c + 2 * c + 1;
        c + 1
  }

  /** Any `d` whose square covers `n` is at least the ceiling square root. */
  lemma CeilSqrtLeast(n: nat, d: nat)
    requires d * d >= n
    ensures CeilSqrt(n) <= d
  {
  }

  /** The two conditions on `CeilSqrt` single out one number. */
  lemma CeilSqrtIs(n: nat, c: nat)
    requires c * c >= n
    requires c == 0 || (c - 1) * (c - 1) < n
    ensures CeilSqrt(n) == c
  {
    CeilSqrtLeast(n, c);
    var s := CeilSqrt(n);
    if s < c {
      SquareLe(s, c - 1);
    }
  }

  /** Euclidean division is determined by quotient and remainder. */
  lemma DivModIs(m: int, d: int, q: int, r: int)
    requires d >= 1 && m == q * d + r && 0 <= r < d
    ensures m / d == q && m % d == r
  {
    var q', r' := m / d, m % d;
    assert m == q' * d + r' && 0 <= r' < d;
    if q' < q {
      MulLe(q' + 1, q, d);
    } else if q' > q {
      MulLe(q + 1, q', d);
    }
  }

  lemma SquareLe(a: nat, b: nat)
    requires a <= b
    ensures a * a <= b * b
  {
    MulLe(a, b, a);
    MulLe(a, b, b);
  }

  lemma MulLe(a: int, b: int, c: nat)
    requires a <= b
    ensures a * c <= b * c
  {
    assert b * c - a * c == (b - a) * c;
  }
}
