/** Natural-number arithmetic shared by the fixed-width models: powers of two,
    Euclidean division facts and explicit truncation to an unsigned width. */
module Arith {

  /** 2 raised to the power n. */
  function Pow2(n: nat): (r: nat)
    ensures r >= 1
  {
    if n == 0 then 1 else 2 * Pow2(n - 1)
  }

  /** Pow2 is strictly increasing: it doubles at every step. */
  lemma {:induction false} Pow2Monotone(m: nat, n: nat)
    requires m <= n
    ensures Pow2(m) <= Pow2(n)
  {
    if m < n {
      Pow2Monotone(m, n - 1);
    }
  }

  /** A positive multiple of a positive d is at least d. */
  lemma MulAtLeast(d: int, k: int)
    requires d > 0 && k >= 1
    ensures d * k >= d
  {
    if k > 1 {
      MulAtLeast(d, k - 1);
      assert d * k == d * (k - 1) + d;
    }
  }

  /** Division is determined by any quotient and remainder that fit. */
  lemma DivModUnique(x: int, d: int, q: int, r: int)
    requires d > 0 && 0 <= r < d && x == d * q + r
    ensures x / d == q && x % d == r
  {
    var q', r' := x / d, x % d;
    assert d * q' + r' == d * q + r;
    if q' > q {
      assert d * (q' - q) == r - r' by {
        assert d * (q' - q) == d * q' - d * q;
      }
      MulAtLeast(d, q' - q);
    } else if q' < q {
      assert d * (q - q') == r' - r by {
        assert d * (q - q') == d * q - d * q';
      }
      MulAtLeast(d, q - q');
    }
  }

  /** Dividing by d and then by 2 is dividing by 2 * d. */
  lemma DivDouble(x: nat, d: nat)
    requires d > 0
    ensures x / (2 * d) == (x / d) / 2
  {
    var q := x / d;
    var r := x % d;
    var q2 := q / 2;
    var r2 := q % 2;
    assert x == d * q + r;
    assert q == 2 * q2 + r2;
    assert x == (2 * d) * q2 + (d * r2 + r) by {
      assert d * q == d * (2 * q2 + r2) == (2 * d) * q2 + d * r2;
    }
    assert 0 <= d * r2 + r < 2 * d by {
      assert 0 <= r2 <= 1;
      assert d * r2 <= d;
    }
    DivModUnique(x, 2 * d, q2, d * r2 + r);
  }

  /** The remainder of an even number by an even modulus is twice a remainder. */
  lemma ModDouble(w: nat, p: nat)
    requires p > 0
    ensures (2 * w) % (2 * p) == 2 * (w % p)
  {
    var q, r := w / p, w % p;
    assert 2 * w == (2 * p) * q + 2 * r by {
      assert w == p * q + r;
    }
    DivModUnique(2 * w, 2 * p, q, 2 * r);
  }

  /** A value below 2^n is zero once divided by 2^n. */
  lemma DivPow2Small(x: nat, n: nat)
    requires x < Pow2(n)
    ensures x / Pow2(n) == 0
  {
    DivModUnique(x, Pow2(n), 0, x);
  }

  /** The value a fixed-width unsigned variable holds after an assignment of
      x: the C conversion to an unsigned type reduces modulo 2^width. */
  function Truncate(x: nat, width: nat): (r: nat)
    ensures r < Pow2(width)
    ensures x < Pow2(width) ==> r == x
  {
    if x < Pow2(width) then
      DivModUnique(x, Pow2(width), 0, x);
      x % Pow2(width)
    else
      x % Pow2(width)
  }

  /** Truncating an intermediate sum does not change the truncated total:
      adding to an unsigned variable is addition modulo 2^width. */
  lemma TruncateAdd(a: nat, b: nat, width: nat)
    ensures Truncate(Truncate(a, width) + b, width) == Truncate(a + b, width)
  {
    var m := Pow2(width);
    var q, r := a / m, a % m;
    var q2, r2 := (r + b) / m, (r + b) % m;
    assert a == m * q + r;
    assert r + b == m * q2 + r2;
    assert a + b == m * (q + q2) + r2 by {
      assert m * (q + q2) == m * q + m * q2;
    }
    DivModUnique(a + b, m, q + q2, r2);
  }
}
