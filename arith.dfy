/**
 * Facts about integer multiplication, division and remainder shared by the
 * models.  Dafny's / and % are Euclidean: the divisor is always positive
 * here, and where a source operator truncates toward zero on a negative
 * dividend (JavaScript's % in the dial) the model writes that out.
 */
module Arith {

  lemma MulAtLeast(n: int, d: int)
    requires n > 0 && d >= 1
    ensures n * d >= n
  {
  }

  /** Quotient and remainder are determined by the division equation. */
  lemma DivModUnique(a: int, n: int, q: int, r: int)
    requires n > 0 && a == n * q + r && 0 <= r < n
    ensures a % n == r && a / n == q
  {
    var q', r' := a / n, a % n;
    assert a == n * q' + r';
    if q > q' {
      assert n * (q - q') == n * q - n * q';
      MulAtLeast(n, q - q');
    } else if q < q' {
      assert n * (q' - q) == n * q' - n * q;
      MulAtLeast(n, q' - q);
    }
  }

  lemma MulMod(m: int, n: int)
    requires n > 0
    ensures (n * m) % n == 0
  {
    DivModUnique(n * m, n, m, 0);
  }

  lemma ModShift(k: int, y: int, n: int)
    requires n > 0
    ensures (n * k + y) % n == y % n
  {
    DivModUnique(n * k + y, n, k + y / n, y % n);
  }

  lemma MulCancel(c: int, a: int, b: int)
    requires c > 0 && c * a == c * b
    ensures a == b
  {
    if a > b {
      assert c * (a - b) == c * a - c * b;
      MulAtLeast(c, a - b);
    } else if a < b {
      assert c * (b - a) == c * b - c * a;
      MulAtLeast(c, b - a);
    }
  }

  /** A multiple of g strictly between -g and g is zero. */
  lemma SmallMultiple(g: int, d: int)
    requires g > 0 && -g < g * d < g
    ensures d == 0
  {
    if d >= 1 {
      MulAtLeast(g, d);
    } else if d <= -1 {
      assert g * (-d) == -(g * d);
      MulAtLeast(g, -d);
    }
  }

  lemma SubMul(a: int, b: int, c: int)
    ensures (a - b) * c == a * c - b * c
  {
  }

  lemma MulMono(a: int, b: int, c: int)
    requires a <= b && c >= 0
    ensures a * c <= b * c
  {
    assert b * c - a * c == (b - a) * c;
  }

  /** A quotient stays below g when the dividend stays below g multiples of the divisor. */
  lemma DivBelow(q: int, d: int, g: int)
    requires d > 0 && 0 <= q < g * d
    ensures q / d < g
  {
    assert q == d * (q / d) + q % d;
    if q / d >= g {
      MulMono(g, q / d, d);
    }
  }

  /** Two numbers with the same remainder differ by a multiple of the divisor. */
  lemma SameRemainder(a: int, b: int, n: int) returns (k: int)
    requires n > 0 && a % n == b % n
    ensures a - b == n * k
  {
    assert a == n * (a / n) + a % n;
    assert b == n * (b / n) + b % n;
    k := a / n - b / n;
    assert n * k == n * (a / n) - n * (b / n);
  }
}
