/** Integer facts shared by the index calculations. */
module Arith {

  /** Rounded-up quotient, as in `div_up` and the epilogue's `(x + y - 1) / y`. */
  function CeilDiv(x: nat, y: nat): (q: nat)
    requires y > 0
  {
    (x + y - 1) / y
  }

  function Min(a: int, b: int): (r: int)
    ensures r <= a && r <= b && (r == a || r == b)
  {
    if a <= b then a else b
  }

  function Max(a: int, b: int): (r: int)
    ensures r >= a && r >= b && (r == a || r == b)
  {
    if a >= b then a else b
  }

  lemma DivModUnique(a: int, q: int, r: int, b: int)
    requires b > 0 && 0 <= r < b && a == q * b + r
    ensures a / b == q && a % b == r
  {
    var d := a / b - q;
    assert a == (a / b) * b + a % b;
    assert d * b == r - a % b;
    if d >= 1 {
      MulLe(1, d, b);
    } else if d <= -1 {
      MulLe(d, -1, b);
    }
  }

  lemma MulLe(x: int, y: int, k: int)
    requires x <= y && k >= 0
    ensures x * k <= y * k
  {
  }

  /** The quotient is the number q with q*b <= a < (q+1)*b. */
  lemma DivBounds(a: int, b: int)
    requires b > 0
    ensures a / b * b <= a < a / b * b + b
    ensures 0 <= a ==> 0 <= a / b
  {
  }

  lemma DivLess(a: int, m: nat, b: int)
    requires b > 0 && 0 <= a < m * b
    ensures 0 <= a / b < m
  {
  }

  /** CeilDiv(x, y) is the least n with x <= n * y. */
  lemma CeilDivLeast(x: nat, y: nat, n: int)
    requires y > 0
    ensures x <= CeilDiv(x, y) * y
    ensures CeilDiv(x, y) * y < x + y
    ensures x <= n * y <==> CeilDiv(x, y) <= n
  {
    var q: int := CeilDiv(x, y);
    DivBounds(x + y - 1, y);
    if n >= q {
      MulLe(q, n, y);
    } else {
      MulLe(n, q - 1, y);
    }
  }

  /** Rounding up twice is rounding up once by the product. */
  lemma CeilDivNested(x: nat, a: nat, b: nat)
    requires a > 0 && b > 0
    ensures a * b > 0 && CeilDiv(CeilDiv(x, a), b) == CeilDiv(x, a * b)
  {
    MulPos(a, b);
    var n := CeilDiv(CeilDiv(x, a), b);
    var m := CeilDiv(x, a * b);
    CeilDivLeast(CeilDiv(x, a), b, n);
    CeilDivLeast(x, a, n * b);
    assert n * b * a == n * (a * b) by { MulAssoc(n, a, b); }
    CeilDivLeast(x, a * b, n);
    CeilDivLeast(x, a * b, m);
    assert m * b * a == m * (a * b) by { MulAssoc(m, a, b); }
    CeilDivLeast(x, a, m * b);
    CeilDivLeast(CeilDiv(x, a), b, m);
  }

  lemma MulAssoc(n: int, a: int, b: int)
    ensures n * b * a == n * (a * b)
  {
  }

  lemma MulSucc(k: int, c: int)
    ensures (k + 1) * c == k * c + c
  {
  }

  lemma MulPos(a: int, b: int)
    requires a > 0 && b > 0
    ensures a * b > 0
  {
  }

  lemma MulNonneg(a: int, b: int)
    requires a >= 0 && b >= 0
    ensures a * b >= 0
  {
  }

  /** Two-digit numbers: x*b + y determines x and y. */
  lemma PairUnique(x: int, y: int, x': int, y': int, b: int)
    requires b > 0 && 0 <= y < b && 0 <= y' < b
    requires x * b + y == x' * b + y'
    ensures x == x' && y == y'
  {
    DivModUnique(x * b + y, x, y, b);
    DivModUnique(x' * b + y', x', y', b);
  }

  /** A two-digit number stays below the product of the two ranges. */
  lemma PairBound(x: int, y: int, m: int, b: int)
    requires b > 0 && 0 <= x < m && 0 <= y < b
    ensures 0 <= x * b + y < m * b
  {
    MulNonneg(x, b);
    MulLe(x, m - 1, b);
  }
}
