/** Division by a positive number, for quotients that are known. */
module Arith {

  lemma Multiple(k: int, b: int)
    requires b > 0
    ensures k > 0 ==> k * b >= b
    ensures k < 0 ==> k * b <= -b
  {
    if k > 0 {
      assert (k - 1) * b >= 0;
    } else if k < 0 {
      assert (-k - 1) * b >= 0;
    }
  }

  lemma DivIs(x: int, b: int, q: int, r: int)
    requires b > 0 && x == q * b + r && 0 <= r < b
    ensures x / b == q && x % b == r
  {
    var q', r' := x / b, x % b;
    assert x == q' * b + r';
    assert (q' - q) * b == r - r';
    Multiple(q' - q, b);
  }

  /** yf_align and its kin: the next multiple of `a`. */
  function RoundUp(x: int, a: int): (r: int)
    requires a > 0
    ensures x <= r < x + a && r % a == 0
  {
    var q := (x + a - 1) / a;
    assert x + a - 1 == q * a + (x + a - 1) % a;
    DivIs(q * a, a, q, 0);
    q * a
  }

  lemma RoundUpOrder(x: int, y: int, a: int)
    requires a > 0 && x <= y
    ensures RoundUp(x, a) <= RoundUp(y, a)
  {
    var p, q := (x + a - 1) / a, (y + a - 1) / a;
    assert x + a - 1 == p * a + (x + a - 1) % a && y + a - 1 == q * a + (y + a - 1) % a;
    if p <= q {
      MulOrder(p, q, a);
    } else {
      MulOrder(q + 1, p, a);
    }
  }

  lemma MulOrder(p: int, q: int, a: int)
    requires a > 0 && p <= q
    ensures p * a <= q * a
  {
    assert (q - p) * a >= 0;
  }

  lemma DivBounds(x: int, b: int, k: int)
    requires b > 0 && 0 <= k && k * b <= x
    ensures k <= x / b <= x
  {
    var q, r := x / b, x % b;
    assert x == q * b + r;
    assert (k - q) * b <= r;
    Multiple(k - q, b);
    MulMono(q, q, 1, b);
  }

  lemma MulMono(a: int, b: int, c: int, d: int)
    requires 0 <= a <= b && 0 <= c <= d
    ensures a * c <= b * d
  {
    assert (b - a) * c >= 0 && b * (d - c) >= 0;
  }
}
