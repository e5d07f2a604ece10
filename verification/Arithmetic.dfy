/** Small facts about products and quotients, stated once so that other proofs stay linear. */
module Arithmetic {

  /** Go's remainder takes the sign of the dividend. */
  function Rem(a: int, b: int): int
    requires b > 0
  {
    if a >= 0 then a % b else -((-a) % b)
  }

  /** .. and its division truncates. */
  function Quo(a: int, b: int): int
    requires b > 0
  {
    if a >= 0 then a / b else -((-a) / b)
  }

  lemma MulMonotone(a: int, b: int, c: int)
    requires a <= b && c >= 0
    ensures a * c <= b * c
  {
  }

  lemma MulStrict(a: int, b: int, c: int)
    requires a < b && c > 0
    ensures a * c < b * c
  {
  }

  lemma MulDistributes(a: int, b: int, c: int)
    ensures (a + b) * c == a * c + b * c
    ensures (a - b) * c == a * c - b * c
    ensures c * (a + b) == c * a + c * b
  {
  }

  lemma QuotientBelow(x: int, d: int, c: int)
    requires d > 0
    ensures x / d < c <==> x < c * d
  {
    var p := x / d;
    var r := x % d;
    assert x == p * d + r;
    if p < c {
      MulMonotone(p + 1, c, d);
      MulDistributes(p, 1, d);
    } else {
      MulMonotone(c, p, d);
    }
  }

  lemma MulAssociates(a: int, b: int, c: int)
    ensures (a * b) * c == a * (b * c)
  {
  }

  lemma MultipleHasNoRemainder(k: int, d: int)
    requires d > 0
    ensures (k * d) % d == 0 && (k * d) / d == k
  {
    QuotientBelow(k * d, d, k);
    QuotientBelow(k * d, d, k + 1);
    MulDistributes(k, 1, d);
  }

  lemma NextMultiple(x: int, d: int)
    requires d > 0 && x % d == 0
    ensures (x + d) % d == 0
  {
    MulDistributes(x / d, 1, d);
    MultipleHasNoRemainder(x / d + 1, d);
  }

  lemma MultiplesAreApart(x: int, y: int, d: int)
    requires d > 0 && x % d == 0 && y % d == 0
    ensures x == y || x + d <= y || y + d <= x
  {
    var a, b := x / d, y / d;
    assert x == a * d && y == b * d;
    if a < b {
      MulMonotone(a + 1, b, d);
      MulDistributes(a, 1, d);
    } else if b < a {
      MulMonotone(b + 1, a, d);
      MulDistributes(b, 1, d);
    }
  }
}
