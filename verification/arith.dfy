/** Small facts about Euclidean division that the pixel-index arithmetic needs. */
module Arith {

  /** `a == q*b + r` with `0 <= r < b` determines the quotient and the remainder. */
  lemma DivModUnique(a: int, b: int, q: int, r: int)
    requires b > 0 && 0 <= r < b
    requires a == q * b + r
    ensures a / b == q && a % b == r
  {
    var q0, r0 := a / b, a % b;
    assert a == q0 * b + r0;
    assert (q - q0) * b == r0 - r;
    if q > q0 {
      MulAtLeast(q - q0, b);
    } else if q < q0 {
      MulAtLeast(q0 - q, b);
    }
  }

  lemma MulMono(a: int, b: int, c: nat)
    requires a <= b
    ensures a * c <= b * c
  {
    assert b * c == a * c + (b - a) * c;
  }

  lemma MulAtLeast(n: int, b: int)
    requires n >= 1 && b > 0
    ensures n * b >= b
  {
    assert n * b == (n - 1) * b + b;
  }

  /** An index below `w*h` has a row (quotient by `w`) below `h`. */
  lemma QuotientBelow(p: nat, w: nat, h: nat)
    requires w > 0 && p < w * h
    ensures p / w < h
  {
    var q := p / w;
    assert p == q * w + p % w;
    if q >= h {
      MulMono(h, q, w);
    }
  }
}
