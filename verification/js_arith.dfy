/**
 Integer arithmetic as the browser performs it on the counts, indices and
 page numbers of the sliders. JavaScript numbers are doubles, but every
 value the sliders compute is a small integer, so the model uses `int`
 and writes out the two operators whose meaning differs from Dafny's:
 the truncated remainder `%` and `Math.ceil` of a quotient.
 */
module JsArith {

  /** JavaScript's `a % b` for a positive divisor: the remainder of
      division truncated toward zero, so its sign follows the dividend
      (Dafny's own `%` is Euclidean and never negative). */
  function JsRem(a: int, b: int): (r: int)
    requires b > 0
    ensures a >= 0 ==> 0 <= r < b
    ensures a < 0 ==> -b < r <= 0
    ensures (a - r) % b == 0
  {
    RemainderLeavesMultiple(if a >= 0 then a else -a, b);
    if a >= 0 then a % b else -((-a) % b)
  }

  /** Subtracting its remainder leaves a multiple of the divisor. */
  lemma RemainderLeavesMultiple(a: int, b: int)
    requires b > 0
    ensures (a - a % b) % b == 0
    ensures (-(a - a % b)) % b == 0
  {
    var q := a / b;
    assert a - a % b == q * b;
    assert -(a - a % b) == (-q) * b;
    MultipleMod(q, b);
    MultipleMod(-q, b);
  }

  /** A multiple of `b` leaves no remainder. */
  lemma MultipleMod(k: int, b: int)
    requires b > 0
    ensures (k * b) % b == 0
  {
    var q, r := (k * b) / b, (k * b) % b;
    assert k * b == q * b + r;
    assert r == (k - q) * b;
    if k - q >= 1 {
      MulMonotone(1, k - q, b);
    } else if k - q <= -1 {
      MulMonotone(k - q, -1, b);
    }
  }

  /** `Math.ceil(n / d)` for a count `n` and a positive divisor `d`:
      the least number of blocks of `d` that cover `n`. */
  function CeilDiv(n: nat, d: nat): (r: nat)
    requires d > 0
    ensures r * d >= n
    ensures r == 0 || (r - 1) * d < n
  {
    (n + d - 1) / d
  }

  /** Two values in `[0, b)` that are congruent modulo `b` are equal:
      the uniqueness that makes every wrap-around rule a function of the
      residue alone. */
  lemma SameResidue(x: int, y: int, b: int)
    requires b > 0
    requires 0 <= x < b && 0 <= y < b
    requires (x - y) % b == 0
    ensures x == y
  {
  }

  /** Congruence modulo `b` is transitive. */
  lemma CongruentTrans(x: int, y: int, z: int, b: int)
    requires b > 0 && (x - y) % b == 0 && (y - z) % b == 0
    ensures (x - z) % b == 0
  {
    var k1, k2 := (x - y) / b, (y - z) / b;
    assert x - y == k1 * b;
    assert y - z == k2 * b;
    assert x - z == (k1 + k2) * b;
    MultipleMod(k1 + k2, b);
  }

  /** Congruence modulo `b` is symmetric. */
  lemma CongruentSym(x: int, y: int, b: int)
    requires b > 0 && (x - y) % b == 0
    ensures (y - x) % b == 0
  {
    var k := (x - y) / b;
    assert x - y == k * b;
    assert y - x == (-k) * b;
    MultipleMod(-k, b);
  }

  /** Euclidean `/` of a non-negative index is JavaScript's
      `Math.floor(i / d)`: `i` lies in the `q`-th block of `d` exactly
      when `q * d <= i < (q + 1) * d`. */
  lemma FloorDivBlock(i: int, d: int, q: int)
    requires i >= 0 && d > 0
    ensures i / d == q <==> q * d <= i < q * d + d
  {
    var k := i / d;
    assert i == k * d + i % d;
    if q * d <= i < q * d + d {
      if k > q {
        MulMonotone(q + 1, k, d);
      } else if k < q {
        MulMonotone(k + 1, q, d);
      }
    }
  }

  /** Multiplication by a positive factor preserves order. */
  lemma MulMonotone(a: int, b: int, d: int)
    requires a <= b && d > 0
    ensures a * d <= b * d
  {
    assert b * d - a * d == (b - a) * d;
  }
}
