/**
 * Integer facts the model needs, and the Java integer operators whose
 * meaning differs from Dafny's.
 */
module Arith {

  /** Java's `/` on `int`: the quotient is truncated toward zero. */
  function JavaDiv(a: int, b: int): (q: int)
    requires b != 0
    ensures a >= 0 && b > 0 ==> q == a / b
    ensures (a >= 0) == (b > 0) || a == 0 ==> q >= 0
  {
    var q := (if a < 0 then -a else a) / (if b < 0 then -b else b);
    if (a >= 0) == (b > 0) then q else -q
  }

  /** Java's `%` on `int`: the remainder takes the sign of the dividend. */
  function JavaRem(a: int, b: int): (r: int)
    requires b != 0
    ensures a >= 0 && b > 0 ==> r == a % b
  {
    a - b * JavaDiv(a, b)
  }

  /** `Math.abs` on an unbounded integer. */
  function Abs(v: int): (r: int)
    ensures r >= 0 && (r == v || r == -v)
  {
    if v < 0 then -v else v
  }

  lemma MulAtLeast(a: int, d: int)
    requires a >= 1 && d > 0
    ensures a * d >= d
  {
  }

  lemma MulLe(a: nat, b: int, c: int)
    requires b <= c
    ensures a * b <= a * c
  {
  }

  /** One more column of `rows` cells starts where the previous one stopped. */
  lemma MulNext(i: nat, rows: nat, columns: nat)
    requires i < columns
    ensures (i + 1) * rows == i * rows + rows <= columns * rows
  {
    MulLe(rows, i + 1, columns);
  }

  /** Euclidean division has exactly one quotient and remainder. */
  lemma DivModUnique(k: int, d: int, q: int, r: int)
    requires d > 0 && k == q * d + r && 0 <= r < d
    ensures k / d == q && k % d == r
  {
    var q', r' := k / d, k % d;
    assert (q - q') * d == r' - r;
    if q > q' {
      MulAtLeast(q - q', d);
    } else if q < q' {
      MulAtLeast(q' - q, d);
    }
  }

  lemma DivMono(x: int, y: int, c: int)
    requires 0 < c && x <= y
    ensures x / c <= y / c
  {
    var qx, qy := x / c, y / c;
    if qx > qy {
      MulAtLeast(qx - qy, c);
    }
  }

  lemma DivLowerBound(a: int, c: int, q: int)
    requires 0 < c && q * c <= a
    ensures q <= a / c
  {
    var q' := a / c;
    if q > q' {
      MulAtLeast(q - q', c);
    }
  }

  lemma DivUpperBound(a: int, c: int, q: int)
    requires 0 < c && a < q * c
    ensures a / c < q
  {
    var q' := a / c;
    if q' >= q {
      MulLe(c, q, q');
    }
  }

  /** Stepping `k` to `k + 1` either advances the remainder or carries into the quotient. */
  lemma DivModSucc(k: nat, d: nat)
    requires d > 0
    ensures k % d == d - 1 ==> (k + 1) / d == k / d + 1 && (k + 1) % d == 0
    ensures k % d < d - 1 ==> (k + 1) / d == k / d && (k + 1) % d == k % d + 1
  {
    if k % d == d - 1 {
      DivModUnique(k + 1, d, k / d + 1, 0);
    } else {
      DivModUnique(k + 1, d, k / d, k % d + 1);
    }
  }
}
