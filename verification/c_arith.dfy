/**
 C arithmetic that differs from Dafny's built-in operators.

 Dafny's `/` on `int` is Euclidean and its `.Floor` rounds toward negative
 infinity; C99 truncates both an integer quotient and a float-to-int
 conversion toward zero. The firmware relies on both, so they are written out
 here once and used by the rest of the model.
 */
module CArith {

  /** Absolute value of an integer. */
  function Abs(x: int): (r: nat)
    ensures r == x || r == -x
  {
    if x < 0 then -x else x
  }

  function RMin(a: real, b: real): (r: real)
    ensures r <= a && r <= b
    ensures r == a || r == b
  {
    if a <= b then a else b
  }

  function RMax(a: real, b: real): (r: real)
    ensures a <= r && b <= r
    ensures r == a || r == b
  {
    if a >= b then a else b
  }

  /** C99 `/` on `int`: the quotient is truncated toward zero. On
      non-negative operands it agrees with Dafny's Euclidean `/`; a dividend
      smaller than the divisor in magnitude gives 0; otherwise the quotient is
      negative exactly when the operands' signs differ. */
  function Div(a: int, b: int): (q: int)
    requires b != 0
    ensures 0 <= a && 0 < b ==> q == a / b
    ensures Abs(a) < Abs(b) ==> q == 0
    ensures q == 0 || (q < 0 <==> (a < 0) != (b < 0))
  {
    var m: int := Abs(a) / Abs(b);
    NatQuotient(Abs(a), Abs(b));
    if (a < 0) == (b < 0) then m else -m
  }

  /** Euclidean division of a natural number by a positive one. */
  lemma NatQuotient(A: nat, B: int)
    requires 0 < B
    ensures 0 <= A / B
    ensures A < B ==> A / B == 0
    ensures A / B * B <= A < A / B * B + B
  {
    var m, rem := A / B, A % B;
    assert A == m * B + rem && 0 <= rem < B;
    assert 0 < m ==> B <= m * B by {
      if 0 < m { assert m * B == (m - 1) * B + B; assert 0 <= (m - 1) * B; }
    }
  }

  /** The truncating quotient leaves a remainder `a - b*q` that is smaller
      than the divisor in magnitude and carries the sign of the dividend. */
  lemma DivTruncates(a: int, b: int)
    requires b != 0
    ensures Abs(a - b * Div(a, b)) < Abs(b)
    ensures a - b * Div(a, b) == 0 || (a - b * Div(a, b) < 0 <==> a < 0)
  {
    var A, B: int := Abs(a), Abs(b);
    var m: int := A / B;
    NatQuotient(A, B);
    var p: int := m * B;
    var rem: int := A - p;
    var q := Div(a, b);
    assert q == m || q == -m;
    SignedProduct(a, b, q, A, B, m);
    assert b * q == p || b * q == -p;
    if 0 <= a {
      assert a - b * q == rem;
    } else {
      assert a - b * q == -rem;
    }
  }

  /** The product of signed operands from their magnitudes. */
  lemma SignedProduct(a: int, b: int, q: int, A: int, B: int, m: int)
    requires A == Abs(a) && B == Abs(b) && 0 <= m
    requires q == (if (a < 0) == (b < 0) then m else -m)
    ensures 0 <= a ==> b * q == m * B
    ensures a < 0 ==> b * q == -(m * B)
  {
  }

  /** C conversion of a floating value to `int`: the fractional part is
      discarded, rounding toward zero. */
  function Trunc(x: real): (r: int)
    ensures 0.0 <= x ==> 0 <= r && r as real <= x < r as real + 1.0
    ensures x < 0.0 ==> r <= 0 && r as real - 1.0 < x <= r as real
  {
    if x >= 0.0 then x.Floor else -((-x).Floor)
  }

  /** `d` is a whole multiple of `y`. */
  predicate IsMultiple(d: real, y: real)
    requires y != 0.0
  {
    (d / y).Floor as real == d / y
  }

  // Real arithmetic facts that the solver does not find on its own once
  // products of two variables are involved.

  lemma MulLe(a: real, b: real, c: real)
    requires a <= b && 0.0 <= c
    ensures a * c <= b * c
  {
  }

  lemma MulLt(a: real, b: real, c: real)
    requires a < b && 0.0 < c
    ensures a * c < b * c
  {
  }

  lemma MulLeNeg(a: real, b: real, c: real)
    requires a <= b && c <= 0.0
    ensures b * c <= a * c
  {
  }

  lemma MulLtNeg(a: real, b: real, c: real)
    requires a < b && c < 0.0
    ensures b * c < a * c
  {
  }

  lemma DivMul(x: real, y: real)
    requires y != 0.0
    ensures (x / y) * y == x
    ensures y * (x / y) == x
  {
  }

  lemma MulDiv(f: real, y: real)
    requires y != 0.0
    ensures (y * f) / y == f
    ensures (f * y) / y == f
  {
  }

  lemma DivAddOne(x: real, y: real)
    requires y != 0.0
    ensures (x + y) / y == x / y + 1.0
  {
    var p := x / y + 1.0;
    DivMul(x, y);
    var z := y * p;
    assert z == x + y;
    MulDiv(p, y);
    assert z / y == p;
  }

  lemma DivSign(x: real, y: real)
    requires 0.0 < y
    ensures 0.0 <= x ==> 0.0 <= x / y
    ensures x < y ==> x / y < 1.0
    ensures x < 0.0 ==> x / y < 0.0
  {
    var q := x / y;
    DivMul(x, y);
    assert q * y == x;
    assert 1.0 * y == y;
    assert 0.0 * y == 0.0;
    assert q < 0.0 ==> q * y < 0.0 * y by {
      if q < 0.0 { MulLt(q, 0.0, y); }
    }
    assert 1.0 <= q ==> 1.0 * y <= q * y by {
      if 1.0 <= q { MulLe(1.0, q, y); }
    }
    assert 0.0 <= q ==> 0.0 * y <= q * y by {
      if 0.0 <= q { MulLe(0.0, q, y); }
    }
  }

  lemma ProductOfFractions(s: real, c: real)
    requires 0.0 <= s <= 1.0 && 0.0 <= c <= 1.0
    ensures 0.0 <= s * c <= 1.0
  {
    MulLe(s, 1.0, c);
    assert s * c <= 1.0 * c;
    assert 1.0 * c == c;
    MulLe(0.0, s, c);
  }

  lemma IntMulLe(a: int, b: int, c: int)
    requires a <= b && 0 <= c
    ensures c * a <= c * b
  {
  }

  lemma IntMulAsReal(a: int, b: int)
    ensures (a * b) as real == a as real * b as real
  {
  }

  lemma ScaleFloor(q: real, lo: real, y: real, x: real)
    requires lo <= q < lo + 1.0 && y != 0.0 && q * y == x
    ensures 0.0 < y ==> lo * y <= x < lo * y + y
    ensures y < 0.0 ==> lo * y + y < x <= lo * y
  {
    var hi := lo + 1.0;
    assert hi * y == lo * y + y;
    if 0.0 < y {
      MulLe(lo, q, y);
      MulLt(q, hi, y);
      assert lo * y <= q * y < hi * y;
      assert lo * y <= x < hi * y;
    } else {
      MulLeNeg(lo, q, y);
      MulLtNeg(q, hi, y);
      assert hi * y < q * y <= lo * y;
      assert hi * y < x <= lo * y;
    }
  }

  lemma ScaleCeil(q: real, hi: real, y: real, x: real)
    requires hi - 1.0 < q <= hi && 0.0 < y && q * y == x
    ensures hi * y - y < x <= hi * y
  {
    var lo := hi - 1.0;
    assert lo * y == hi * y - y;
    MulLt(lo, q, y);
    MulLe(q, hi, y);
    assert lo * y < q * y <= hi * y;
    assert lo * y < x <= hi * y;
  }
}
