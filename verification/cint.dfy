/** C integer arithmetic the typesetter relies on: `/` on `int` truncates toward
    zero, and `>> 6` on a signed 26.6 fixed-point value drops the fraction
    (an arithmetic shift, so it rounds toward minus infinity).

    Dafny's own `/` is Euclidean; for a positive divisor it is floor division,
    which is what an arithmetic right shift computes. */
module CInt {

  /** C's `a / b` on `int`: the quotient truncated toward zero. */
  function Div(a: int, b: int): int
    requires b != 0
  {
    var q := Abs(a) / Abs(b);
    if (a < 0) == (b < 0) then q else -q
  }

  function Abs(a: int): nat {
    if a < 0 then -a else a
  }

  /** `v >> 6` on a signed fixed-point value with six fraction bits. */
  function Shr6(v: int): int {
    v / 64
  }

  /** The truncated quotient is the one whose remainder takes the dividend's
      sign and is smaller than the divisor in magnitude. */
  lemma DivRemainder(a: int, b: int)
    requires b != 0
    ensures Abs(a - Div(a, b) * b) < Abs(b)
    ensures a >= 0 ==> a - Div(a, b) * b >= 0
    ensures a <= 0 ==> a - Div(a, b) * b <= 0
  {
    var q := Abs(a) / Abs(b);
    var r := Abs(a) % Abs(b);
    assert Abs(a) == q * Abs(b) + r;
    if b < 0 {
      assert q * Abs(b) == -(q * b);
    }
    if (a < 0) == (b < 0) {
      assert Div(a, b) * b == q * b;
    } else {
      assert Div(a, b) * b == -(q * b);
    }
  }

  /** A quotient is determined by a remainder in `[0, b)`. */
  lemma DivUnique(a: int, b: int, q: int)
    requires b > 0 && q * b <= a < q * b + b
    ensures a / b == q
  {
    var d := a / b - q;
    assert a == (a / b) * b + a % b;
    assert d * b == a - a % b - q * b;
  }

  /** Dividing an exact multiple gives the factor back, in C as in Dafny. */
  lemma DivMultiple(a: int, b: int)
    requires b > 0
    ensures Div(a * b, b) == a
  {
    if a >= 0 {
      DivUnique(a * b, b, a);
    } else {
      assert Abs(a * b) == (-a) * b;
      DivUnique((-a) * b, b, -a);
    }
  }

  /** For a positive divisor, C division is floor division on a non-negative
      dividend and ceiling division on a negative one. */
  lemma DivPositive(a: int, b: int)
    requires b > 0
    ensures a >= 0 ==> Div(a, b) == a / b
    ensures a < 0 ==> Div(a, b) == -((-a) / b)
  {
  }

  /** Rounding `a / b` up, written with floor division. */
  function CeilDiv(a: int, b: int): int
    requires b > 0
  {
    (a + b - 1) / b
  }

  /** Negating around a floor quotient gives the ceiling quotient. */
  lemma NegFloorIsCeil(a: int, b: int)
    requires b > 0
    ensures -((-a) / b) == CeilDiv(a, b)
  {
    var q := (-a) / b;
    var r := (-a) % b;
    assert -a == q * b + r;
    if r == 0 {
      DivUnique(a + b - 1, b, -q);
    } else {
      assert a + b - 1 == -q * b + (b - 1 - r);
      DivUnique(a + b - 1, b, -q);
    }
  }

  /** The ceiling quotient is the floor quotient, plus one unless `b` divides
      `a`. */
  lemma CeilAboveFloor(a: int, b: int)
    requires b > 0
    ensures a % b == 0 ==> CeilDiv(a, b) == a / b
    ensures a % b != 0 ==> CeilDiv(a, b) == a / b + 1
  {
    var q := a / b;
    var r := a % b;
    assert a == q * b + r;
    if r == 0 {
      DivUnique(a + b - 1, b, q);
    } else {
      assert a + b - 1 == q * b + b + (r - 1);
      DivUnique(a + b - 1, b, q + 1);
    }
  }

  /** C division is odd in the dividend. */
  lemma DivOdd(a: int, b: int)
    requires b > 0
    ensures Div(-a, b) == -Div(a, b)
  {
    var q := Abs(a) / b;
    assert Abs(-a) == Abs(a) && Abs(b) == b;
    if a == 0 {
      assert Div(a, b) == 0 && Div(-a, b) == 0;
    } else if a > 0 {
      assert Div(a, b) == q && Div(-a, b) == -q;
    } else {
      assert Div(a, b) == -q && Div(-a, b) == q;
    }
  }
}
