/** Justified expansion of a line (type.c, `layout`): the `exp` extra pixels of
    a line are spread over its `s` spaces, the space numbered `e` receiving
    `exp*(e+1)/s - exp*e/s` in C integer division. */
module Justify {
  import opened CInt

  /** The extra advance of space number `e` out of `s`. */
  function Share(exp: int, e: nat, s: int): int
    requires s > 0
  {
    Div(exp * (e + 1), s) - Div(exp * e, s)
  }

  /** The extra advance of the first `k` spaces together. */
  function SharesUpTo(exp: int, s: int, k: nat): int
    requires s > 0
  {
    if k == 0 then 0 else SharesUpTo(exp, s, k - 1) + Share(exp, k - 1, s)
  }

  /** The shares of the first `k` spaces telescope to `exp*k/s`. */
  lemma {:induction false} SharesTelescope(exp: int, s: int, k: nat)
    requires s > 0
    ensures SharesUpTo(exp, s, k) == Div(exp * k, s)
  {
    if k == 0 {
      assert exp * k == 0;
    } else {
      var j: nat := k - 1;
      SharesTelescope(exp, s, j);
      assert j + 1 == k;
      assert SharesUpTo(exp, s, k) == SharesUpTo(exp, s, j) + Share(exp, j, s);
    }
  }

  /** Over all `s` spaces the shares add up to exactly `exp`, whatever its sign:
      no pixel of the expansion is lost to rounding. */
  lemma SharesSumToExp(exp: int, s: int)
    requires s > 0
    ensures SharesUpTo(exp, s, s) == exp
  {
    SharesTelescope(exp, s, s);
    DivMultiple(exp, s);
  }

  /** Every share is `exp/s` rounded down or rounded up, so the spaces of a
      justified line differ by at most one pixel; when `s` divides `exp` they
      are all equal. */
  lemma ShareIsFloorOrCeil(exp: int, e: nat, s: int)
    requires s > 0
    ensures Share(exp, e, s) == exp / s || Share(exp, e, s) == CeilDiv(exp, s)
    ensures exp % s == 0 ==> Share(exp, e, s) == exp / s
  {
    CeilAboveFloor(exp, s);
    if exp >= 0 {
      ShareOfNonNegative(exp, e, s);
      FloorStep(exp * e, exp, s);
    } else {
      var m := -exp;
      ShareOfNegative(exp, e, s);
      ShareOfNonNegative(m, e, s);
      FloorStep(m * e, m, s);
      CeilAboveFloor(m, s);
      NegFloorIsCeil(exp, s);
      NegFloorIsCeil(m, s);
      if exp % s == 0 {
        NegatedMultiple(exp, s);
      }
    }
  }

  /** With a non-negative expansion the C quotients are floor quotients. */
  lemma ShareOfNonNegative(m: int, e: nat, s: int)
    requires m >= 0 && s > 0
    ensures m * e >= 0
    ensures Share(m, e, s) == (m * e + m) / s - (m * e) / s
  {
    assert m * (e + 1) == m * e + m;
    DivPositive(m * e + m, s);
    DivPositive(m * e, s);
  }

  /** C division is odd in the dividend, and so is each share. */
  lemma ShareOfNegative(exp: int, e: nat, s: int)
    requires s > 0
    ensures Share(exp, e, s) == -Share(-exp, e, s)
  {
    var m := -exp;
    assert exp * (e + 1) == -(m * (e + 1));
    assert exp * e == -(m * e);
    DivOdd(m * (e + 1), s);
    DivOdd(m * e, s);
  }

  lemma NegatedMultiple(a: int, s: int)
    requires s > 0 && a % s == 0
    ensures (-a) % s == 0
  {
    assert a == (a / s) * s;
    assert -a == (-(a / s)) * s;
    DivUnique(-a, s, -(a / s));
  }

  /** Adding `c >= 0` to a non-negative dividend raises its floor quotient by
      `c/s` or by one more. */
  lemma FloorStep(a: int, c: int, s: int)
    requires s > 0 && a >= 0 && c >= 0
    ensures (a + c) / s - a / s == c / s || (a + c) / s - a / s == c / s + 1
    ensures c % s == 0 ==> (a + c) / s - a / s == c / s
    ensures (a + c) / s - a / s == c / s + 1 ==> c % s != 0
  {
    var qa, ra := a / s, a % s;
    var qc, rc := c / s, c % s;
    assert a == qa * s + ra;
    assert c == qc * s + rc;
    assert a + c == (qa + qc) * s + (ra + rc);
    if ra + rc < s {
      DivUnique(a + c, s, qa + qc);
    } else {
      assert a + c == (qa + qc + 1) * s + (ra + rc - s);
      DivUnique(a + c, s, qa + qc + 1);
    }
  }
}
