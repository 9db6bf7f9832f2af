/** Products and quotients of natural numbers. */
module Division {

  lemma MulSteps(d: nat, x: int, y: int)
    ensures x < y ==> d * x + d <= d * y
    ensures d * (x + y) == d * x + d * y && d * (x - y) == d * x - d * y
  {
    if x < y {
      assert d * (y - x) >= d by { assert d * (y - x) == d + d * (y - x - 1); }
    }
  }

  lemma DivIs(x: nat, d: nat, q: nat)
    requires d > 0 && d * q <= x < d * q + d
    ensures x / d == q && x % d == x - d * q
  {
    assert d * (x / d) <= x < d * (x / d) + d;
    MulSteps(d, q, x / d);
    MulSteps(d, x / d, q);
  }

  lemma DivMul(x: nat, d: nat)
    requires d > 0
    ensures d * (x / d) <= x < d * (x / d) + d && x % d == x - d * (x / d)
  {
  }

  lemma DivGe(x: nat, d: nat, b: nat)
    requires d > 0
    ensures b <= x / d <==> d * b <= x
  {
    DivMul(x, d);
    MulSteps(d, b, x / d);
    MulSteps(d, x / d, b);
  }

  /** x / d rounded up, the way the source writes it. */
  function Ceil(x: nat, d: nat): (q: nat)
    requires d > 0
  {
    x / d + if x % d != 0 then 1 else 0
  }

  lemma CeilIs(x: nat, d: nat, q: nat)
    requires d > 0 && d * q - d < x <= d * q
    ensures Ceil(x, d) == q
  {
    if x == d * q {
      DivIs(x, d, q);
    } else {
      assert d * (q - 1) == d * q - d by { MulSteps(d, q, 1); }
      DivIs(x, d, q - 1);
    }
  }

  lemma CeilBounds(x: nat, d: nat)
    requires d > 0
    ensures d * Ceil(x, d) - d < x <= d * Ceil(x, d)
  {}

  /** x rounded down to a multiple of d. */
  function FloorTo(x: nat, d: nat): (r: nat)
    requires d > 0
    ensures r <= x < r + d
  {
    DivMul(x, d);
    d * (x / d)
  }

  lemma FloorIs(x: nat, d: nat, q: nat)
    requires d > 0 && d * q <= x < d * q + d
    ensures FloorTo(x, d) == d * q
  {
    DivIs(x, d, q);
  }

  lemma FloorConvex(x: nat, y: nat, d: nat)
    requires d > 0 && FloorTo(x, d) <= y <= x
    ensures FloorTo(y, d) == FloorTo(x, d)
  {
    FloorIs(y, d, x / d);
  }
}
