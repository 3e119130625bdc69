// C integer arithmetic as the address-space code uses it: `/` and `%` on
// `int` truncate toward zero, and Nachos' `divRoundUp(n, s)` is
// `n / s + (n % s > 0 ? 1 : 0)` (from utility.h, which is not part of this
// model).
module CArith {

  /** C's `/`: the quotient truncated toward zero. */
  function CDiv(a: int, d: int): (q: int)
    requires d > 0
    ensures a >= 0 ==> q == a / d
    ensures a < 0 ==> q == -((-a) / d)
  {
    if a >= 0 then a / d else -((-a) / d)
  }

  /** C's `%`: takes the sign of the dividend. */
  function CMod(a: int, d: int): (m: int)
    requires d > 0
    ensures a >= 0 ==> m == a % d
  {
    a - d * CDiv(a, d)
  }

  lemma CDivMod(a: int, d: int)
    requires d > 0
    ensures d * CDiv(a, d) + CMod(a, d) == a
    ensures -d < CMod(a, d) < d
    ensures a >= 0 ==> 0 <= CMod(a, d)
    ensures a < 0 ==> CMod(a, d) <= 0
  {
    if a < 0 {
      var b := -a;
      assert b == d * (b / d) + b % d;
      assert CMod(a, d) == -(b % d);
    }
  }

  function DivRoundUp(n: int, s: int): int
    requires s > 0
  {
    CDiv(n, s) + (if CMod(n, s) > 0 then 1 else 0)
  }
}
