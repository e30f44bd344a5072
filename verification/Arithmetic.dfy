/** Division and remainder of variables by variables. */
module Arithmetic {

  lemma SmallMultiple(m: nat, t: int)
    requires 0 - m < m * t < m
    ensures t == 0
  {
  }

  lemma DivisionUnique(x: nat, m: nat, q: nat, r: nat)
    requires r < m && x == m * q + r
    ensures x % m == r && x / m == q
  {
    var q', r' := x / m, x % m;
    assert m * (q - q') == r' - r by {
      assert x == m * q' + r';
    }
    SmallMultiple(m, q - q');
  }
}
