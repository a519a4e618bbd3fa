/** Products, quotients and least values. */
module Arithmetic {

  function Least(a: nat, b: nat): nat {
    if a < b then a else b
  }

  lemma Scale(a: int, b: int, c: nat)
    ensures a <= b ==> a * c <= b * c
  {
  }

  lemma DivMod(v: nat, a: nat)
    requires a > 0
    ensures v == v / a * a + v % a && v - v % a == v / a * a
  {
  }

  lemma AtLeastOnce(d: int, a: nat)
    ensures d >= 1 ==> d * a >= a
    ensures d <= -1 ==> d * a + a <= 0
  {
    if d >= 1 {
      assert d * a == (d - 1) * a + a;
    } else if d <= -1 {
      assert d * a + a == (d + 1) * a;
    }
  }

  lemma Quotient(v: nat, q: nat, r: nat, a: nat)
    requires v == q * a + r && r < a
    ensures v / a == q && v % a == r
  {
    DivMod(v, a);
    var d := v / a - q;
    assert d * a == r - v % a;
    AtLeastOnce(d, a);
  }

  lemma ModNext(v: nat, a: nat)
    requires a > 0
    ensures (v % a + 1) % a == (v + 1) % a
  {
    DivMod(v, a);
    var q, r := v / a, v % a;
    if r + 1 < a {
      Quotient(r + 1, 0, r + 1, a);
      Quotient(v + 1, q, r + 1, a);
    } else {
      Quotient(r + 1, 1, 0, a);
      assert (q + 1) * a == q * a + a;
      Quotient(v + 1, q + 1, 0, a);
    }
  }
}
