/** Facts about division and products that the solver does not find by itself. */
module Arith {

  lemma MulMod(q: int, r: int, m: int)
    requires 0 <= r < m
    ensures (m * q + r) % m == r && (m * q + r) / m == q
  {
    var x := m * q + r;
    var t := q - x / m;
    assert m * t == m * q - m * (x / m);
    assert m * t == x % m - r;
    SmallMultiple(m, t);
  }

  lemma MultiplesApart(x: int, y: int, m: int)
    requires 0 < m && x % m == 0 && y % m == 0
    ensures (x - y) % m == 0
  {
    assert x == m * (x / m) && y == m * (y / m);
    assert m * (x / m - y / m) == m * (x / m) - m * (y / m);
    MulMod(x / m - y / m, 0, m);
  }

  lemma SmallMultiple(m: int, t: int)
    requires 0 < m && -m < m * t < m
    ensures t == 0
  {
    MulGrows(m, t);
  }

  lemma MulGrows(m: int, t: int)
    requires 0 < m
    ensures t >= 1 ==> m * t >= m
    ensures t <= -1 ==> m * t <= -m
  {
    if t >= 1 { assert m * t == m + m * (t - 1); }
    if t <= -1 { assert m * t == -m + m * (t + 1); }
  }

  lemma Order(a: nat, x: nat, y: nat)
    requires x <= y
    ensures a * x <= a * y
  {
  }

  /** Dividing twice is dividing by the product. */
  lemma DivDiv(n: nat, a: nat, b: nat)
    requires a > 0 && b > 0
    ensures a * b > 0 && n / a / b == n / (a * b)
  {
    var q, r := n / a / b, n / a % b;
    assert n == a * (b * q + r) + n % a;
    assert a * (b * q + r) == (a * b) * q + a * r;
    Order(a, r + 1, b);
    assert a * (r + 1) == a * r + a;
    MulMod(q, a * r + n % a, a * b);
  }
}
