/** Remainders of natural numbers. */
module Arithmetic {
  lemma SameRemainder(a: nat, b: nat, m: nat, q: int)
    requires m > 0 && b == a + m * q
    ensures a % m == b % m
  {
    assert b == m * (a / m + q) + a % m;
    RemainderIs(b, m, a / m + q, a % m);
  }

  lemma RemainderIs(b: int, m: nat, q: int, r: nat)
    requires m > 0 && b == m * q + r && r < m
    ensures b % m == r
  {
    Multiples(m, b / m - q);
    assert m * (b / m - q) == r - b % m;
  }

  lemma Multiples(m: nat, k: int)
    ensures k >= 1 ==> m * k >= m
    ensures k <= -1 ==> m * k <= 0 - m
    ensures k <= 0 ==> m * k <= 0
  {
  }

  lemma AddToRemainder(a: nat, m: nat, c: nat)
    requires m > 0
    ensures (a % m + c) % m == (a + c) % m
  {
    assert a == m * (a / m) + a % m;
    SameRemainder(a % m + c, a + c, m, a / m);
  }

  lemma MultiplyRemainder(a: nat, m: nat, c: nat)
    requires m > 0
    ensures c * (a % m) % m == c * a % m
  {
    assert c * a == c * (a % m) + m * (c * (a / m)) by {
      assert a == m * (a / m) + a % m;
      Distribute(c, m, a / m, a % m);
    }
    SameRemainder(c * (a % m), c * a, m, c * (a / m));
  }

  lemma Distribute(c: nat, m: nat, q: nat, r: nat)
    ensures c * (m * q + r) == c * r + m * (c * q)
  {
  }

  lemma Divide(x: nat, m: nat) returns (q: nat, r: nat)
    requires m > 0
    ensures x == m * q + r && r == x % m
  {
    q, r := x / m, x % m;
  }
}
