/** Triangular probing over a table of buckets. */
module Probing {
  import opened Arithmetic

  function Triangle(k: nat): nat { k * (k + 1) / 2 }

  lemma TriangleStep(k: nat)
    ensures Triangle(k + 1) == Triangle(k) + k + 1 && 2 * Triangle(k) == k * (k + 1)
  {
    assert (k + 1) * (k + 2) == k * (k + 1) + 2 * (k + 1);
    EvenProduct(k);
  }

  lemma {:induction false} EvenProduct(k: nat)
    ensures k * (k + 1) % 2 == 0
  {
    if k > 0 {
      EvenProduct(k - 1);
      assert k * (k + 1) == (k - 1) * k + 2 * k;
    }
  }

  /** The bucket of probe number `k`. */
  function ProbeAt(hash: nat, buckets: nat, k: nat): nat
    requires buckets > 0
  {
    (hash + Triangle(k)) % buckets
  }

  // ----- when the first probes visit every bucket exactly once

  predicate PowerOfTwo(m: nat) { m == 1 || (m > 1 && m % 2 == 0 && PowerOfTwo(m / 2)) }

  ghost predicate Divides(d: nat, n: int) { exists q: int :: n == d * q }

  ghost predicate AllDifferent(hash: nat, m: nat)
    requires m > 0
  {
    forall i, j | 0 <= i < j < m :: ProbeAt(hash, m, i) != ProbeAt(hash, m, j)
  }

  ghost predicate AllReached(hash: nat, m: nat)
    requires m > 0
  {
    forall b | 0 <= b < m :: Reached(hash, m, b)
  }

  ghost predicate Reached(hash: nat, m: nat, b: nat)
    requires m > 0
  {
    exists k | 0 <= k < m :: ProbeAt(hash, m, k) == b
  }

  /** Two probes meet exactly when twice the number of buckets divides the product of the difference
      and the successor of the sum of their numbers. */
  lemma MeetIff(hash: nat, m: nat, i: nat, j: nat)
    requires m > 0 && i < j
    ensures ProbeAt(hash, m, i) == ProbeAt(hash, m, j) <==> Divides(2 * m, (j - i) * (j + i + 1))
  {
    TriangleStep(i); TriangleStep(j);
    var d := Triangle(j) - Triangle(i);
    assert 2 * d == (j - i) * (j + i + 1) by { Product(i, j); }
    var a, b := hash + Triangle(i), hash + Triangle(j);
    if a % m == b % m {
      assert 2 * d == 2 * m * (b / m - a / m) by { assert b - a == m * (b / m - a / m); }
    }
    if Divides(2 * m, 2 * d) {
      var q: int :| 2 * d == 2 * m * q;
      assert d == m * q;
      SameRemainder(a, b, m, q);
    }
  }

  lemma Product(i: nat, j: nat)
    ensures (j - i) * (j + i + 1) == j * (j + 1) - i * (i + 1)
  {
  }

  /** A power of two that divides a product with an odd factor divides the other factor. */
  lemma DoubleTimes(h: int, q: int)
    ensures 2 * h * q == 2 * (h * q) && q * (2 * h) == 2 * (q * h)
  {
  }

  lemma {:induction false} OddFactor(p: nat, a: int, b: int)
    requires PowerOfTwo(p) && a % 2 == 1 && Divides(p, a * b)
    ensures Divides(p, b)
  {
    var q: int :| a * b == p * q;
    if p == 1 {
      assert b == 1 * b;
    } else {
      var h, c := p / 2, b / 2;
      DoubleTimes(h, q);
      OddTimes(a, b);
      DoubleTimes(c, a);
      assert a * c == h * q;
      OddFactor(h, a, c);
      var r: int :| c == h * r;
      DoubleTimes(h, r);
    }
  }

  lemma OddTimes(a: int, b: int)
    requires a % 2 == 1 && a * b % 2 == 0
    ensures b % 2 == 0
  {
    if b % 2 == 1 { OddProduct(a, b); }
  }

  lemma OddProduct(a: int, b: int)
    requires a % 2 == 1 && b % 2 == 1
    ensures a * b % 2 == 1
  {
    var x, y := a / 2, b / 2;
    assert a * b == 2 * (2 * x * y + x + y) + 1;
  }

  lemma TooSmall(p: nat, n: nat)
    requires 0 < n < p
    ensures !Divides(p, n)
  {
    if Divides(p, n) {
      var q: int :| n == p * q;
      Multiples(p, q);
    }
  }

  /** With a power of two of buckets no two of the first probes meet. */
  lemma NeverMeet(hash: nat, m: nat, i: nat, j: nat)
    requires PowerOfTwo(m) && i < j < m
    ensures ProbeAt(hash, m, i) != ProbeAt(hash, m, j)
  {
    hide ProbeAt, Divides;
    MeetIff(hash, m, i, j);
    assert PowerOfTwo(2 * m);
    hide PowerOfTwo;
    TooSmall(2 * m, j - i);
    TooSmall(2 * m, j + i + 1);
    OneIsOdd(i, j);
    NotProduct(2 * m, j - i, j + i + 1);
  }

  lemma OneIsOdd(i: nat, j: nat)
    requires i < j
    ensures (j - i) % 2 == 1 || (j + i + 1) % 2 == 1
  {
  }

  lemma NotProduct(p: nat, a: nat, b: nat)
    requires PowerOfTwo(p) && (a % 2 == 1 || b % 2 == 1) && !Divides(p, a) && !Divides(p, b)
    ensures !Divides(p, a * b)
  {
    hide Divides;
    assert a * b == b * a;
    if Divides(p, a * b) {
      if a % 2 == 1 { OddFactor(p, a, b); } else { OddFactor(p, b, a); }
    }
  }

  /** Every number is a power of two times an odd one. */
  lemma {:induction false} OddPart(m: nat) returns (p: nat, q: nat)
    requires m > 0
    ensures PowerOfTwo(p) && q % 2 == 1 && m == p * q && (q == 1 ==> PowerOfTwo(m))
  {
    if m % 2 == 1 {
      p, q := 1, m;
    } else {
      p, q := OddPart(m / 2);
      assert 2 * p * q == 2 * (p * q);
      p := 2 * p;
    }
  }

  /** Off the powers of two, two of the first probes meet. */
  lemma MeetUnlessPower(hash: nat, m: nat) returns (i: nat, j: nat)
    requires m > 0 && !PowerOfTwo(m)
    ensures i < j < m && ProbeAt(hash, m, i) == ProbeAt(hash, m, j)
  {
    hide ProbeAt;
    var p, q := OddPart(m);
    assert 2 * p * q == 2 * (p * q) && q * (2 * p) == 2 * p * q;
    if 2 * p < q { i, j := MeetAt(hash, m, 2 * p, q); } else { i, j := MeetAt(hash, m, q, 2 * p); }
  }

  lemma MeetAt(hash: nat, m: nat, u: nat, v: nat) returns (i: nat, j: nat)
    requires m > 0 && 2 <= u < v && u % 2 != v % 2 && u * v == 2 * m
    ensures i < j < m && ProbeAt(hash, m, i) == ProbeAt(hash, m, j)
  {
    hide ProbeAt;
    SumBelowProduct(u, v);
    i, j := (v - u - 1) / 2, (u + v - 1) / 2;
    assert j - i == u && j + i + 1 == v;
    assert (j - i) * (j + i + 1) == u * v == 2 * m * 1;
    MeetIff(hash, m, i, j);
  }

  lemma SumBelowProduct(u: nat, v: nat)
    requires u >= 2 && v >= 2
    ensures u + v <= u * v
  {
    Multiples(u - 1, v - 1);
    assert (u - 1) * (v - 1) == u * v - u - v + 1;
  }

  /** As many different values below `m` as there are numbers below `m` reach all of them. */
  lemma {:induction false} Pigeonhole(hash: nat, m: nat, n: nat, s: set<nat>)
    requires m > 0 && AllDifferent(hash, m) && n <= m
    requires s == set k | 0 <= k < n :: ProbeAt(hash, m, k)
    ensures |s| == n
  {
    if n > 0 {
      var t := set k | 0 <= k < n - 1 :: ProbeAt(hash, m, k);
      Pigeonhole(hash, m, n - 1, t);
      hide ProbeAt;
      assert s == t + {ProbeAt(hash, m, n - 1)};
    }
  }

  ghost function Below(m: nat): (s: set<nat>)
    ensures |s| == m && forall b: nat :: b in s <==> b < m
  {
    if m == 0 then {} else Below(m - 1) + {m - 1}
  }

  lemma SubsetFull(s: set<nat>, t: set<nat>)
    requires s <= t && |s| == |t|
    ensures s == t
  {
    if s != t {
      var x :| x in t && x !in s;
      Shrink(s, t, x);
    }
  }

  lemma {:induction false} Shrink(s: set<nat>, t: set<nat>, x: nat)
    requires s <= t && x in t && x !in s
    ensures |s| < |t|
    decreases |s|
  {
    if s != {} {
      var y :| y in s;
      Shrink(s - {y}, t - {y}, x);
    }
  }

  /** The first probes visit each bucket exactly once if and only if the number of buckets is a power
      of two. */
  lemma VisitsAllOnce(hash: nat, m: nat)
    requires m > 0
    ensures PowerOfTwo(m) <==> AllDifferent(hash, m) && AllReached(hash, m)
    ensures PowerOfTwo(m) <==> AllDifferent(hash, m)
  {
    if PowerOfTwo(m) {
      forall i, j | 0 <= i < j < m ensures ProbeAt(hash, m, i) != ProbeAt(hash, m, j) { NeverMeet(hash, m, i, j); }
      assert AllDifferent(hash, m);
      var reached := set k | 0 <= k < m :: ProbeAt(hash, m, k);
      Pigeonhole(hash, m, m, reached);
      SubsetFull(reached, Below(m));
      forall b | 0 <= b < m ensures Reached(hash, m, b) { assert b in reached; }
    } else {
      var i, j := MeetUnlessPower(hash, m);
    }
  }

  // ----- later probes

  /** Probing repeats itself after twice as many probes as there are buckets. */
  lemma Recurs(hash: nat, m: nat, k: nat)
    requires m > 0
    ensures ProbeAt(hash, m, k + 2 * m) == ProbeAt(hash, m, k)
  {
    TriangleStep(k);
    TriangleStep(k + 2 * m);
    Product(k, k + 2 * m);
    assert 2 * m * (2 * k + 2 * m + 1) == 2 * (m * (2 * k + 2 * m + 1));
    SameRemainder(hash + Triangle(k), hash + Triangle(k + 2 * m), m, 2 * k + 2 * m + 1);
  }

  lemma {:induction false} Later(hash: nat, m: nat, k: nat, from: nat) returns (k': nat)
    requires m > 0
    ensures k' >= from && k' >= k && ProbeAt(hash, m, k') == ProbeAt(hash, m, k)
    decreases if k < from then from - k else 0
  {
    if k >= from {
      k' := k;
    } else {
      Recurs(hash, m, k);
      k' := Later(hash, m, k + 2 * m, from);
    }
  }

  /** With a power of two of buckets probing comes to every bucket, from any probe on. */
  lemma ComesTo(hash: nat, m: nat, b: nat, from: nat) returns (k: nat)
    requires PowerOfTwo(m) && b < m
    ensures k >= from && ProbeAt(hash, m, k) == b
  {
    VisitsAllOnce(hash, m);
    assert Reached(hash, m, b);
    k :| 0 <= k < m && ProbeAt(hash, m, k) == b;
    k := Later(hash, m, k, from);
  }

  /** Each probe is the one before moved on by its number. */
  lemma NextProbe(hash: nat, m: nat, k: nat)
    requires m > 0
    ensures (ProbeAt(hash, m, k) + k + 1) % m == ProbeAt(hash, m, k + 1)
    ensures ProbeAt(hash, m, 0) == hash % m == hash % m % m
  {
    TriangleStep(k);
    hide Triangle;
    AddToRemainder(hash + Triangle(k), m, k + 1);
    assert hash + Triangle(k) + (k + 1) == hash + Triangle(k + 1);
    RemainderIs(hash % m, m, 0, hash % m);
    NoTriangle();
  }

  lemma NoTriangle()
    ensures Triangle(0) == 0
  {
  }

}
