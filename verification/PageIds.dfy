/** Page identifiers: their depth-first order, sub-trees as intervals, and their fixed-width encodings. */
module PageIds {
  import opened Wrappers
  import opened TriePos
  import opened Arithmetic

  const MAX_PAGE_DEPTH: nat := 42
  const MAX_CHILD_INDEX: ChildIndex := 63

  predicate IsPage(p: PageId) { |p| <= MAX_PAGE_DEPTH }

  /** Lexicographic order: a page comes before its descendants. */
  predicate Before(p: PageId, q: PageId) {
    q != [] && (p == [] || p[0] < q[0] || (p[0] == q[0] && Before(p[1..], q[1..])))
  }

  predicate NotAfter(p: PageId, q: PageId) { p == q || Before(p, q) }

  predicate IsDescendantOf(p: PageId, q: PageId) { q <= p }

  lemma {:induction false} Total(p: PageId, q: PageId)
    ensures Before(p, q) || p == q || Before(q, p)
    ensures !(Before(p, q) && Before(q, p)) && !Before(p, p)
  {
    if p != [] && q != [] {
      Total(p[1..], q[1..]);
      assert p[0] == q[0] && p[1..] == q[1..] ==> p == [p[0]] + p[1..] == q;
    }
    if p != [] { Total(p[1..], p[1..]); }
  }

  lemma {:induction false} Transitive(p: PageId, q: PageId, r: PageId)
    requires NotAfter(p, q) && NotAfter(q, r)
    ensures NotAfter(p, r) && (Before(p, q) || Before(q, r) ==> Before(p, r))
  {
    if p != [] && q != [] && r != [] && p[0] == q[0] == r[0] && Before(p, q) && Before(q, r) {
      Transitive(p[1..], q[1..], r[1..]);
    }
  }

  /** Fill the path up with the greatest child index. */
  method MaxDescendant(p: PageId) returns (m: PageId)
    requires IsPage(p)
    ensures m == MaxOf(p)
  {
    m := p;
    while |m| < MAX_PAGE_DEPTH
      invariant |m| <= MAX_PAGE_DEPTH && MaxOf(m) == MaxOf(p)
    {
      m := m + [MAX_CHILD_INDEX];
    }
  }

  ghost function MaxOf(p: PageId): (m: PageId)
    requires IsPage(p)
    ensures IsPage(m) && IsDescendantOf(m, p)
    decreases MAX_PAGE_DEPTH - |p|
  {
    if |p| == MAX_PAGE_DEPTH then p else MaxOf(p + [MAX_CHILD_INDEX])
  }

  /** A path of greatest child indices of a given length is not before any path of that length. */
  ghost function Top(n: nat): (t: PageId)
    ensures |t| == n
  {
    if n == 0 then [] else [MAX_CHILD_INDEX] + Top(n - 1)
  }

  lemma {:induction false} MaxIs(p: PageId)
    requires IsPage(p)
    ensures MaxOf(p) == p + Top(MAX_PAGE_DEPTH - |p|)
    decreases MAX_PAGE_DEPTH - |p|
  {
    if |p| < MAX_PAGE_DEPTH {
      MaxIs(p + [MAX_CHILD_INDEX]);
      var n := MAX_PAGE_DEPTH - |p| - 1;
      assert p + [MAX_CHILD_INDEX] + Top(n) == p + ([MAX_CHILD_INDEX] + Top(n));
    }
  }

  lemma {:induction false} BelowTop(p: PageId, n: nat)
    requires |p| <= n
    ensures NotAfter(p, Top(n))
  {
    if p != [] { BelowTop(p[1..], n - 1); assert Top(n)[1..] == Top(n - 1); }
  }

  lemma {:induction false} SamePrefix(a: PageId, p: PageId, q: PageId)
    ensures Before(a + p, a + q) == Before(p, q)
  {
    if a == [] {
      assert a + p == p && a + q == q;
    } else {
      assert (a + p)[1..] == a[1..] + p && (a + q)[1..] == a[1..] + q;
      SamePrefix(a[1..], p, q);
    }
  }

  /** The pages from a page to its greatest descendant are exactly its descendants. */
  lemma {:induction false} SubtreeIs(p: PageId, q: PageId)
    requires IsPage(p) && IsPage(q)
    ensures NotAfter(p, q) && NotAfter(q, MaxOf(p)) <==> IsDescendantOf(q, p)
  {
    MaxIs(p);
    var n := MAX_PAGE_DEPTH - |p|;
    if IsDescendantOf(q, p) {
      var rest := q[|p|..];
      assert q == p + rest && p == p + [];
      SamePrefix(p, [], rest);
      SamePrefix(p, rest, Top(n));
      BelowTop(rest, n);
    } else {
      NotBetween(p, q, Top(n));
    }
  }

  lemma {:induction false} NotBetween(p: PageId, q: PageId, top: PageId)
    requires !IsDescendantOf(q, p)
    ensures !(NotAfter(p, q) && NotAfter(q, p + top))
  {
    if q != [] && p[0] == q[0] {
      assert q == [q[0]] + q[1..] && p == [p[0]] + p[1..];
      NotBetween(p[1..], q[1..], top);
      assert (p + top)[1..] == p[1..] + top;
    } else {
      assert (p + top)[0] == p[0];
    }
  }

  // ----- encodings

  function Pow64(k: nat): (r: nat)
    ensures r >= 1
  {
    if k == 0 then 1 else 64 * Pow64(k - 1)
  }

  /** The numeral of a path in base 64 with digits 1 to 64, which leaves no two paths the same. */
  function Numeral(p: PageId): nat {
    if p == [] then 0 else 64 * Numeral(p[..|p| - 1]) + p[|p| - 1] + 1
  }

  lemma {:induction false} NumeralBounds(p: PageId)
    ensures Pow64(|p|) - 1 <= 63 * Numeral(p) <= 64 * (Pow64(|p|) - 1)
  {
    if p != [] { NumeralBounds(p[..|p| - 1]); }
  }

  lemma {:induction false} NumeralInjective(p: PageId, q: PageId)
    requires Numeral(p) == Numeral(q)
    ensures p == q
  {
    if p != [] && q != [] {
      var x, y := p[|p| - 1], q[|q| - 1];
      assert 64 * (Numeral(p[..|p| - 1]) - Numeral(q[..|q| - 1])) == y - x;
      NumeralInjective(p[..|p| - 1], q[..|q| - 1]);
      assert p == p[..|p| - 1] + [x] && q == q[..|q| - 1] + [y];
    }
  }

  /** 2 to the power of 64, of 250 and of 256. */
  function Two64(): nat { 16 * Pow64(10) }

  function Two250(): nat { 16 * Pow64(41) }

  function Two256(): nat { 64 * Two250() }

  /** Adding each index plus one and shifting by six bits, in a word of the given size. */
  method EncodeWord(p: PageId, size: nat) returns (n: nat)
    requires size > 0
    ensures n == 64 * Numeral(p) % size
  {
    n := 0;
    for i := 0 to |p|
      invariant n == 64 * Numeral(p[..i]) % size
    {
      assert p[..i + 1][..i] == p[..i] && p[..i + 1][i] == p[i];
      var limb: nat := p[i];
      EncodeStep(Numeral(p[..i]), limb + 1, size);
      n := (n + (limb + 1)) % size;
      n := 64 * n % size;
    }
    assert p[..|p|] == p;
  }

  lemma EncodeStep(n: nat, x: nat, size: nat)
    requires size > 0
    ensures 64 * ((64 * n % size + x) % size) % size == 64 * (64 * n + x) % size
  {
    AddToRemainder(64 * n, size, x);
    MultiplyRemainder(64 * n + x, size, 64);
  }

  /** The fixed-width encoding; short paths go through a machine word, with the same result. */
  method Encode(p: PageId) returns (n: nat)
    requires IsPage(p)
    ensures n == Encoded(p)
  {
    if |p| < 10 {
      n := EncodeWord(p, Two64());
      FitsWord(p);
    } else {
      n := EncodeWord(p, Two256());
    }
  }

  function Encoded(p: PageId): nat { 64 * Numeral(p) % Two256() }

  lemma {:induction false} PowGrows(j: nat, k: nat)
    requires j <= k
    ensures Pow64(j) <= Pow64(k)
  {
    if j < k { PowGrows(j, k - 1); }
  }

  lemma FitsWord(p: PageId)
    requires |p| < 10
    ensures 64 * Numeral(p) % Two64() == Encoded(p)
  {
    NumeralBounds(p);
    PowGrows(|p|, 9);
    PowGrows(10, 42);
    assert Pow64(10) == 64 * Pow64(9) && Pow64(42) == 64 * Pow64(41);
    hide Pow64, Numeral;
    RemainderIs(64 * Numeral(p), Two64(), 0, 64 * Numeral(p));
    RemainderIs(64 * Numeral(p), Two256(), 0, 64 * Numeral(p));
  }

  /** Encodings agree exactly when the numerals differ by a multiple of 2 to the power of 250. */
  lemma SameEncoding(p: PageId, q: PageId)
    ensures Encoded(p) == Encoded(q) <==> Numeral(p) % Two250() == Numeral(q) % Two250()
  {
    hide Numeral, Two250;
    assert Two250() > 0 by { Two250Positive(); }
    EncodedIs(Numeral(p), Two250());
    EncodedIs(Numeral(q), Two250());
  }

  lemma Two250Positive()
    ensures Two250() > 0
  {
  }

  lemma EncodedIs(n: nat, m: nat)
    requires m > 0
    ensures 64 * n % (64 * m) == 64 * (n % m)
  {
    assert n == m * (n / m) + n % m;
    assert 64 * n == 64 * m * (n / m) + 64 * (n % m);
    RemainderIs(64 * n, 64 * m, n / m, 64 * (n % m));
  }

  /** Up to depth 41 no two pages have the same encoding. */
  lemma EncodedInjective(p: PageId, q: PageId)
    requires |p| < MAX_PAGE_DEPTH && |q| < MAX_PAGE_DEPTH && Encoded(p) == Encoded(q)
    ensures p == q
  {
    SameEncoding(p, q);
    NumeralFits(p);
    NumeralFits(q);
    NumeralInjective(p, q);
  }

  lemma NumeralFits(p: PageId)
    requires |p| < MAX_PAGE_DEPTH
    ensures Numeral(p) % Two250() == Numeral(p)
  {
    NumeralBounds(p);
    PowGrows(|p|, 41);
    hide Pow64, Numeral;
    RemainderIs(Numeral(p), Two250(), 0, Numeral(p));
  }

  lemma {:induction false} NumeralHead(x: ChildIndex, r: PageId)
    ensures Numeral([x] + r) == (x + 1) * Pow64(|r|) + Numeral(r)
  {
    if r == [] {
      assert [x] + r == [x];
    } else {
      var init, last := r[..|r| - 1], r[|r| - 1];
      assert ([x] + r)[..|r|] == [x] + init && ([x] + r)[|r|] == last;
      NumeralHead(x, init);
      assert 64 * ((x + 1) * Pow64(|init|)) == (x + 1) * (64 * Pow64(|init|));
    }
  }

  /** At depth 42 two pages whose first indices differ by 16 have the same encoding. */
  lemma EncodedCollides(x: ChildIndex, y: ChildIndex, r: PageId)
    requires |r| == 41 && y == x + 16
    ensures IsPage([x] + r) && [x] + r != [y] + r && Encoded([x] + r) == Encoded([y] + r)
  {
    NumeralHead(x, r);
    NumeralHead(y, r);
    hide Pow64;
    assert [x] + r != [y] + r by { assert ([x] + r)[0] != ([y] + r)[0]; }
    assert (y + 1) * Pow64(41) == (x + 1) * Pow64(41) + 16 * Pow64(41);
    hide Numeral, Encoded;
    SameRemainder(Numeral([x] + r), Numeral([y] + r), Two250(), 1);
    SameEncoding([x] + r, [y] + r);
  }

  /** So encodings tell pages of a depth, or less, apart just when that depth is below 42. */
  lemma EncodedApartIff(d: nat)
    requires d <= MAX_PAGE_DEPTH
    ensures (forall p: PageId, q: PageId | |p| <= d && |q| <= d && Encoded(p) == Encoded(q) :: p == q)
            <==> d < MAX_PAGE_DEPTH
  {
    hide Encoded;
    if d < MAX_PAGE_DEPTH {
      forall p: PageId, q: PageId | |p| <= d && |q| <= d && Encoded(p) == Encoded(q) ensures p == q {
        EncodedInjective(p, q);
      }
    } else {
      var r := seq(41, _ => 0 as ChildIndex);
      EncodedCollides(0, 16, r);
      assert |[0] + r| == |[16] + r| == MAX_PAGE_DEPTH;
    }
  }

  // ----- decoding

  datatype DecodeError = InvalidPageIdBytes

  function BitCount(n: nat): nat { if n == 0 then 0 else 1 + BitCount(n / 2) }

  /** The numeral of the last page of the deepest layer. */
  function Highest(depth: nat): nat { if depth == 0 then 0 else 64 * Highest(depth - 1) + 64 }

  lemma {:induction false} HighestIs(depth: nat)
    ensures 63 * Highest(depth) == 64 * (Pow64(depth) - 1)
  {
    if depth > 0 { HighestIs(depth - 1); }
  }

  lemma {:induction false} BitCountIs(n: nat)
    requires n > 0
    ensures BitCount(n) > 0 && Pow2(BitCount(n) - 1) <= n < Pow2(BitCount(n))
  {
    if n > 1 { BitCountIs(n / 2); }
  }

  lemma {:induction false} Pow64Is(k: nat)
    ensures Pow64(k) == Pow2(6 * k)
  {
    if k > 0 {
      Pow64Is(k - 1);
      assert Pow2(6 * k) == 2 * Pow2(6 * k - 1) == 4 * Pow2(6 * k - 2) == 8 * Pow2(6 * k - 3) == 16 * Pow2(6 * k - 4);
      assert Pow2(6 * k - 4) == 2 * Pow2(6 * k - 5) == 4 * Pow2(6 * k - 6);
    }
  }

  lemma {:induction false} Pow2Grows(j: nat, k: nat)
    requires j <= k
    ensures Pow2(j) <= Pow2(k)
  {
    if j < k { Pow2Grows(j, k - 1); }
  }

  lemma SextetsOf(n: nat)
    requires n > 0
    ensures var s := (BitCount(n) + 5) / 6; s > 0 && Pow64(s - 1) <= n < Pow64(s)
  {
    var b := BitCount(n);
    var s := (b + 5) / 6;
    BitCountIs(n);
    Pow64Is(s - 1);
    Pow64Is(s);
    Pow2Grows(6 * (s - 1), b - 1);
    Pow2Grows(b, 6 * s);
  }

  lemma Peel(u: nat, tail: PageId, j: nat, k: nat)
    requires u >= 1 && Pow64(j) - 1 <= u < Pow64(k) && j >= 1 && k >= 1
    ensures var x: ChildIndex := (u - 1) % 64;
            && u * Pow64(|tail|) + Numeral(tail) == (u - 1) / 64 * Pow64(|tail| + 1) + Numeral([x] + tail)
            && Pow64(j - 1) - 1 <= (u - 1) / 64 < Pow64(k - 1)
  {
    var x: ChildIndex := (u - 1) % 64;
    NumeralHead(x, tail);
    PowSteps(|tail|, j, k);
    hide Pow64, Numeral;
    PeelProduct((u - 1) / 64, x, Pow64(|tail|));
  }

  lemma PowSteps(n: nat, j: nat, k: nat)
    requires j >= 1 && k >= 1
    ensures Pow64(n + 1) == 64 * Pow64(n) && Pow64(j) == 64 * Pow64(j - 1) && Pow64(k) == 64 * Pow64(k - 1)
  {
  }

  lemma PeelProduct(v: nat, x: nat, p: nat)
    ensures (64 * v + x + 1) * p == v * (64 * p) + (x + 1) * p
  {
  }

  /** Peel off digits from the least significant end. */
  method Decode(n: nat) returns (r: Result<PageId, DecodeError>)
    requires n < Two256()
    ensures r.Ok? <==> n <= Highest(MAX_PAGE_DEPTH)
    ensures r.Ok? ==> IsPage(r.value) && Numeral(r.value) == n
    ensures forall p: PageId | IsPage(p) && Numeral(p) == n :: r == Ok(p)
  {
    hide Pow64, Numeral, Highest, Two256, BitCount;
    AllPagesFit(n);
    if n > Highest(MAX_PAGE_DEPTH) { return Err(InvalidPageIdBytes); }
    var bits := BitCount(n);
    NoBits(n);
    UnitPow();
    if bits == 0 { return Ok([]); }
    var sextets := (bits + 5) / 6;
    SextetsOf(n);
    var path := PeelDigits(n, sextets);
    NotTooDeep(path);
    forall p: PageId | IsPage(p) && Numeral(p) == n ensures p == path { NumeralInjective(p, path); }
    r := Ok(path);
  }

  lemma NoBits(n: nat)
    ensures BitCount(n) == 0 <==> n == 0
  {
  }

  /** One digit less than there are sextets, and the last one if it is not zero. */
  method PeelDigits(n: nat, sextets: nat) returns (path: PageId)
    requires sextets > 0 && Pow64(sextets - 1) <= n < Pow64(sextets)
    ensures Numeral(path) == n
  {
    hide Pow64, Numeral;
    var uint := n;
    path := [];
    UnitPow();
    for k := 0 to sextets - 1
      invariant |path| == k && n == uint * Pow64(k) + Numeral(path)
      invariant Pow64(sextets - 1 - k) - 1 <= uint < Pow64(sextets - k)
    {
      AtLeast63(sextets - 1 - k);
      Peel(uint, path, sextets - 1 - k, sextets - k);
      uint := uint - 1;
      path := [uint % 64] + path;
      uint := uint / 64;
    }
    if uint != 0 {
      NumeralHead(uint - 1, path);
      path := [uint - 1] + path;
    }
  }

  lemma UnitPow()
    ensures Pow64(0) == 1 && Pow64(1) == 64 && Numeral([]) == 0
  {
  }

  lemma AtLeast63(k: nat)
    requires k >= 1
    ensures Pow64(k) >= 64
  {
  }

  lemma AllPagesFit(n: nat)
    ensures forall p: PageId | IsPage(p) && Numeral(p) == n :: n <= Highest(MAX_PAGE_DEPTH)
    ensures forall p: PageId | Numeral(p) == n && n == 0 :: p == []
  {
    forall p: PageId | IsPage(p) && Numeral(p) == n ensures n <= Highest(MAX_PAGE_DEPTH) {
      NumeralBounds(p);
      PowGrows(|p|, MAX_PAGE_DEPTH);
      HighestIs(MAX_PAGE_DEPTH);
    }
  }

  lemma NotTooDeep(p: PageId)
    requires Numeral(p) <= Highest(MAX_PAGE_DEPTH)
    ensures IsPage(p)
  {
    NumeralBounds(p);
    HighestIs(MAX_PAGE_DEPTH);
    if |p| > MAX_PAGE_DEPTH { PowGrows(MAX_PAGE_DEPTH + 1, |p|); }
  }

  lemma {:induction false} PowModulo(k: nat) returns (c: nat)
    ensures Pow64(k) == 63 * c + 1
  {
    if k == 0 {
      c := 0;
    } else {
      c := PowModulo(k - 1);
      c := 64 * c + 1;
    }
  }

  /** Decoding does not undo encoding, except for the root page: the encoding of any other page is not
      its numeral. */
  lemma DecodeEncodeIff(p: PageId)
    requires IsPage(p)
    ensures Encoded(p) == Numeral(p) <==> p == []
  {
    hide Pow64, Numeral, Two256;
    UnitPow();
    Two256Positive();
    if p == [] {
      RemainderIs(0, Two256(), 0, 0);
    } else {
      var c := PowModulo(MAX_PAGE_DEPTH);
      NumeralSize(p);
      NotItself(Numeral(p), Two256(), c);
    }
  }

  lemma Two256Positive()
    ensures Two256() > 0
  {
  }

  lemma NumeralSize(p: PageId)
    requires IsPage(p) && p != []
    ensures 0 < 63 * Numeral(p) <= 64 * (Pow64(MAX_PAGE_DEPTH) - 1) && Two256() == 16 * Pow64(MAX_PAGE_DEPTH)
  {
    NumeralBounds(p);
    PowGrows(|p|, MAX_PAGE_DEPTH);
  }

  lemma NotItself(n: nat, m: nat, c: nat)
    requires m == 16 * (63 * c + 1) && 0 < n && 63 * n <= 64 * (63 * c)
    ensures 64 * n % m != n
  {
    var q, r := Divide(64 * n, m);
    NotProduct(n, m, c, q);
  }

  lemma NotProduct(n: nat, m: nat, c: nat, q: nat)
    requires m == 16 * (63 * c + 1) && 0 < n && 63 * n <= 64 * (63 * c)
    ensures 64 * n != m * q + n
  {
    if q >= 5 { Multiples(m, q - 4); assert m * q == m * (q - 4) + 4 * m; }
    else if q == 4 {} else if q == 3 {} else if q == 2 {} else if q == 1 {}
  }
}
