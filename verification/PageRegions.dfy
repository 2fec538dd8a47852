/** The parts of the page tree that writers keep to themselves: a page with everything below it, or a range of a
    page's children with everything below them. */
module PageRegions {
  import opened Wrappers
  import opened TriePos
  import opened PageIds

  datatype PageRegion = PageRegion(path: PageId, exclusiveMin: Option<PageId>, exclusiveMax: PageId) {
    function Min(): PageId { if exclusiveMin.None? then path else exclusiveMin.value }

    /** The deepest page that is only shared. */
    function NonExclusiveMax(): Option<PageId> {
      if exclusiveMin.Some? then Some(path)
      else if path == [] then None
      else Some(path[..|path| - 1])
    }

    predicate ContainsExclusive(p: PageId) { NotAfter(Min(), p) && NotAfter(p, exclusiveMax) }

    predicate ContainsNonExclusive(p: PageId) {
      NonExclusiveMax().Some? && (p == NonExclusiveMax().value || IsDescendantOf(NonExclusiveMax().value, p))
    }

    predicate Contains(p: PageId) { ContainsExclusive(p) || ContainsNonExclusive(p) }

    predicate Encompasses(other: PageRegion) {
      NotAfter(Min(), other.Min()) && NotAfter(other.exclusiveMax, exclusiveMax)
    }

    predicate ExcludesUnique(other: PageRegion) {
      Before(exclusiveMax, other.Min()) || Before(other.exclusiveMax, Min())
    }

    /** As the constructors make it: from the sub-tree of a first page to that of a last sibling. */
    ghost predicate Ok() {
      && IsPage(path)
      && (exclusiveMin.None? ==> exclusiveMax == MaxOf(path))
      && (exclusiveMin.Some? ==>
            exists lo: ChildIndex, hi: ChildIndex :: |path| < MAX_PAGE_DEPTH && lo <= hi && IsRange(lo, hi))
    }

    ghost predicate IsRange(lo: ChildIndex, hi: ChildIndex)
      requires |path| < MAX_PAGE_DEPTH
    {
      exclusiveMin == Some(path + [lo]) && exclusiveMax == MaxOf(path + [hi])
    }
  }

  method FromPageId(p: PageId) returns (r: PageRegion)
    requires IsPage(p)
    ensures r.Ok() && forall q: PageId | IsPage(q) :: r.ContainsExclusive(q) <==> IsDescendantOf(q, p)
    ensures forall q: PageId | IsPage(q) :: r.ContainsNonExclusive(q) <==> IsDescendantOf(p, q) && p != q
  {
    var max := MaxDescendant(p);
    r := PageRegion(p, None, max);
    forall q: PageId | IsPage(q)
      ensures r.ContainsExclusive(q) <==> IsDescendantOf(q, p)
      ensures r.ContainsNonExclusive(q) <==> IsDescendantOf(p, q) && p != q
    {
      SubtreeIs(p, q);
      if p != [] { ProperAncestor(p, q); }
    }
  }

  lemma ProperAncestor(p: PageId, q: PageId)
    requires p != []
    ensures IsDescendantOf(p[..|p| - 1], q) <==> IsDescendantOf(p, q) && p != q
  {
    if IsDescendantOf(p, q) && p != q { assert q == p[..|q|] == p[..|p| - 1][..|q|]; }
    if IsDescendantOf(p[..|p| - 1], q) { assert q == p[..|p| - 1][..|q|] == p[..|q|]; }
  }

  method FromPageIdDescendants(p: PageId, min: ChildIndex, max: ChildIndex) returns (r: PageRegion)
    requires |p| < MAX_PAGE_DEPTH && min <= max
    ensures r.Ok() && r.Min() == p + [min]
    ensures forall q: PageId | IsPage(q) ::
              r.ContainsExclusive(q) <==> |q| > |p| && IsDescendantOf(q, p) && min <= q[|p|] <= max
    ensures forall q: PageId | IsPage(q) :: r.ContainsNonExclusive(q) <==> IsDescendantOf(p, q)
  {
    var last := MaxDescendant(p + [max]);
    r := PageRegion(p, Some(p + [min]), last);
    assert r.IsRange(min, max);
    forall q: PageId | IsPage(q)
      ensures r.ContainsExclusive(q) <==> |q| > |p| && IsDescendantOf(q, p) && min <= q[|p|] <= max
    {
      ChildrenAre(p, min, max, q);
    }
  }

  /** From the first child to the greatest descendant of the last one: all below the children between. */
  lemma ChildrenAre(p: PageId, lo: ChildIndex, hi: ChildIndex, q: PageId)
    requires |p| < MAX_PAGE_DEPTH && IsPage(q) && lo <= hi
    ensures NotAfter(p + [lo], q) && NotAfter(q, MaxOf(p + [hi]))
            <==> |q| > |p| && IsDescendantOf(q, p) && lo <= q[|p|] <= hi
  {
    hide Before, Top, MaxOf;
    MaxIs(p + [hi]);
    var n := MAX_PAGE_DEPTH - |p| - 1;
    if IsDescendantOf(q, p) && |q| > |p| {
      var c, rest := ChildOf(p, q);
      Associative(p, [hi], Top(n));
      InsideChildren(p, lo, hi, c, rest, n);
    } else {
      OutsideChildren(p, lo, hi, q, Top(n));
    }
  }

  lemma ChildOf(p: PageId, q: PageId) returns (c: ChildIndex, rest: PageId)
    requires IsDescendantOf(q, p) && |q| > |p|
    ensures q == p + ([c] + rest) && c == q[|p|]
  {
    c, rest := q[|p|], q[|p| + 1..];
  }

  lemma Associative(a: PageId, b: PageId, c: PageId)
    ensures a + b + c == a + (b + c)
  {
  }

  lemma InsideChildren(p: PageId, lo: ChildIndex, hi: ChildIndex, c: ChildIndex, rest: PageId, n: nat)
    requires |rest| <= n
    ensures NotAfter(p + [lo], p + ([c] + rest)) <==> lo <= c
    ensures NotAfter(p + ([c] + rest), p + ([hi] + Top(n))) <==> c <= hi
  {
    hide Before, Top;
    SamePrefix(p, [lo], [c] + rest);
    SamePrefix(p, [c] + rest, [hi] + Top(n));
    BelowTop(rest, n);
    FirstDecides(lo, [], c, rest);
    FirstDecides(c, rest, hi, Top(n));
    SameRest(p, [lo], [c] + rest);
    SameRest(p, [c] + rest, [hi] + Top(n));
  }

  lemma FirstDecides(a: ChildIndex, p: PageId, b: ChildIndex, q: PageId)
    ensures Before([a] + p, [b] + q) <==> a < b || (a == b && Before(p, q))
    ensures [a] + p == [b] + q <==> a == b && p == q
    ensures p == [] ==> [a] + p == [a] && (p == q || Before(p, q))
  {
    assert ([a] + p)[1..] == p && ([b] + q)[1..] == q;
    assert ([a] + p)[0] == a && ([b] + q)[0] == b;
  }

  lemma SameRest(a: PageId, p: PageId, q: PageId)
    ensures a + p == a + q <==> p == q
  {
    assert (a + p)[|a|..] == p && (a + q)[|a|..] == q;
  }

  lemma {:induction false} OutsideChildren(p: PageId, lo: ChildIndex, hi: ChildIndex, q: PageId, top: PageId)
    requires !(IsDescendantOf(q, p) && |q| > |p|)
    ensures !(NotAfter(p + [lo], q) && NotAfter(q, p + [hi] + top))
  {
    if p == [] {
      assert q == [];
    } else if q != [] && p[0] == q[0] {
      assert q == [q[0]] + q[1..] && p == [p[0]] + p[1..];
      OutsideChildren(p[1..], lo, hi, q[1..], top);
      assert (p + [lo])[1..] == p[1..] + [lo] && (p + [hi] + top)[1..] == p[1..] + [hi] + top;
    } else {
      assert (p + [lo])[0] == p[0] && (p + [hi] + top)[0] == p[0];
    }
  }

  // ----- the contract of regions

  /** What is held exclusively is closed under descendants. */
  lemma ClosedBelow(r: PageRegion, p: PageId, q: PageId)
    requires r.Ok() && IsPage(p) && IsPage(q) && r.ContainsExclusive(p) && IsDescendantOf(q, p)
    ensures r.ContainsExclusive(q)
  {
    if r.exclusiveMin.None? {
      SubtreeIs(r.path, p);
      SubtreeIs(r.path, q);
    } else {
      var lo: ChildIndex, hi: ChildIndex :| |r.path| < MAX_PAGE_DEPTH && lo <= hi && r.IsRange(lo, hi);
      ChildrenAre(r.path, lo, hi, p);
      ChildrenAre(r.path, lo, hi, q);
    }
  }

  /** What is only shared are the proper ancestors of the first page held exclusively. */
  lemma SharedAre(r: PageRegion, q: PageId)
    requires r.Ok()
    ensures r.ContainsNonExclusive(q) <==> IsDescendantOf(r.Min(), q) && q != r.Min()
    ensures IsPage(r.Min()) && IsPage(r.exclusiveMax) && r.ContainsExclusive(r.Min())
  {
    if r.exclusiveMin.None? {
      if r.path != [] { ProperAncestor(r.path, q); }
      SubtreeIs(r.path, r.path);
    } else {
      var lo: ChildIndex, hi: ChildIndex :| |r.path| < MAX_PAGE_DEPTH && lo <= hi && r.IsRange(lo, hi);
      ProperAncestor(r.Min(), q);
      assert r.Min()[..|r.path|] == r.path;
      ChildrenAre(r.path, lo, hi, r.Min());
    }
  }

  /** An ancestor of a page held exclusively is held exclusively or shared. */
  lemma AncestorContained(r: PageRegion, p: PageId, q: PageId)
    requires r.Ok() && IsPage(p) && r.ContainsExclusive(p) && IsDescendantOf(p, q)
    ensures r.Contains(q)
  {
    if r.exclusiveMin.None? {
      SubtreeIs(r.path, p);
      SubtreeIs(r.path, q);
      SharedAre(r, q);
      if |q| < |r.path| {
        assert q == p[..|q|] == r.path[..|q|];
      } else {
        assert r.path == p[..|r.path|] == q[..|r.path|];
      }
    } else {
      var lo: ChildIndex, hi: ChildIndex :| |r.path| < MAX_PAGE_DEPTH && lo <= hi && r.IsRange(lo, hi);
      ChildrenAre(r.path, lo, hi, p);
      ChildrenAre(r.path, lo, hi, q);
      if |q| <= |r.path| {
        assert q == p[..|q|] == r.path[..|q|];
      } else {
        assert r.path == p[..|r.path|] == q[..|r.path|] && q[|r.path|] == p[|r.path|];
      }
    }
  }

  /** One region encompasses another exactly when it holds exclusively all the other does; it then also
      contains all the other contains. */
  lemma EncompassesIff(r: PageRegion, other: PageRegion)
    requires r.Ok() && other.Ok()
    ensures r.Encompasses(other)
            <==> forall p: PageId | IsPage(p) && other.ContainsExclusive(p) :: r.ContainsExclusive(p)
    ensures r.Encompasses(other) ==> forall p: PageId | IsPage(p) && other.Contains(p) :: r.Contains(p)
  {
    SharedAre(other, []);
    MaxContained(other);
    if r.Encompasses(other) {
      forall p: PageId | IsPage(p) && other.Contains(p)
        ensures r.Contains(p) && (other.ContainsExclusive(p) ==> r.ContainsExclusive(p))
      {
        if other.ContainsExclusive(p) {
          Transitive(r.Min(), other.Min(), p);
          Transitive(p, other.exclusiveMax, r.exclusiveMax);
        } else {
          SharedAre(other, p);
          Transitive(other.Min(), other.exclusiveMax, r.exclusiveMax);
          AncestorContained(r, other.Min(), p);
        }
      }
    } else {
      Total(r.Min(), other.Min());
      Total(other.exclusiveMax, r.exclusiveMax);
    }
  }

  lemma MaxContained(r: PageRegion)
    requires r.Ok()
    ensures IsPage(r.exclusiveMax) && r.ContainsExclusive(r.exclusiveMax)
  {
    if r.exclusiveMin.None? {
      SubtreeIs(r.path, r.exclusiveMax);
    } else {
      var lo: ChildIndex, hi: ChildIndex :| |r.path| < MAX_PAGE_DEPTH && lo <= hi && r.IsRange(lo, hi);
      ChildrenAre(r.path, lo, hi, r.exclusiveMax);
    }
  }

  /** Two regions exclude each other exactly when neither holds exclusively what the other contains. */
  lemma ExcludesIff(r: PageRegion, other: PageRegion)
    requires r.Ok() && other.Ok()
    ensures r.ExcludesUnique(other) == other.ExcludesUnique(r)
    ensures r.ExcludesUnique(other) <==>
            forall p: PageId | IsPage(p) ::
              !(r.ContainsExclusive(p) && other.Contains(p)) && !(other.ContainsExclusive(p) && r.Contains(p))
  {
    if r.ExcludesUnique(other) {
      forall p: PageId | IsPage(p)
        ensures !(r.ContainsExclusive(p) && other.Contains(p)) && !(other.ContainsExclusive(p) && r.Contains(p))
      {
        ExcludesOne(r, other, p);
        ExcludesOne(other, r, p);
      }
    } else {
      SharedAre(r, []);
      SharedAre(other, []);
      Total(r.Min(), other.Min());
      Total(r.exclusiveMax, other.Min());
      Total(other.exclusiveMax, r.Min());
      assert r.ContainsExclusive(other.Min()) || other.ContainsExclusive(r.Min());
    }
  }

  lemma ExcludesSymmetric(r: PageRegion, other: PageRegion)
    ensures r.ExcludesUnique(other) == other.ExcludesUnique(r)
  {
  }

  lemma Apart(r: PageRegion, other: PageRegion, p: PageId)
    requires r.ExcludesUnique(other) && r.ContainsExclusive(p)
    ensures !other.ContainsExclusive(p)
  {
    if other.ContainsExclusive(p) {
      if Before(r.exclusiveMax, other.Min()) {
        Transitive(p, r.exclusiveMax, other.Min());
        Total(p, other.Min());
      } else {
        Transitive(p, other.exclusiveMax, r.Min());
        Total(p, r.Min());
      }
    }
  }

  lemma ExcludesOne(r: PageRegion, other: PageRegion, p: PageId)
    requires r.Ok() && other.Ok() && r.ExcludesUnique(other) && IsPage(p)
    ensures !(r.ContainsExclusive(p) && other.Contains(p))
  {
    if r.ContainsExclusive(p) {
      Apart(r, other, p);
      SharedAre(other, p);
      if other.ContainsNonExclusive(p) {
        ClosedBelow(r, p, other.Min());
        Apart(r, other, other.Min());
      }
    }
  }

  /** Regions within regions that exclude each other do so too. */
  lemma ExcludesWithin(r: PageRegion, other: PageRegion, inner: PageRegion)
    requires r.ExcludesUnique(other) && r.Encompasses(inner)
    ensures inner.ExcludesUnique(other) && other.ExcludesUnique(inner)
  {
    if Before(r.exclusiveMax, other.Min()) {
      Transitive(inner.exclusiveMax, r.exclusiveMax, other.Min());
    } else {
      Transitive(other.exclusiveMax, r.Min(), inner.Min());
    }
  }
}
