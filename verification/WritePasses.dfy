/** The protocol by which a write pass over a region is split, consumed and dropped, by any threads in any
    order. Each step is atomic. */
module WritePasses {
  import opened Wrappers
  import opened TriePos
  import opened PageIds
  import opened PageRegions

  /** A pass is held by someone, or split into parts of which some number are still around. */
  datatype Kind = Held | Split(remaining: nat)

  /** A pass together with what it becomes while it is split: the record its parts point to. */
  datatype Pass = Pass(parent: Option<nat>, region: PageRegion, kind: Kind)

  type Passes = map<nat, Pass>

  ghost function Parts(passes: Passes, p: nat): set<nat> {
    set x | x in passes && passes[x].parent == Some(p)
  }

  /** A part points to a split pass that was there before it and lies within its region; parts of one
      pass exclude each other; the count of parts is right. */
  ghost predicate PassOk(passes: Passes, x: nat)
    requires x in passes
  {
    && passes[x].region.Ok()
    && (passes[x].parent.Some? ==>
          var p := passes[x].parent.value;
          p < x && p in passes && passes[p].kind.Split? && passes[p].region.Encompasses(passes[x].region))
    && (passes[x].kind.Split? ==> passes[x].kind.remaining == |Parts(passes, x)|)
  }

  ghost predicate SiblingsOk(passes: Passes, x: nat, y: nat)
    requires x in passes && y in passes
  {
    passes[x].parent == passes[y].parent ==>
      passes[x].parent.Some? && passes[x].region.ExcludesUnique(passes[y].region)
  }

  ghost predicate PassesOk(passes: Passes) {
    && (forall x | x in passes :: PassOk(passes, x))
    && (forall x, y | x in passes && y in passes && x != y :: SiblingsOk(passes, x, y))
  }

  // ----- exclusion

  /** Whether `p` is `x` or a split pass that `x` came from. */
  ghost predicate FromPass(passes: Passes, x: nat, p: nat)
    requires PassesOk(passes) && x in passes
    decreases x
  {
    x == p || (passes[x].parent.Some? && PassOk(passes, x) && FromPass(passes, passes[x].parent.value, p))
  }

  lemma {:induction false} FromIsOlder(passes: Passes, x: nat, p: nat)
    requires PassesOk(passes) && x in passes && FromPass(passes, x, p)
    ensures p <= x && p in passes && (p != x ==> passes[p].kind.Split?)
    decreases x
  {
    assert PassOk(passes, x);
    if x != p { FromIsOlder(passes, passes[x].parent.value, p); }
  }

  /** Passes neither of which came from the other exclude each other. */
  lemma {:induction false} Exclude(passes: Passes, x: nat, y: nat)
    requires PassesOk(passes) && x in passes && y in passes && !FromPass(passes, x, y) && !FromPass(passes, y, x)
    ensures passes[x].region.ExcludesUnique(passes[y].region)
    decreases x + y, y
  {
    hide PageRegion.Ok, PageRegion.ExcludesUnique, PageRegion.Encompasses, Parts;
    assert PassOk(passes, x) && PassOk(passes, y) && SiblingsOk(passes, x, y);
    if x < y {
      Exclude(passes, y, x);
      ExcludesSymmetric(passes[x].region, passes[y].region);
    } else if passes[x].parent.None? {
      FromRoot(passes, y, x);
    } else {
      var p := passes[x].parent.value;
      if passes[y].parent != Some(p) {
        if FromPass(passes, y, p) {
          var q := passes[y].parent.value;
          NotFromYounger(passes, q, x);
          BetweenPasses(passes, x, y, p, q);
          Exclude(passes, x, q);
          ExcludesSymmetric(passes[x].region, passes[q].region);
          ExcludesWithin(passes[q].region, passes[x].region, passes[y].region);
        } else {
          assert !FromPass(passes, p, y);
          Exclude(passes, p, y);
          ExcludesWithin(passes[p].region, passes[y].region, passes[x].region);
        }
      }
    }
  }

  lemma NotFromYounger(passes: Passes, q: nat, x: nat)
    requires PassesOk(passes) && q in passes && q < x
    ensures !FromPass(passes, q, x)
  {
    if FromPass(passes, q, x) { FromIsOlder(passes, q, x); }
  }

  /** `x` is a part of `p`, `y` came from `p` through its parent `q`: `x` did not come from `q`. */
  lemma BetweenPasses(passes: Passes, x: nat, y: nat, p: nat, q: nat)
    requires PassesOk(passes) && x in passes && y in passes && passes[x].parent == Some(p)
             && passes[y].parent == Some(q)
    requires FromPass(passes, y, p) && p != q && q != x && y != p
    ensures q in passes && !FromPass(passes, x, q)
  {
    assert PassOk(passes, x) && PassOk(passes, y);
    FromIsOlder(passes, q, p);
    NotFromYounger(passes, p, q);
  }

  /** All passes came from the one without a parent. */
  lemma {:induction false} FromRoot(passes: Passes, y: nat, x: nat)
    requires PassesOk(passes) && x in passes && y in passes && passes[x].parent.None?
    ensures FromPass(passes, y, x)
    decreases y
  {
    assert PassOk(passes, y);
    if x != y { assert SiblingsOk(passes, x, y); }
    if passes[y].parent.Some? { FromRoot(passes, passes[y].parent.value, x); }
  }

  /** Two passes that are held never hold exclusively what the other contains. */
  lemma HeldExclude(passes: Passes, x: nat, y: nat, id: PageId)
    requires PassesOk(passes) && x in passes && y in passes && x != y && passes[x].kind.Held? && passes[y].kind.Held?
    requires IsPage(id)
    ensures passes[x].region.ContainsExclusive(id) ==> !passes[y].region.Contains(id)
  {
    if FromPass(passes, x, y) { FromIsOlder(passes, x, y); }
    if FromPass(passes, y, x) { FromIsOlder(passes, y, x); }
    Exclude(passes, x, y);
    assert PassOk(passes, x) && PassOk(passes, y);
    ExcludesIff(passes[x].region, passes[y].region);
  }

  // ----- what the steps do to the passes

  /** One part less of a pass. */
  ghost function OneLess(pass: Pass): Pass {
    if pass.kind.Split? && pass.kind.remaining > 0 then pass.(kind := Split(pass.kind.remaining - 1)) else pass
  }

  ghost function Without(passes: Passes, x: nat): Passes
    requires x in passes
  {
    var rest := passes - {x};
    var p := passes[x].parent;
    if p.Some? && p.value in rest then rest[p.value := OneLess(rest[p.value])] else rest
  }

  lemma PartsWithout(passes: Passes, x: nat, p: nat)
    requires x in passes
    ensures Parts(Without(passes, x), p) == Parts(passes, p) - {x}
  {
  }

  lemma WithoutOk(passes: Passes, x: nat)
    requires PassesOk(passes) && x in passes && passes[x].kind.Held?
    ensures PassesOk(Without(passes, x))
  {
    hide PageRegion.Ok, PageRegion.ExcludesUnique, PageRegion.Encompasses, Parts;
    var rest := Without(passes, x);
    assert PassOk(passes, x);
    forall y | y in rest ensures PassOk(rest, y) {
      assert PassOk(passes, y);
      PartsWithout(passes, x, y);
      IsPart(passes, x, y);
    }
    forall y, z | y in rest && z in rest && y != z ensures SiblingsOk(rest, y, z) { assert SiblingsOk(passes, y, z); }
  }

  lemma IsPart(passes: Passes, x: nat, p: nat)
    requires x in passes
    ensures x in Parts(passes, p) <==> passes[x].parent == Some(p)
  {
  }

  /** A split pass without parts may be held again. */
  lemma YieldOk(passes: Passes, p: nat)
    requires PassesOk(passes) && p in passes && passes[p].kind == Split(0)
    ensures PassesOk(passes[p := passes[p].(kind := Held)])
  {
    hide PageRegion.Ok, PageRegion.ExcludesUnique, PageRegion.Encompasses;
    var after := passes[p := passes[p].(kind := Held)];
    assert PassOk(passes, p);
    forall y | y in after ensures PassOk(after, y) {
      assert PassOk(passes, y);
      assert Parts(after, y) == Parts(passes, y);
      assert y in Parts(passes, p) <==> passes[y].parent == Some(p);
    }
    forall y, z | y in after && z in after && y != z
      ensures SiblingsOk(after, y, z)
    {
      assert SiblingsOk(passes, y, z);
    }
  }

  /** A held pass with as yet no parts becomes a split one. */
  lemma StartSplitOk(passes: Passes, x: nat)
    requires PassesOk(passes) && x in passes && passes[x].kind.Held?
    ensures PassesOk(passes[x := passes[x].(kind := Split(0))])
  {
    hide PageRegion.Ok, PageRegion.ExcludesUnique, PageRegion.Encompasses;
    var after := passes[x := passes[x].(kind := Split(0))];
    forall y | y in after ensures PassOk(after, y) {
      assert PassOk(passes, y);
      assert Parts(after, y) == Parts(passes, y);
    }
    assert Parts(passes, x) == {} by {
      forall y | y in passes ensures passes[y].parent != Some(x) { assert PassOk(passes, y); }
    }
    forall y, z | y in after && z in after && y != z
      ensures SiblingsOk(after, y, z)
    {
      assert SiblingsOk(passes, y, z);
    }
  }

  ghost function OneMore(passes: Passes, x: nat, id: nat, region: PageRegion): Passes
    requires x in passes && passes[x].kind.Split?
  {
    passes[x := passes[x].(kind := Split(passes[x].kind.remaining + 1))][id := Pass(Some(x), region, Held)]
  }

  /** The region excludes those of all parts there are. */
  ghost predicate ExcludesParts(passes: Passes, x: nat, region: PageRegion) {
    forall y | y in passes && passes[y].parent == Some(x) :: passes[y].region.ExcludesUnique(region)
  }

  lemma PartsMore(passes: Passes, x: nat, id: nat, region: PageRegion, y: nat)
    requires x in passes && passes[x].kind.Split? && id !in passes && x != id
    ensures Parts(OneMore(passes, x, id, region), y) == if y == x then Parts(passes, x) + {id} else Parts(passes, y)
    ensures id !in Parts(passes, y)
  {
  }

  lemma NewHasNone(passes: Passes, id: nat)
    requires PassesOk(passes) && id !in passes
    ensures Parts(passes, id) == {}
  {
    forall y | y in passes ensures passes[y].parent != Some(id) { assert PassOk(passes, y); }
  }

  lemma OneMoreOk(passes: Passes, x: nat, id: nat, region: PageRegion)
    requires PassesOk(passes) && x in passes && passes[x].kind.Split? && id !in passes && x < id && region.Ok()
    requires passes[x].region.Encompasses(region) && ExcludesParts(passes, x, region)
    ensures PassesOk(OneMore(passes, x, id, region))
  {
    hide PageRegion.Ok, PageRegion.ExcludesUnique, PageRegion.Encompasses, Parts, SiblingsOk;
    hide PassOk;
    forall y | y in OneMore(passes, x, id, region) ensures PassOk(OneMore(passes, x, id, region), y) {
      OneMorePass(passes, x, id, region, y);
    }
    OneMoreSiblings(passes, x, id, region);
  }

  lemma OneMorePass(passes: Passes, x: nat, id: nat, region: PageRegion, y: nat)
    requires PassesOk(passes) && x in passes && passes[x].kind.Split? && id !in passes && x < id && region.Ok()
    requires passes[x].region.Encompasses(region) && y in OneMore(passes, x, id, region)
    ensures PassOk(OneMore(passes, x, id, region), y)
  {
    hide PageRegion.Ok, PageRegion.ExcludesUnique, PageRegion.Encompasses, Parts, SiblingsOk;
    PartsMore(passes, x, id, region, y);
    if y == id {
      NewHasNone(passes, id);
    } else {
      assert PassOk(passes, y);
    }
  }

  lemma OneMoreSiblings(passes: Passes, x: nat, id: nat, region: PageRegion)
    requires PassesOk(passes) && x in passes && passes[x].kind.Split? && id !in passes
             && ExcludesParts(passes, x, region)
    ensures var after := OneMore(passes, x, id, region);
            forall y, z | y in after && z in after && y != z :: SiblingsOk(after, y, z)
  {
    hide PageRegion.ExcludesUnique, PassOk;
    var after := OneMore(passes, x, id, region);
    forall y, z | y in after && z in after && y != z ensures SiblingsOk(after, y, z) {
      if y != id && z != id {
        assert SiblingsOk(passes, y, z);
      } else if y == id {
        ExcludesSymmetric(region, after[z].region);
      }
    }
  }

  // ----- the protocol

  class Domain {
    var passes: Passes
    var next: nat

    ghost predicate Valid()
      reads this
    {
      PassesOk(passes) && forall x | x in passes :: x < next
    }

    constructor (region: PageRegion)
      requires region.Ok()
      ensures Valid() && passes == map[0 := Pass(None, region, Held)]
    {
      passes, next := map[0 := Pass(None, region, Held)], 1;
    }

    /** Split a pass into parts; with no regions it is just dropped. */
    method SplitN(x: nat, regions: seq<PageRegion>) returns (parts: seq<nat>)
      requires Valid() && x in passes && passes[x].kind.Held?
      requires forall i | 0 <= i < |regions| :: regions[i].Ok() && passes[x].region.Encompasses(regions[i])
      requires forall i, j | 0 <= i < j < |regions| :: regions[i].ExcludesUnique(regions[j])
      modifies this
      ensures Valid()
      ensures |parts| == |regions| && forall i | 0 <= i < |parts| ::
                parts[i] !in old(passes) && parts[i] in passes && passes[parts[i]] == Pass(Some(x), regions[i], Held)
      ensures regions == [] ==> passes == old(Without(passes, x))
      ensures regions != [] ==> x in passes && passes[x] == old(passes[x]).(kind := Split(|regions|))
      ensures regions != [] ==> forall y | y in old(passes) && y != x :: y in passes && passes[y] == old(passes[y])
    {
      hide PageRegion.Ok, PageRegion.ExcludesUnique, PageRegion.Encompasses, PassesOk, Parts;
      parts := [];
      if regions == [] {
        DropPass(x);
        return;
      }
      StartSplitOk(passes, x);
      ghost var start := passes;
      passes := passes[x := passes[x].(kind := Split(0))];
      NoParts(start, passes, x, regions);
      for i := 0 to |regions|
        invariant Valid() && |parts| == i && x in passes && passes[x] == start[x].(kind := Split(i))
        invariant forall j | 0 <= j < i ::
                    parts[j] !in start && parts[j] in passes && passes[parts[j]] == Pass(Some(x), regions[j], Held)
        invariant PartsAre(passes, x, regions, i)
        invariant forall y | y in start && y != x :: y in passes && passes[y] == start[y]
        invariant forall y | y in start :: y < next
      {
        assert ExcludesParts(passes, x, regions[i]);
        OneMoreOk(passes, x, next, regions[i]);
        passes := passes[x := passes[x].(kind := Split(i + 1))][next := Pass(Some(x), regions[i], Held)];
        parts := parts + [next];
        next := next + 1;
      }
    }

    /** Give a pass back; the last part to do so gets the pass it came from. */
    method Consume(x: nat) returns (yielded: Option<nat>)
      requires Valid() && x in passes && passes[x].kind.Held?
      modifies this`passes
      ensures Valid() && x !in passes
      ensures yielded.Some? <==> old(passes[x]).parent.Some? && old(Parts(passes, passes[x].parent.value)) == {x}
      ensures yielded.Some? ==>
                && yielded == old(passes[x].parent) && yielded.value in passes
                && passes[yielded.value] == old(passes)[yielded.value].(kind := Held)
      ensures yielded.None? ==> passes == old(Without(passes, x))
      ensures forall y | y in old(passes) && y != x && Some(y) != old(passes[x].parent) ::
                y in passes && passes[y] == old(passes[y])
    {
      hide PageRegion.Ok, PageRegion.ExcludesUnique, PageRegion.Encompasses, PassesOk, Parts;
      ghost var before := passes;
      WithoutOk(passes, x);
      var p := passes[x].parent;
      if p.None? {
        passes := passes - {x};
        return None;
      }
      HasRecord(passes, x);
      var remaining := passes[p.value].kind.remaining;
      passes := (passes - {x})[p.value := passes[p.value].(kind := Split(remaining - 1))];
      if remaining == 1 {
        YieldOk(passes, p.value);
        passes := passes[p.value := passes[p.value].(kind := Held)];
        return p;
      }
      return None;
    }

    /** Drop a pass without giving it back. */
    method DropPass(x: nat)
      requires Valid() && x in passes && passes[x].kind.Held?
      modifies this`passes
      ensures Valid() && passes == old(Without(passes, x))
    {
      hide PageRegion.Ok, PageRegion.ExcludesUnique, PageRegion.Encompasses, PassesOk, Parts;
      WithoutOk(passes, x);
      var p := passes[x].parent;
      if p.Some? {
        HasRecord(passes, x);
        var remaining := passes[p.value].kind.remaining;
        passes := (passes - {x})[p.value := passes[p.value].(kind := Split(remaining - 1))];
      } else {
        passes := passes - {x};
      }
    }
  }

  /** A part has a record, which counts it. */
  lemma HasRecord(passes: Passes, x: nat)
    requires PassesOk(passes) && x in passes && passes[x].parent.Some?
    ensures var p := passes[x].parent.value;
            && p in passes && p != x && passes[p].kind.Split? && passes[p].kind.remaining > 0
            && (passes[p].kind.remaining == 1 <==> Parts(passes, p) == {x})
  {
    var p := passes[x].parent.value;
    assert PassOk(passes, x) && PassOk(passes, p);
    assert x in Parts(passes, p);
    if passes[p].kind.remaining == 1 { OnlyOne(Parts(passes, p), x); }
  }

  lemma OnlyOne(s: set<nat>, x: nat)
    requires x in s && |s| == 1
    ensures s == {x}
  {
    assert |s - {x}| == 0;
  }

  /** Every part there is has one of the first `n` regions. */
  ghost predicate PartsAre(passes: Passes, x: nat, regions: seq<PageRegion>, n: nat)
    requires n <= |regions|
  {
    forall y | y in passes && passes[y].parent == Some(x) :: passes[y].region in regions[..n]
  }

  lemma NoParts(before: Passes, passes: Passes, x: nat, regions: seq<PageRegion>)
    requires PassesOk(before) && x in before && before[x].kind.Held?
             && passes == before[x := before[x].(kind := Split(0))]
    ensures PartsAre(passes, x, regions, 0)
  {
    forall y | y in before ensures before[y].parent != Some(x) { assert PassOk(before, y); }
  }
}
