/** Which pages a walk leaves in the store: those that hang from internal nodes, and no others. */
module LivePages {
  import opened Trie
  import opened TriePos
  import opened Memory
  import opened PagedMemory
  import opened PageStack
  import opened WalkState
  import opened WalkProgress
  import opened PageRecords
  import opened PageBuilds

  /** A position at which a page hangs, at or below the top of the walk. */
  ghost predicate Boundary(x: Path, top: nat) {
    top <= |x| < KEY_BITS && |x| % DEPTH == 0
  }

  /** The page that hangs from a position. */
  ghost function PageAt(x: Path): PageId { PageOf(x + [false]) }

  ghost predicate UnderGraft(grafts: set<Path>, x: Path) {
    exists g | g in grafts :: Covers(g, x)
  }

  /** A page that was put out is noted as cleared just when the node it hangs from is no longer internal. */
  ghost predicate ClearedRight(m: State, output: UpdatedPages, y: Path)
    requires 0 < |y| <= KEY_BITS && PageOf(y) in output
  {
    output[PageOf(y)].diff.Cleared() <==> !Sub(m, Stem(y)).Internal?
  }

  ghost predicate AllClearedRight(m: State, output: UpdatedPages) {
    forall y: Path | 0 < |y| <= KEY_BITS && PageOf(y) in output :: ClearedRight(m, output, y)
  }

  /** A node that is internal now was so before, or its page was put out. */
  ghost predicate ThereNow(m: State, m0: State, output: UpdatedPages, x: Path)
    requires |x| < KEY_BITS
  {
    Sub(m, x).Internal? ==> Sub(m0, x).Internal? || PageAt(x) in output
  }

  /** A node that was internal is so now, or its page was put out, or the walk is below it. */
  ghost predicate ThereStill(m: State, m0: State, output: UpdatedPages, at: Path, x: Path)
    requires |x| < KEY_BITS
  {
    Sub(m0, x).Internal? ==> Sub(m, x).Internal? || PageAt(x) in output || x < at
  }

  /** Apart from what was placed as a whole. */
  ghost predicate LiveAt(m: State, m0: State, output: UpdatedPages, grafts: set<Path>, top: nat, at: Path) {
    && AllClearedRight(m, output)
    && (forall x: Path | Boundary(x, top) && !UnderGraft(grafts, x) :: ThereNow(m, m0, output, x))
    && (forall x: Path | Boundary(x, top) && !UnderGraft(grafts, x) :: ThereStill(m, m0, output, at, x))
  }

  lemma NothingIn(x: Path)
    requires |x| <= KEY_BITS
    ensures Sub(map[], x) == Terminator
  {
  }

  lemma LiveFirst(m0: State, grafts: set<Path>, top: nat, at: Path)
    ensures LiveAt(m0, m0, map[], grafts, top, at)
  {
    hide Sub, PageOf;
  }

  /** Moving on to a position on the right. */
  lemma LiveTurn(m: State, m0: State, output: UpdatedPages, grafts: set<Path>, top: nat, at: Path, to: Path)
    requires LiveAt(m, m0, output, grafts, top, at) && Below(at, to, top)
    ensures LiveAt(m, m0, output, grafts, top, to)
  {
    hide Sub, PageOf, UnderGraft;
    forall x: Path | Boundary(x, top) && !UnderGraft(grafts, x) ensures ThereStill(m, m0, output, to, x) {
      assert ThereStill(m, m0, output, at, x);
      if x < at { PrefixOfBoth(at, to, x, top); }
    }
  }

  lemma PrefixOfBoth(at: Path, to: Path, x: Path, top: nat)
    requires Below(at, to, top) && x < at && |x| >= top
    ensures x < to
  {
    LeftApart(at, to);
    var n := SharedBits(at, to);
    assert x == at[..|x|] == at[..n][..|x|] == to[..n][..|x|] == to[..|x|];
  }

  /** At the top of the walk nothing is above it. */
  lemma LiveEnd(m: State, m0: State, output: UpdatedPages, grafts: set<Path>, top: nat, at: Path)
    requires LiveAt(m, m0, output, grafts, top, at) && |at| <= top
    ensures LiveAt(m, m0, output, grafts, top, [])
  {
    hide Sub, PageOf, UnderGraft;
    forall x: Path | Boundary(x, top) && !UnderGraft(grafts, x) ensures ThereStill(m, m0, output, [], x) {
      assert ThereStill(m, m0, output, at, x);
    }
  }

  // ----- replacing what lies below a position

  /** Positions neither of which lies below the other have no key in common. */
  lemma ReplacedApart(m: State, at: Path, n: State, x: Path)
    requires !Covers(at, x) && !Covers(x, at)
    ensures AgreeUnder(m, Replaced(m, at, n), x)
  {
    forall k: Key | Covers(x, k) ensures !Covers(at, k) {
      if Covers(at, k) { BothPrefix(at, x, k); }
    }
  }

  lemma BothPrefix(a: Path, b: Path, k: Path)
    requires Covers(a, k) && Covers(b, k)
    ensures Covers(a, b) || Covers(b, a)
  {
    if |a| <= |b| { assert b[..|a|] == k[..|b|][..|a|] == a; } else { assert a[..|b|] == k[..|a|][..|b|] == b; }
  }

  lemma ReplacedUnder(m: State, at: Path, n: State, x: Path)
    requires Covers(at, x)
    ensures AgreeUnder(n, Replaced(m, at, n), x)
  {
    forall k: Key | Covers(x, k) ensures Covers(at, k) { assert k[..|at|] == x[..|at|] == at; }
  }

  /** Replacing right of a page leaves the node it hangs from. */
  lemma LeftStem(m: State, at: Path, n: State, y: Path)
    requires 0 < |y| <= KEY_BITS && forall z: Path | z != [] && PageOf(z) == PageOf(y) :: LeftOf(z, at)
    ensures Sub(Replaced(m, at, n), Stem(y)) == Sub(m, Stem(y))
  {
    hide PageOf, LeftOf, Sub;
    var x := Stem(y);
    StemPages(y);
    forall k: Key | Covers(x, k) ensures !Covers(at, k) {
      var z := if k[|x|] then x + [true] else x + [false];
      assert PageOf(z) == PageOf(y) && Covers(z, k);
      LeftMisses(z, at, k);
    }
    SubFrame(m, Replaced(m, at, n), x);
  }

  lemma LeftMisses(z: Path, at: Path, k: Path)
    requires LeftOf(z, at) && Covers(z, k)
    ensures !Covers(at, k)
  {
    hide LeftOf;
    LeftApart(z, at);
    if Covers(at, k) { BothPrefix(at, z, k); }
  }

  /** Both first layer positions of a page. */
  lemma StemPages(y: Path)
    requires y != []
    ensures PageOf(Stem(y) + [false]) == PageOf(y) && PageOf(Stem(y) + [true]) == PageOf(y) && |Stem(y)| % DEPTH == 0
  {
    forall bit: bool ensures PageOf(Stem(y) + [bit]) == PageOf(y) {
      var z := Stem(y) + [bit];
      forall j | 0 <= j < |PageOf(y)| ensures Sextet(z, j) == Sextet(y, j) {
        assert z[DEPTH * j..DEPTH * (j + 1)] == y[DEPTH * j..DEPTH * (j + 1)];
      }
    }
  }

  lemma StemAt(x: Path)
    requires |x| % DEPTH == 0
    ensures Stem(x + [false]) == x
  {
    assert (x + [false])[..|x|] == x;
  }

  lemma ClearedLeft(m: State, at: Path, n: State, output: UpdatedPages, output': UpdatedPages, y: Path)
    requires 0 < |y| <= KEY_BITS && PutOutLeft(output, at) && AllClearedRight(m, output)
             && StillOut(output, output', PageOf(y))
    ensures ClearedRight(Replaced(m, at, n), output', y)
  {
    hide PageOf, LeftOf, Sub, Replaced;
    assert ClearedRight(m, output, y);
    LeftStem(m, at, n, y);
  }

  /** Every page that hangs from an internal node of the new sub-trie was put out. */
  ghost predicate NewThere(n: State, at: Path, output: UpdatedPages) {
    forall x: Path | Boundary(x, 0) && Covers(at, x) && Sub(n, x).Internal? :: PageAt(x) in output
  }

  lemma ReplaceCleared(m: State, m0: State, n: State, output: UpdatedPages, output': UpdatedPages, at: Path)
    requires AllClearedRight(m, output) && PutOutLeft(output, at) && PutOutFor(n, output, output', at)
    ensures AllClearedRight(Replaced(m, at, n), output')
  {
    hide PageOf, LeftOf, Sub, Replaced, PutOutLeft;
    forall y: Path | 0 < |y| <= KEY_BITS && PageOf(y) in output' ensures ClearedRight(Replaced(m, at, n), output', y) {
      if StillOut(output, output', PageOf(y)) {
        ClearedLeft(m, at, n, output, output', y);
      } else {
        ReplacedUnder(m, at, n, Stem(y));
        SubFrame(n, Replaced(m, at, n), Stem(y));
      }
    }
  }

  lemma LiveReplace(m: State, m0: State, n: State, output: UpdatedPages, output': UpdatedPages, grafts: set<Path>,
                    top: nat, at: Path)
    requires LiveAt(m, m0, output, grafts, top, at) && |at| <= KEY_BITS && Reachable(m0, at, 0)
             && !Sub(m0, at).Internal?
    requires PutOutLeft(output, at) && PutOutFor(n, output, output', at) && output.Keys <= output'.Keys
             && NewThere(n, at, output')
    ensures LiveAt(Replaced(m, at, n), m0, output', grafts, top, at)
  {
    hide PageOf, LeftOf, Sub, Replaced, PutOutLeft, PutOutFor, UnderGraft, AllClearedRight;
    ReplaceCleared(m, m0, n, output, output', at);
    forall x: Path | Boundary(x, top) && !UnderGraft(grafts, x)
      ensures ThereNow(Replaced(m, at, n), m0, output', x) && ThereStill(Replaced(m, at, n), m0, output', at, x)
    {
      assert ThereNow(m, m0, output, x) && ThereStill(m, m0, output, at, x);
      ReplaceThere(m, m0, n, at, x);
    }
  }

  /** What replacing does to the node at a position. */
  lemma ReplaceThere(m: State, m0: State, n: State, at: Path, x: Path)
    requires |x| <= KEY_BITS && |at| <= KEY_BITS && Reachable(m0, at, 0)
    ensures x < at ==> Sub(m0, x).Internal?
    ensures Covers(at, x) ==> Sub(Replaced(m, at, n), x) == Sub(n, x)
    ensures Covers(at, x) && !Sub(m0, at).Internal? ==> !Sub(m0, x).Internal?
    ensures !Covers(at, x) && !(x < at) ==> Sub(Replaced(m, at, n), x) == Sub(m, x)
  {
    hide Sub, Replaced;
    if x < at {
      assert at[..|x|] == x;
    } else if Covers(at, x) {
      ReplacedUnder(m, at, n, x);
      SubFrame(n, Replaced(m, at, n), x);
      assert x[..|at|] == at;
      if Sub(m0, x).Internal? { InternalUp(m0, x, |at|); }
    } else {
      ReplacedApart(m, at, n, x);
      SubFrame(m, Replaced(m, at, n), x);
    }
  }

  lemma LivePlace(m: State, m0: State, n: State, output: UpdatedPages, grafts: set<Path>, top: nat, at: Path)
    requires LiveAt(m, m0, output, grafts, top, at) && |at| <= KEY_BITS && Reachable(m0, at, 0)
             && PutOutLeft(output, at)
    ensures LiveAt(Replaced(m, at, n), m0, output, grafts + {at}, top, at)
  {
    hide PageOf, LeftOf, Sub, Replaced, PutOutLeft;
    forall y: Path | 0 < |y| <= KEY_BITS && PageOf(y) in output ensures ClearedRight(Replaced(m, at, n), output, y) {
      ClearedLeft(m, at, n, output, output, y);
    }
    forall x: Path | Boundary(x, top) && !UnderGraft(grafts + {at}, x)
      ensures ThereNow(Replaced(m, at, n), m0, output, x) && ThereStill(Replaced(m, at, n), m0, output, at, x)
    {
      assert at in grafts + {at} && forall g | g in grafts :: g in grafts + {at};
      assert ThereNow(m, m0, output, x) && ThereStill(m, m0, output, at, x);
      ReplaceThere(m, m0, n, at, x);
    }
  }

  // ----- climbing

  lemma LiveClimb(m: State, m0: State, output: UpdatedPages, output': UpdatedPages, grafts: set<Path>, top: nat,
                  p: Path)
    requires LiveAt(m, m0, output, grafts, top, p) && 0 < |p| <= KEY_BITS
             && OutUp(output, output', p, Sub(m, p[..|p| - 1]).Internal?)
    ensures LiveAt(m, m0, output', grafts, top, p[..|p| - 1])
  {
    hide PageOf, Sub, UnderGraft, DepthInPage, AllClearedRight, OutUp;
    var up := p[..|p| - 1];
    ClimbCleared(m, output, output', p);
    forall x: Path | Boundary(x, top) && !UnderGraft(grafts, x)
      ensures ThereNow(m, m0, output', x) && ThereStill(m, m0, output', up, x)
    {
      assert ThereNow(m, m0, output, x) && ThereStill(m, m0, output, p, x);
      ClimbThere(output, output', p, Sub(m, up).Internal?, x);
    }
  }

  lemma ClimbCleared(m: State, output: UpdatedPages, output': UpdatedPages, p: Path)
    requires AllClearedRight(m, output) && 0 < |p| <= KEY_BITS
             && OutUp(output, output', p, Sub(m, p[..|p| - 1]).Internal?)
    ensures AllClearedRight(m, output')
  {
    hide PageOf, Sub, DepthInPage;
    forall y: Path | 0 < |y| <= KEY_BITS && PageOf(y) in output' ensures ClearedRight(m, output', y) {
      if DepthInPage(|p|) == 1 && PageOf(y) == PageOf(p) {
        StemOnly(p);
        FirstPage(p);
        assert Stem(y) == p[..|p| - 1];
      } else {
        assert ClearedRight(m, output, y);
      }
    }
  }

  lemma ClimbThere(output: UpdatedPages, output': UpdatedPages, p: Path, inner: bool, x: Path)
    requires p != [] && OutUp(output, output', p, inner)
    ensures PageAt(x) in output ==> PageAt(x) in output'
    ensures x < p && |x| % DEPTH == 0 ==> x < p[..|p| - 1] || PageAt(x) in output'
  {
    hide PageOf, DepthInPage;
    if x < p && |x| % DEPTH == 0 {
      AboveOrAt(x, p);
      if DepthInPage(|p|) == 1 { FirstPage(p); }
    }
  }

  lemma FirstPage(p: Path)
    requires p != [] && DepthInPage(|p|) == 1
    ensures |p| - 1 == DEPTH * |PageOf(p)| && PageAt(p[..|p| - 1]) == PageOf(p)
  {
    assert p[..|p| - 1] == Stem(p);
    StemPages(p);
  }

  lemma AboveOrAt(x: Path, p: Path)
    requires x < p
    ensures x < p[..|p| - 1] || x == p[..|p| - 1]
    ensures |x| % DEPTH == 0 && x == p[..|p| - 1] ==> DepthInPage(|p|) == 1
  {
  }

  // ----- what was placed as a whole

  /** The pages that other walkers have put out below the grafts are the right ones. */
  ghost predicate SubsLive(m: State, m0: State, subs: UpdatedPages, grafts: set<Path>) {
    && AllClearedRight(m, subs)
    && forall x: Path | Boundary(x, DEPTH) && UnderGraft(grafts, x) ::
         ThereNow(m, m0, subs, x) && ThereStill(m, m0, subs, [], x)
  }

  lemma SubsLiveFirst(m: State, m0: State)
    ensures SubsLive(m, m0, map[], {})
  {
    hide Sub, PageOf;
  }

  lemma AgreeBelow(m: State, m': State, g: Path, x: Path)
    requires AgreeUnder(m, m', g) && Covers(g, x) && |x| <= KEY_BITS
    ensures Sub(m, x) == Sub(m', x)
  {
    hide Sub;
    forall k: Key | Covers(x, k) ensures Covers(g, k) { assert k[..|g|] == x[..|g|] == g; }
    SubFrame(m, m', x);
  }

  ghost predicate AllUnderGrafts(output: UpdatedPages, grafts: set<Path>) {
    forall y: Path | y != [] && PageOf(y) in output :: UnderGraft(grafts, Stem(y))
  }

  lemma SubsLiveFrame(m: State, m': State, m0: State, subs: UpdatedPages, grafts: set<Path>)
    requires SubsLive(m, m0, subs, grafts) && AllUnderGrafts(subs, grafts)
    requires forall g | g in grafts :: AgreeUnder(m, m', g)
    ensures SubsLive(m', m0, subs, grafts)
  {
    hide Sub, PageOf, AgreeUnder;
    forall y: Path | 0 < |y| <= KEY_BITS && PageOf(y) in subs ensures ClearedRight(m', subs, y) {
      assert ClearedRight(m, subs, y) && UnderGraft(grafts, Stem(y));
      var g :| g in grafts && Covers(g, Stem(y));
      AgreeBelow(m, m', g, Stem(y));
    }
    forall x: Path | Boundary(x, DEPTH) && UnderGraft(grafts, x)
      ensures ThereNow(m', m0, subs, x) && ThereStill(m', m0, subs, [], x)
    {
      assert ThereNow(m, m0, subs, x) && ThereStill(m, m0, subs, [], x);
      var g :| g in grafts && Covers(g, x);
      AgreeBelow(m, m', g, x);
    }
  }

  /** The pages of one more walker. */
  lemma SubsLiveMore(m: State, n: State, m0: State, subs: UpdatedPages, output: UpdatedPages, grafts: set<Path>,
                     more: set<Path>)
    requires SubsLive(m, m0, subs, grafts) && LiveAt(n, m0, output, {}, DEPTH, []) && AllUnderGrafts(output, more)
    requires forall g | g in more :: AgreeUnder(n, m, g)
    ensures SubsLive(m, m0, subs + output, grafts + more)
  {
    hide Sub, PageOf, AgreeUnder;
    forall y: Path | 0 < |y| <= KEY_BITS && PageOf(y) in subs + output ensures ClearedRight(m, subs + output, y) {
      if PageOf(y) in output {
        assert ClearedRight(n, output, y) && UnderGraft(more, Stem(y));
        var g :| g in more && Covers(g, Stem(y));
        AgreeBelow(n, m, g, Stem(y));
      } else {
        assert ClearedRight(m, subs, y);
      }
    }
    forall x: Path | Boundary(x, DEPTH) && UnderGraft(grafts + more, x)
      ensures ThereNow(m, m0, subs + output, x) && ThereStill(m, m0, subs + output, [], x)
    {
      var g :| g in grafts + more && Covers(g, x);
      if g in grafts {
        assert UnderGraft(grafts, x);
        assert ThereNow(m, m0, subs, x) && ThereStill(m, m0, subs, [], x);
      } else {
        assert !UnderGraft({}, x);
        assert ThereNow(n, m0, output, x) && ThereStill(n, m0, output, [], x);
        AgreeBelow(n, m, g, x);
      }
    }
  }

  /** With the pages of the walker that has placed them. */
  lemma LiveJoin(m: State, m0: State, subs: UpdatedPages, output: UpdatedPages, grafts: set<Path>)
    requires SubsLive(m, m0, subs, grafts) && LiveAt(m, m0, output, grafts, 0, [])
    requires forall g | g in grafts :: |g| == DEPTH
    ensures LiveAt(m, m0, subs + output, {}, 0, [])
  {
    hide Sub, PageOf;
    forall y: Path | 0 < |y| <= KEY_BITS && PageOf(y) in subs + output ensures ClearedRight(m, subs + output, y) {
      if PageOf(y) in output { assert ClearedRight(m, output, y); } else { assert ClearedRight(m, subs, y); }
    }
    forall x: Path | Boundary(x, 0)
      ensures ThereNow(m, m0, subs + output, x) && ThereStill(m, m0, subs + output, [], x)
    {
      if UnderGraft(grafts, x) {
        assert ThereNow(m, m0, subs, x) && ThereStill(m, m0, subs, [], x);
      } else {
        assert ThereNow(m, m0, output, x) && ThereStill(m, m0, output, [], x);
      }
    }
  }

  // ----- the page set after an update

  /** Exactly the pages that hang from internal nodes are stored. */
  ghost predicate PagesLive(pages: PageSet, m: State) {
    forall x: Path | Boundary(x, 0) :: PageIsLive(pages, m, x)
  }

  ghost predicate PageIsLive(pages: PageSet, m: State, x: Path)
    requires |x| < KEY_BITS
  {
    PageAt(x) in pages.pages <==> Sub(m, x).Internal?
  }

  /** The stored pages with those put out merged in and the cleared ones dropped. */
  function Kept(pages: PageSet, output: UpdatedPages): PageSet {
    PageSet(map id | id in pages.pages.Keys + output.Keys && (id in output ==> !output[id].diff.Cleared())
              :: if id in output then output[id].page else pages.pages[id], pages.garbage)
  }

  /** The stored pages stay exactly those that hang from internal nodes. */
  lemma KeptLive(pages: PageSet, m0: State, output: UpdatedPages, m: State)
    requires PagesLive(pages, m0) && LiveAt(m, m0, output, {}, 0, [])
    ensures PagesLive(Kept(pages, output), m)
  {
    hide PageOf, Sub;
    forall x: Path | Boundary(x, 0) ensures PageIsLive(Kept(pages, output), m, x) {
      assert PageIsLive(pages, m0, x) && !UnderGraft({}, x);
      assert ThereNow(m, m0, output, x) && ThereStill(m, m0, output, [], x);
      if PageAt(x) in output { ClearedAt(m, output, x); }
    }
  }

  lemma ClearedAt(m: State, output: UpdatedPages, x: Path)
    requires AllClearedRight(m, output) && Boundary(x, 0) && PageAt(x) in output
    ensures output[PageAt(x)].diff.Cleared() <==> !Sub(m, x).Internal?
  {
    hide PageOf, Sub;
    StemAt(x);
    assert ClearedRight(m, output, x + [false]);
  }
}
