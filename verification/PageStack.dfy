/** How the stack of pages fits the position of a walk, and how stacking pages shows in memory. */
module PageStack {
  import opened Trie
  import opened TriePos
  import opened PageDiffs
  import opened Memory
  import opened PagedMemory
  import opened WalkState

  function Load(pages: PageSet, id: PageId): StackPage
    requires id in pages.pages
  {
    StackPage(id, pages.pages[id], EmptyDiff(), false)
  }

  lemma AtBoundary(depth: nat)
    ensures DepthInPage(depth) == DEPTH || depth == 0 <==> depth % DEPTH == 0
  {
  }

  lemma RootPage(bit: bool)
    ensures PageOf([] + [bit]) == []
  {
  }

  lemma SiblingInRange(x: Path)
    requires x != []
    ensures SiblingIndex(IndexOf(x)) < NODES_PER_PAGE
  {
    IndexSibling(x);
    IndexRange(Sib(x, |x|));
  }

  lemma StackedNone(s: Store)
    requires s.base == 0 && s.stack == []
    ensures s.StackedFor([])
  {
  }

  lemma StackedNotEmpty(s: Store, x: Path)
    requires s.StackedFor(x) && |x| > DEPTH * s.base
    ensures s.stack != []
  {
  }

  lemma StackedUp(s: Store, x: Path)
    requires s.StackedFor(x) && s.stack != [] && x != []
    ensures DepthInPage(|x|) == 1 ==> s.Popped().StackedFor(x[..|x| - 1])
    ensures DepthInPage(|x|) != 1 ==> s.StackedFor(x[..|x| - 1])
  {
    StackedTop(s, x);
    var parent, bit := x[..|x| - 1], x[|x| - 1];
    assert x == parent + [bit];
    if parent == [] {
    } else {
      PageOfChild(parent, bit);
      hide IndexOf, PageOf;
      if |parent| % DEPTH == 0 {
        var n := |PageOf(parent)|;
        assert forall i | 0 <= i <= n :: PageOf(x)[..i] == PageOf(parent)[..i];
      }
    }
  }

  lemma StackedDown(s: Store, x: Path, bit: bool, top: StackPage)
    requires s.StackedFor(x) && (s.base == 0 || |x| > DEPTH * s.base)
    ensures |x| % DEPTH != 0 ==> s.StackedFor(x + [bit])
    ensures |x| % DEPTH == 0 && top.id == PageOf(x + [bit]) ==>
              |top.id| == s.base + |s.stack| && s.Pushed(top).StackedFor(x + [bit])
  {
    var y := x + [bit];
    if x == [] {
      assert PageOf(y) == [];
    } else {
      PageOfChild(x, bit);
      hide IndexOf, PageOf;
      if |x| % DEPTH == 0 {
        assert forall i | 0 <= i <= |PageOf(x)| :: PageOf(y)[..i] == PageOf(x)[..i];
        assert PageOf(y)[..|PageOf(y)|] == PageOf(y);
      }
    }
  }

  lemma StackedWithTop(s: Store, x: Path, top: StackPage)
    requires s.StackedFor(x) && s.stack != [] && top.id == s.Top().id
    ensures s.WithTop(top).StackedFor(x)
  {
    hide PageOf;
  }

  lemma StackedSibling(s: Store, x: Path)
    requires s.StackedFor(x) && s.stack != [] && x != []
    ensures s.StackedFor(Sib(x, |x|))
  {
    SiblingPage(x);
    hide PageOf;
  }

  lemma StackedMany(s: Store, more: seq<StackPage>, x: Path)
    requires x != [] && |x| > DEPTH * s.base && s.base + |s.stack| + |more| == |PageOf(x)| + 1
    requires forall i | 0 <= i < |s.stack| :: s.stack[i].id == PageOf(x)[..s.base + i]
    requires forall n | s.base + |s.stack| <= n <= |PageOf(x)| :: more[n - s.base - |s.stack|].id == PageOf(x)[..n]
    ensures s.(stack := s.stack + more).StackedFor(x)
  {
    hide IndexOf, PageOf;
    var all := s.stack + more;
    forall i | 0 <= i < |all| ensures all[i].id == PageOf(x)[..s.base + i] {
      if i >= |s.stack| { assert more[(s.base + i) - s.base - |s.stack|] == all[i]; }
    }
  }

  lemma RootView(s: Store, node: Node)
    ensures s.(root := node).View() == s.View()[[] := node]
  {
    hide IndexOf, PageOf;
    assert forall id: PageId :: s.(root := node).PageAt(id) == s.PageAt(id);
  }

  lemma RootStacked(s: Store, node: Node, x: Path)
    requires s.StackedFor(x)
    ensures s.(root := node).StackedFor(x)
  {
  }

  /** Writing the node of the current position. */
  lemma WriteCurrent(s: Store, x: Path, node: Node)
    requires s.stack != [] && 0 < |x| <= KEY_BITS && s.StackedFor(x) && x !in s.tops
    ensures IndexOf(x) < NODES_PER_PAGE && SiblingIndex(IndexOf(x)) < NODES_PER_PAGE
    ensures var w := s.WithTop(s.Top().Set(IndexOf(x), node)); w.View() == s.View()[x := node] && w.StackedFor(x)
  {
    hide IndexOf, PageOf, Store.View, Store.StackedFor, SiblingIndex;
    StackedTop(s, x);
    IndexRange(x);
    SiblingInRange(x);
    var top := s.Top().Set(IndexOf(x), node);
    WriteTop(s, x, top, node);
    StackedWithTop(s, x, top);
  }

  /** Writing the node of its sibling. */
  lemma WriteSibling(s: Store, x: Path, node: Node)
    requires s.stack != [] && 0 < |x| <= KEY_BITS && s.StackedFor(x) && Sib(x, |x|) !in s.tops
    ensures SiblingIndex(IndexOf(x)) < NODES_PER_PAGE
    ensures var w := s.WithTop(s.Top().Mark(SiblingIndex(IndexOf(x)), node));
            w.View() == s.View()[Sib(x, |x|) := node] && w.StackedFor(x)
  {
    hide IndexOf, PageOf, Store.View, Store.StackedFor, SiblingIndex, Sib;
    StackedTop(s, x);
    SiblingPage(x);
    IndexSibling(x);
    IndexRange(Sib(x, |x|));
    var top := s.Top().Mark(SiblingIndex(IndexOf(x)), node);
    WriteTop(s, Sib(x, |x|), top, node);
    StackedWithTop(s, x, top);
  }

  lemma TopView(s: Store, x: Path, node: Node)
    requires 0 < |x| <= KEY_BITS
    ensures s.(tops := s.tops[x := node]).View() == s.View()[x := node]
  {
    hide IndexOf, PageOf, Store.StackedFor;
    assert forall id: PageId :: s.(tops := s.tops[x := node]).PageAt(id) == s.PageAt(id);
  }

  lemma TopStacked(s: Store, x: Path, node: Node)
    ensures s.StackedFor(x) ==> s.(tops := s.tops[x := node]).StackedFor(x)
  {
    hide IndexOf, PageOf, Store.View;
  }

  /** With nothing stacked or put out, the memory is what is stored. */
  lemma NothingStacked(s: Store)
    requires s.stack == [] && s.output == map[] && s.tops == map[]
    ensures s.View() == StoredMem(s.root, s.pages)
  {
    hide IndexOf, PageOf;
    assert forall id: PageId :: s.(base := 0).PageAt(id) == s.PageAt(id);
  }

  /** Loading a chain of stored pages that were not put out changes nothing. */
  lemma {:induction false} LoadMany(s: Store, more: seq<StackPage>, id: PageId, bottom: nat)
    requires bottom == s.base + |s.stack| && bottom + |more| == |id| + 1
    requires forall n | bottom <= n <= |id| ::
               && id[..n] in s.pages.pages && id[..n] !in s.output
               && more[n - bottom].id == id[..n] && more[n - bottom].page == s.pages.pages[id[..n]]
    ensures s.(stack := s.stack + more).View() == s.View()
    decreases |more|
  {
    hide IndexOf, PageOf, Store.View;
    if more == [] {
      assert s.stack + more == s.stack;
    } else {
      assert more[bottom - bottom].id == id[..bottom];
      LoadView(s, more[0]);
      LoadMany(s.Pushed(more[0]), more[1..], id, bottom + 1);
      assert s.stack + [more[0]] + more[1..] == s.stack + more;
    }
  }

  lemma StemOnly(x: Path)
    requires x != [] && DepthInPage(|x|) == 1
    ensures forall y: Path | y != [] && PageOf(y) == PageOf(x) :: ProperlyBelow(x[..|x| - 1], y)
  {
    var stem, bit := x[..|x| - 1], x[|x| - 1];
    assert x == stem + [bit];
    forall y: Path | y != [] && PageOf(y) == PageOf(x) ensures ProperlyBelow(stem, y) { BelowStem(stem, bit, y); }
  }

  /** The stack is the chain of ancestors of `id` from depth `base` on. */
  ghost predicate ChainTo(stack: seq<StackPage>, base: nat, id: PageId) {
    base + |stack| <= |id| + 1 && forall i | 0 <= i < |stack| :: stack[i].id == id[..base + i]
  }

  /** The ancestors of `id` from depth `bottom` on are stored and not put out. */
  ghost predicate Waiting(pages: PageSet, output: UpdatedPages, id: PageId, bottom: nat) {
    forall n | bottom <= n <= |id| :: id[..n] in pages.pages && id[..n] !in output
  }

  /** Exactly those ancestors, as they are stored. */
  ghost predicate LoadedFrom(pages: PageSet, more: seq<StackPage>, id: PageId, bottom: nat) {
    && bottom + |more| == |id| + 1
    && forall n | bottom <= n <= |id| :: id[..n] in pages.pages && more[n - bottom] == Load(pages, id[..n])
  }

  lemma ChainEnd(stack: seq<StackPage>, base: nat, id: PageId)
    requires ChainTo(stack, base, id)
    ensures base + |stack| <= |id| + 1 && (stack != [] ==> stack[|stack| - 1].id == id[..base + |stack| - 1])
  {
  }

  /** Stacking the stored pages down to the page of a position changes nothing. */
  lemma StackMore(s: Store, more: seq<StackPage>, x: Path)
    requires x != [] && |x| > DEPTH * s.base
    requires ChainTo(s.stack, s.base, PageOf(x)) && Waiting(s.pages, s.output, PageOf(x), s.base + |s.stack|)
    requires LoadedFrom(s.pages, more, PageOf(x), s.base + |s.stack|)
    ensures s.(stack := s.stack + more).View() == s.View()
    ensures s.(stack := s.stack + more).StackedFor(x) && s.stack + more != []
  {
    hide IndexOf, PageOf, Store.View, Store.StackedFor;
    LoadMany(s, more, PageOf(x), s.base + |s.stack|);
    StackedMany(s, more, x);
  }

  // ----- the pages on the way to a position

  /** Left of `to` and just below where the two part, or at the top of the walk. */
  ghost predicate Below(at: Path, to: Path, top: nat) {
    LeftOf(at, to) && (SharedBits(at, to) == |at| - 1 || |at| == top)
  }

  /** A prefix of the page of a position is the page of a prefix of it. */
  lemma PagePrefix(x: Path, n: nat)
    requires x != [] && n <= |PageOf(x)|
    ensures DEPTH * n + 1 <= |x| && PageOf(x[..DEPTH * n + 1]) == PageOf(x)[..n]
  {
    var y := x[..DEPTH * n + 1];
    forall i | 0 <= i < n ensures Sextet(y, i) == Sextet(x, i) {
      assert y[DEPTH * i..DEPTH * (i + 1)] == x[DEPTH * i..DEPTH * (i + 1)];
    }
  }

  lemma SharedPages(at: Path, to: Path)
    requires LeftOf(at, to) && SharedBits(at, to) == |at| - 1
    ensures |PageOf(at)| <= |PageOf(to)| && PageOf(to)[..|PageOf(at)|] == PageOf(at)
    ensures DEPTH * (|PageOf(at)| + 1) + 1 > |at|
  {
    var n := SharedBits(at, to);
    forall i | 0 <= i < |PageOf(at)| ensures Sextet(at, i) == Sextet(to, i) {
      assert at[..n][DEPTH * i..DEPTH * (i + 1)] == to[..n][DEPTH * i..DEPTH * (i + 1)];
      assert at[DEPTH * i..DEPTH * (i + 1)] == to[DEPTH * i..DEPTH * (i + 1)];
    }
  }

  lemma StackPrefix(s: Store, at: Path, to: Path)
    requires s.StackedFor(at) && Below(at, to, DEPTH * s.base) && |at| >= DEPTH * s.base && |to| > DEPTH * s.base
    ensures ChainTo(s.stack, s.base, PageOf(to))
    ensures DEPTH * (s.base + |s.stack|) + 1 > |at|
  {
    if |at| > DEPTH * s.base {
      SharedPages(at, to);
      hide PageOf;
      forall i | 0 <= i < |s.stack| ensures s.stack[i].id == PageOf(to)[..s.base + i] {
        assert PageOf(to)[..|PageOf(at)|][..s.base + i] == PageOf(to)[..s.base + i];
      }
    }
  }

  /** Pages on the way that are not yet stacked lie ahead of the walk. */
  lemma AheadOfPages(at: Path, to: Path, n: nat, top: nat)
    requires Below(at, to, top) && |at| < DEPTH * n + 1 <= |to|
    ensures !Behind(to[..DEPTH * n + 1], at)
  {
    var y := to[..DEPTH * n + 1];
    assert at[..|at|] == at;
    LeftApart(at, to);
    LeftCut(at, to, |at|, |y|);
    LeftApart(at, y);
  }
}
