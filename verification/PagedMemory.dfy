/** The page walker's storage: a stack of pages being edited, the pages already put out, and the page
    set underneath, together read as one flat memory. */
module PagedMemory {
  import opened Trie
  import opened TriePos
  import opened CountLeaves
  import opened PageDiffs
  import opened Memory

  /** A page being edited; a new one has no bucket yet, and its slots hold anything. */
  datatype StackPage = StackPage(id: PageId, page: Page, diff: PageDiff, isNew: bool) {
    /** Set a node and mark it changed. */
    function Mark(index: nat, node: Node): StackPage
      requires index < NODES_PER_PAGE
    {
      this.(page := page[index := node], diff := diff.SetChanged(index))
    }

    /** Set a node; emptying the first layer marks the whole page cleared instead. */
    function Set(index: nat, node: Node): StackPage
      requires index < NODES_PER_PAGE && SiblingIndex(index) < NODES_PER_PAGE
    {
      if index < 2 && node == Terminator && page[SiblingIndex(index)] == Terminator
      then this.(page := page[index := node], diff := diff.SetCleared())
      else Mark(index, node)
    }
  }

  /** The pages a walk puts out, each with the diff of what was changed in it. */
  type UpdatedPages = map<PageId, StackPage>

  /** The stored pages, and what a fresh page happens to contain. */
  datatype PageSet = PageSet(pages: map<PageId, Page>, garbage: PageId -> Page)

  /** Everything a walker reads and writes nodes in. Nodes at the bottom of a parent page, which a
      partial walk only reports, are in `tops`; `base` counts the page levels above the walk. */
  datatype Store = Store(root: Node, tops: map<Path, Node>, base: nat, stack: seq<StackPage>,
                         output: UpdatedPages, pages: PageSet)
  {
    predicate OnStack(id: PageId) {
      base <= |id| < base + |stack| && stack[|id| - base].id == id
    }

    function PageAt(id: PageId): Page {
      if OnStack(id) then stack[|id| - base].page
      else if id in output then output[id].page
      else if id in pages.pages then pages.pages[id]
      else pages.garbage(id)
    }

    ghost function Slot(x: Path): Node
      requires x != []
    {
      IndexRange(x);
      PageAt(PageOf(x))[IndexOf(x)]
    }

    ghost function View(): Mem {
      imap x: Path | |x| <= KEY_BITS :: if x == [] then root else if x in tops then tops[x] else Slot(x)
    }

    /** The stack is the chain of pages from the top of the walk down to the page of `x`. */
    ghost predicate StackedFor(x: Path) {
      if |x| <= DEPTH * base then stack == []
      else
        && |stack| == |PageOf(x)| + 1 - base
        && forall i | 0 <= i < |stack| :: stack[i].id == PageOf(x)[..base + i]
    }

    function Top(): StackPage
      requires stack != []
    {
      stack[|stack| - 1]
    }

    function WithTop(top: StackPage): Store
      requires stack != []
    {
      this.(stack := stack[|stack| - 1 := top])
    }

    function Popped(): Store
      requires stack != []
    {
      this.(stack := stack[..|stack| - 1], output := output[Top().id := Top()])
    }

    function Pushed(top: StackPage): Store {
      this.(stack := stack + [top])
    }
  }

  /** The memory of a root node and a page set. */
  ghost function StoredMem(root: Node, pages: PageSet): Mem {
    Store(root, map[], 0, [], map[], pages).View()
  }

  // ----- how the primitive operations change the flat memory

  lemma StackedTop(s: Store, x: Path)
    requires s.StackedFor(x) && s.stack != []
    ensures |x| > DEPTH * s.base && s.Top().id == PageOf(x) && |PageOf(x)| == s.base + |s.stack| - 1
    ensures s.OnStack(PageOf(x)) && s.PageAt(PageOf(x)) == s.Top().page
  {
    assert PageOf(x)[..|PageOf(x)|] == PageOf(x);
  }

  lemma WriteTopPage(s: Store, top: StackPage, id: PageId)
    requires s.stack != [] && top.id == s.Top().id && |top.id| == s.base + |s.stack| - 1
    ensures s.WithTop(top).PageAt(id) == if id == top.id then top.page else s.PageAt(id)
    ensures s.PageAt(top.id) == s.Top().page
  {
  }

  lemma WriteTopAt(s: Store, x: Path, top: StackPage, node: Node, y: Path)
    requires s.stack != [] && 0 < |x| <= KEY_BITS && x !in s.tops && IndexOf(x) < NODES_PER_PAGE
    requires s.Top().id == PageOf(x) && |PageOf(x)| == s.base + |s.stack| - 1
    requires top.id == s.Top().id && top.page == s.Top().page[IndexOf(x) := node]
    requires |y| <= KEY_BITS
    ensures s.WithTop(top).View()[y] == if y == x then node else s.View()[y]
  {
    hide IndexOf, PageOf, Store.PageAt;
    if y != [] && y !in s.tops {
      IndexRange(y);
      WriteTopPage(s, top, PageOf(y));
      if PageOf(y) == PageOf(x) && IndexOf(y) == IndexOf(x) { SlotInjective(x, y); }
    }
  }

  /** Writing a slot of the top page changes just that position. */
  lemma WriteTop(s: Store, x: Path, top: StackPage, node: Node)
    requires s.stack != [] && 0 < |x| <= KEY_BITS && x !in s.tops && IndexOf(x) < NODES_PER_PAGE
    requires s.Top().id == PageOf(x) && |PageOf(x)| == s.base + |s.stack| - 1
    requires top.id == s.Top().id && top.page == s.Top().page[IndexOf(x) := node]
    ensures s.WithTop(top).View() == s.View()[x := node]
  {
    hide IndexOf, PageOf, Store.Slot;
    forall y: Path | |y| <= KEY_BITS ensures s.WithTop(top).View()[y] == s.View()[x := node][y] {
      WriteTopAt(s, x, top, node, y);
    }
  }

  lemma ReadTop(s: Store, x: Path)
    requires s.stack != [] && 0 < |x| <= KEY_BITS && x !in s.tops
    requires s.Top().id == PageOf(x) && |PageOf(x)| == s.base + |s.stack| - 1
    ensures IndexOf(x) < NODES_PER_PAGE && s.Top().page[IndexOf(x)] == s.View()[x]
  {
    hide IndexOf, PageOf;
    IndexRange(x);
  }

  /** Putting out the top page changes nothing. */
  lemma PopView(s: Store)
    requires s.stack != [] && |s.Top().id| == s.base + |s.stack| - 1
    ensures s.Popped().View() == s.View()
  {
    hide IndexOf, PageOf;
    assert forall id: PageId :: s.Popped().PageAt(id) == s.PageAt(id);
  }

  /** Pushing any page leaves all other pages as they were. */
  lemma PushView(s: Store, top: StackPage, y: Path)
    requires |top.id| == s.base + |s.stack| && |y| <= KEY_BITS && (y != [] ==> PageOf(y) != top.id)
    ensures s.Pushed(top).View()[y] == s.View()[y]
  {
    hide IndexOf, PageOf, Store.PageAt;
    if y != [] { PushPage(s, top, PageOf(y)); }
  }

  lemma PushPage(s: Store, top: StackPage, id: PageId)
    requires |top.id| == s.base + |s.stack| && id != top.id
    ensures s.Pushed(top).PageAt(id) == s.PageAt(id)
  {
  }

  /** Pushing a stored page that was not yet put out changes nothing. */
  lemma LoadView(s: Store, top: StackPage)
    requires |top.id| == s.base + |s.stack| && top.id !in s.output
    requires top.id in s.pages.pages && top.page == s.pages.pages[top.id]
    ensures s.Pushed(top).View() == s.View()
  {
    hide IndexOf, PageOf;
    assert forall id: PageId :: s.Pushed(top).PageAt(id) == s.PageAt(id);
  }

  /** A page holds only positions properly below the position it hangs from. */
  lemma BelowStem(x: Path, bit: bool, y: Path)
    requires |x| % DEPTH == 0 && y != [] && PageOf(y) == PageOf(x + [bit])
    ensures Covers(x, y) && |y| > |x|
  {
    var n := |x| / DEPTH;
    assert |PageOf(x + [bit])| == n;
    forall i | 0 <= i < n ensures Sextet(y, i) == Sextet(x, i) {
      assert PageOf(y)[i] == PageOf(x + [bit])[i] == Sextet(x + [bit], i);
      assert (x + [bit])[DEPTH * i..DEPTH * (i + 1)] == x[DEPTH * i..DEPTH * (i + 1)];
    }
    SextetsInjective(y, x, n);
    assert x[..DEPTH * n] == x;
  }

  /** The pages of a position and of the one above it. */
  lemma PageOfChild(x: Path, bit: bool)
    requires x != []
    ensures |x| % DEPTH != 0 ==> PageOf(x + [bit]) == PageOf(x)
    ensures |x| % DEPTH == 0 ==> PageOf(x + [bit]) == PageOf(x) + [Sextet(x, |x| / DEPTH - 1)]
    ensures DepthInPage(|x|) == DEPTH <==> |x| % DEPTH == 0
    ensures DepthInPage(|x| + 1) == 1 <==> |x| % DEPTH == 0
  {
    var y := x + [bit];
    forall i | 0 <= i < |x| / DEPTH ensures Sextet(y, i) == Sextet(x, i) {
      assert y[DEPTH * i..DEPTH * (i + 1)] == x[DEPTH * i..DEPTH * (i + 1)];
    }
  }

  /** The child index of a bottom-layer node is its index in that layer. */
  lemma ChildIndexIs(x: Path)
    requires x != [] && |x| % DEPTH == 0
    ensures IndexOf(x) >= 62 && IndexOf(x) - 62 == Sextet(x, |x| / DEPTH - 1)
  {
    var last := LastPagePath(x);
    assert PageStart(|x|) == |x| - DEPTH && last[..DEPTH] == last;
    assert last == x[DEPTH * (|x| / DEPTH - 1)..DEPTH * (|x| / DEPTH)];
    assert Pow2(3) == 8 && Pow2(6) == 8 * Pow2(3);
  }
}
