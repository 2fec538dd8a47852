/** Memory seen through the diffs of its pages: what is marked as changed shows, anything else shows
    as some other node. Marking a slot then looks like writing it. */
module PageMarks {
  import opened Trie
  import opened TriePos
  import opened CountLeaves
  import opened PageDiffs
  import opened Memory
  import opened PagedMemory
  import opened PageStack

  /** Any node but the given one. */
  function OtherNode(node: Node): Node {
    if node.Terminator? then Internal(Terminator, Terminator) else Terminator
  }

  ghost function Shown(page: Page, diff: PageDiff): Page {
    seq(NODES_PER_PAGE, i requires 0 <= i < NODES_PER_PAGE => if diff.Changed(i) then page[i] else OtherNode(page[i]))
  }

  ghost function Marked(e: StackPage): StackPage { e.(page := Shown(e.page, e.diff)) }

  ghost function MarkedStore(s: Store): Store {
    Store(s.root, s.tops, s.base, seq(|s.stack|, i requires 0 <= i < |s.stack| => Marked(s.stack[i])),
          map id | id in s.output :: Marked(s.output[id]),
          PageSet(map id | id in s.pages.pages :: Shown(s.pages.pages[id], EmptyDiff()),
                  (id: PageId) => Shown(s.pages.garbage(id), EmptyDiff())))
  }

  ghost function MarkView(s: Store): Mem { MarkedStore(s).View() }

  lemma MarkedTop(s: Store, top: StackPage)
    requires s.stack != []
    ensures MarkedStore(s).Top() == Marked(s.Top())
    ensures MarkedStore(s.WithTop(top)) == MarkedStore(s).WithTop(Marked(top))
  {
    hide Marked;
    assert MarkedStore(s.WithTop(top)).stack == MarkedStore(s).WithTop(Marked(top)).stack;
  }

  lemma ShownMark(e: StackPage, index: nat, node: Node)
    requires index < NODES_PER_PAGE
    ensures Marked(e.Mark(index, node)).page == Marked(e).page[index := node]
  {
  }

  lemma MarkWrite(s: Store, x: Path, y: Path, node: Node)
    requires s.stack != [] && s.StackedFor(x) && 0 < |y| <= KEY_BITS && PageOf(y) == PageOf(x) && y !in s.tops
             && x != []
    requires IndexOf(y) < NODES_PER_PAGE
    ensures MarkView(s.WithTop(s.Top().Mark(IndexOf(y), node))) == MarkView(s)[y := node]
  {
    hide IndexOf, PageOf, Store.View, Store.StackedFor, Shown;
    var top := s.Top().Mark(IndexOf(y), node);
    StackedTop(s, x);
    MarkedTop(s, top);
    ShownMark(s.Top(), IndexOf(y), node);
    WriteTop(MarkedStore(s), y, Marked(top), node);
  }

  /** Setting the node of the current position to one that is not empty marks it. */
  lemma MarkCurrent(s: Store, x: Path, node: Node)
    requires s.stack != [] && 0 < |x| <= KEY_BITS && s.StackedFor(x) && x !in s.tops && node != Terminator
    ensures IndexOf(x) < NODES_PER_PAGE && SiblingIndex(IndexOf(x)) < NODES_PER_PAGE
    ensures MarkView(s.WithTop(s.Top().Set(IndexOf(x), node))) == MarkView(s)[x := node]
  {
    hide IndexOf, PageOf, Store.View, Store.StackedFor, SiblingIndex, MarkView;
    IndexRange(x);
    SiblingInRange(x);
    MarkWrite(s, x, x, node);
  }

  lemma MarkSibling(s: Store, x: Path, node: Node)
    requires s.stack != [] && 0 < |x| <= KEY_BITS && s.StackedFor(x) && Sib(x, |x|) !in s.tops
    ensures SiblingIndex(IndexOf(x)) < NODES_PER_PAGE
    ensures MarkView(s.WithTop(s.Top().Mark(SiblingIndex(IndexOf(x)), node))) == MarkView(s)[Sib(x, |x|) := node]
  {
    hide IndexOf, PageOf, Store.View, Store.StackedFor, SiblingIndex, Sib, MarkView;
    SiblingPage(x);
    IndexSibling(x);
    IndexRange(Sib(x, |x|));
    MarkWrite(s, x, Sib(x, |x|), node);
  }

  lemma MarkPop(s: Store)
    requires s.stack != [] && |s.Top().id| == s.base + |s.stack| - 1
    ensures MarkView(s.Popped()) == MarkView(s)
  {
    hide Store.View, Shown;
    MarkedTop(s, s.Top());
    assert MarkedStore(s.Popped()).output == MarkedStore(s).Popped().output;
    assert MarkedStore(s.Popped()).stack == MarkedStore(s).Popped().stack;
    assert MarkedStore(s.Popped()) == MarkedStore(s).Popped();
    PopView(MarkedStore(s));
  }

  /** Entering a page leaves the marks in all other pages. */
  lemma MarkPush(s: Store, top: StackPage, y: Path)
    requires |top.id| == s.base + |s.stack| && |y| <= KEY_BITS && (y != [] ==> PageOf(y) != top.id)
    ensures MarkView(s.Pushed(top))[y] == MarkView(s)[y]
  {
    hide Store.View, Shown;
    assert MarkedStore(s.Pushed(top)).stack == MarkedStore(s).Pushed(Marked(top)).stack;
    assert MarkedStore(s.Pushed(top)) == MarkedStore(s).Pushed(Marked(top));
    PushView(MarkedStore(s), Marked(top), y);
  }

  lemma MarkRoot(s: Store, node: Node)
    ensures MarkView(s.(root := node)) == MarkView(s)[[] := node]
  {
    hide Store.View, Marked, Shown;
    assert MarkedStore(s.(root := node)) == MarkedStore(s).(root := node);
    RootView(MarkedStore(s), node);
  }

  /** What shows the node it holds is in a page that was touched. */
  lemma ShownIsTouched(s: Store, y: Path)
    requires 0 < |y| <= KEY_BITS && y !in s.tops && !s.OnStack(PageOf(y)) && MarkView(s)[y] == s.View()[y]
    ensures PageOf(y) in s.output
  {
    hide IndexOf, PageOf, MarkedStore, Store.PageAt;
    IndexRange(y);
    MarkedTops(s);
    if PageOf(y) !in s.output { MarkedPageAt(s, PageOf(y)); }
  }

  lemma MarkedTops(s: Store)
    ensures MarkedStore(s).tops == s.tops
  {
  }

  lemma MarkedPageAt(s: Store, id: PageId)
    requires !s.OnStack(id) && id !in s.output
    ensures MarkedStore(s).PageAt(id) == Shown(s.PageAt(id), EmptyDiff())
  {
    hide Shown;
  }

  /** A slot that shows the node it holds is marked. */
  lemma ShownIsMarked(s: Store, y: Path)
    requires 0 < |y| <= KEY_BITS && y !in s.tops && !s.OnStack(PageOf(y)) && PageOf(y) in s.output
    requires MarkView(s)[y] == s.View()[y]
    ensures IndexOf(y) < NODES_PER_PAGE && s.output[PageOf(y)].diff.Changed(IndexOf(y))
    ensures s.View()[y] == s.output[PageOf(y)].page[IndexOf(y)]
  {
    hide IndexOf, PageOf, MarkedStore, Store.PageAt;
    IndexRange(y);
    MarkedTops(s);
    MarkedOutput(s, PageOf(y));
  }

  lemma MarkedOutput(s: Store, id: PageId)
    requires !s.OnStack(id) && id in s.output
    ensures s.PageAt(id) == s.output[id].page
    ensures MarkedStore(s).PageAt(id) == Shown(s.output[id].page, s.output[id].diff)
  {
    hide Shown;
  }
}
