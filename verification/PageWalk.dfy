/** The left-to-right page walker: replacing terminals with sub-tries in paged storage and compacting
    and hashing the path up as it moves on. */
module PageWalk {
  import opened Wrappers
  import opened Trie
  import opened Update
  import opened TriePos
  import opened PageDiffs
  import opened Memory
  import opened PagedMemory
  import opened WalkState
  import opened PageStack
  import opened WalkProgress
  import opened PageMarks
  import opened PageRecords
  import opened PageBuilds
  import opened LivePages

  function TopMap(roots: seq<(Path, Node)>): map<Path, Node> {
    if roots == [] then map[]
    else TopMap(roots[..|roots| - 1])[roots[|roots| - 1].0 := roots[|roots| - 1].1]
  }

  lemma TopMapSnoc(roots: seq<(Path, Node)>, x: Path, node: Node)
    ensures TopMap(roots + [(x, node)]) == TopMap(roots)[x := node]
  {
    assert (roots + [(x, node)])[..|roots|] == roots;
  }

  lemma NothingYet(mem: Mem, output: UpdatedPages, ops: seq<Op>, x: Path, w: seq<(Path, Node)>, visits: seq<WriteNode>)
    requires Builds(ops, x, w, visits)
    ensures SameOutside(mem, mem, x) && PutOutBelow(output, output, x) && BuiltTo(mem, ops, x, w, 0)
    ensures |w| == |visits| && StandsAt(x, w, 0) == StandsAt(x, w, |w|) == x
  {
  }

  datatype Output =
    | NewRoot(root: Node, pages: UpdatedPages)
    | ChildPageRoots(roots: seq<(Path, Node)>, pages: UpdatedPages)

  /** What the walk has achieved: the map it has reached, whether it has worked anywhere and where,
      the positions whose node was placed, and what lies below those. */
  datatype Journal = Journal(model: State, begun: bool, visited: set<Path>, grafts: set<Path>, under: Mem)

  class PageWalker {
    var position: Path
    var lastPosition: Option<Path>
    var root: Node
    var stack: seq<StackPage>
    var output: UpdatedPages
    var childPageRoots: seq<(Path, Node)>
    const parentPage: Option<PageId>
    const pages: PageSet
    /** The map and the memory at the start. */
    ghost const m0: State
    ghost const mem0: Mem
    ghost var journal: Journal

    function Base(): nat { if parentPage.None? then 0 else |parentPage.value| + 1 }

    function Storage(): Store
      reads `root, `childPageRoots, `stack, `output
    {
      Store(root, TopMap(childPageRoots), Base(), stack, output, pages)
    }

    /** The flat memory the walker works on. */
    ghost function View(): Mem
      reads `root, `childPageRoots, `stack, `output
    {
      Storage().View()
    }

    /** The same memory, seen through the diffs. */
    ghost function Marks(): Mem
      reads `root, `childPageRoots, `stack, `output
    {
      MarkView(Storage())
    }

    /** The stack fits the position, and reported nodes are those just above the walk. */
    ghost predicate Placed()
      reads `root, `childPageRoots, `stack, `output, `position
    {
      && |position| <= KEY_BITS
      && Storage().StackedFor(position)
      && TopsPlaced()
    }

    ghost predicate TopsPlaced()
      reads `childPageRoots
    {
      forall x | x in TopMap(childPageRoots) :: |x| == DEPTH * Base()
    }

    constructor (rootNode: Node, parent: Option<PageId>, pageSet: PageSet, ghost m: State)
      requires Holds(StoredMem(rootNode, pageSet), m, [])
      ensures Valid() && lastPosition == None && parentPage == parent && pages == pageSet && root == rootNode
      ensures journal == Journal(m, false, {}, {}, journal.under) && m0 == m
    {
      hide StoredMem, Store.View, Holds, DoneAt, Grafted;
      position, lastPosition, root, stack, output := [], None, rootNode, [], map[];
      childPageRoots, parentPage, pages := [], parent, pageSet;
      m0, mem0 := m, StoredMem(rootNode, pageSet);
      journal := Journal(m, false, {}, {}, StoredMem(rootNode, pageSet));
      new;
      NothingStacked(Storage());
    }

    ghost function Top(): nat { DEPTH * Base() }

    /** The memory, with what belongs below placed nodes grafted in. */
    ghost function Full(): Mem
      reads `root, `childPageRoots, `stack, `output, `journal
    {
      Grafted(View(), journal.grafts, journal.under)
    }

    ghost function Progressed(): Progress
      reads `root, `childPageRoots, `stack, `output, `journal
    {
      Progress(Full(), journal.model, mem0, m0, Top(), journal.visited, journal.grafts, output, childPageRoots)
    }

    /** The diffs record what was done to the pages, at the position too once it is `done`. */
    ghost predicate Tracked(done: bool)
      reads `stack, `output, `position
    {
      StackOk(pages, stack, Base(), position, done) && Recorded(pages, m0, output)
    }

    /** All is done left of the position and at it, and nothing right of it. */
    ghost predicate Begun()
      reads `root, `childPageRoots, `stack, `output, `position, `journal
    {
      Placed() && DoneAt(Progressed(), position) && Tracked(true) && Live()
    }

    /** The pages put out are the right ones. */
    ghost predicate Live()
      reads `output, `position, `journal
    {
      LiveAt(journal.model, m0, output, journal.grafts, Top(), position)
    }

    /** Nothing is done yet. */
    ghost predicate Untried()
      reads `root, `childPageRoots, `stack, `output, `position, `journal
    {
      && position == [] && stack == [] && output == map[] && childPageRoots == []
      && journal.grafts == {} && journal.visited == {}
      && View() == mem0 && journal.model == m0 && Holds(mem0, m0, [])
    }

    ghost predicate Valid()
      reads this
    {
      if journal.begun then
        && Begun() && lastPosition.Some?
        && (position == lastPosition.value || LeftOf(position, lastPosition.value))
      else Untried()
    }

    /** The same, when the walk may have gone on to positions that are not in the trie: below a root that was
        replaced it stays at the root. */
    ghost predicate Standing()
      reads this
    {
      if journal.begun then
        && Begun() && lastPosition.Some?
        && (position == lastPosition.value || LeftOf(position, lastPosition.value) || position == [])
      else Untried()
    }

    method NodeHere() returns (node: Node)
      requires Placed() && stack != []
      ensures node == View()[position]
    {
      hide IndexOf, PageOf, Store.View, Store.StackedFor;
      StackedTop(Storage(), position);
      ReadTop(Storage(), position);
      node := Storage().Top().page[IndexOf(position)];
    }

    method SiblingNode() returns (node: Node)
      requires Placed() && stack != []
      ensures node == View()[Sib(position, |position|)]
    {
      hide IndexOf, PageOf, Store.View, Store.StackedFor;
      StackedTop(Storage(), position);
      SiblingPage(position);
      IndexSibling(position);
      ReadTop(Storage(), Sib(position, |position|));
      node := Storage().Top().page[SiblingIndex(IndexOf(position))];
    }

    /** What was read is what the top page holds. */
    lemma ReadTopPage(node: Node, sibling: Node)
      requires Placed() && stack != [] && 0 < |position| <= KEY_BITS
      requires node == View()[position] && sibling == View()[Sib(position, |position|)]
      ensures ReadIn(stack, position, node, sibling)
    {
      hide IndexOf, PageOf, Store.View, Store.StackedFor, TopMap;
      StackedTop(Storage(), position);
      NotTop(position);
      NotTop(Sib(position, |position|));
      SiblingPage(position);
      IndexSibling(position);
      ReadTop(Storage(), position);
      ReadTop(Storage(), Sib(position, |position|));
    }

    lemma NotTop(x: Path)
      requires TopsPlaced() && |x| > DEPTH * Base()
      ensures x !in Storage().tops
    {
      hide TopMap;
    }

    /** Replace the top page. */
    method PutTop(top: StackPage)
      requires Placed() && stack != [] && Storage().WithTop(top).StackedFor(position)
      modifies this`stack
      ensures Placed() && stack == old(stack)[|old(stack)| - 1 := top] && Storage() == old(Storage()).WithTop(top)
    {
      hide Store.View, Store.StackedFor, TopMap, PageWalker.TopsPlaced;
      stack := stack[|stack| - 1 := top];
    }

    method SetNode(node: Node)
      requires Placed() && stack != []
      modifies this`stack
      ensures Placed() && |stack| == old(|stack|)
      ensures View() == old(View())[position := node] && SetIn(old(stack), stack, position, node)
      ensures node != Terminator ==> Marks() == old(Marks())[position := node]
    {
      hide IndexOf, PageOf, Store.View, Store.StackedFor, MarkView, StackPage.Set, StackPage.Mark, PageWalker.Storage,
        PageWalker.Placed;
      var s := Storage();
      TopHere();
      NotTop(position);
      WriteCurrent(s, position, node);
      if node != Terminator { MarkCurrent(s, position, node); }
      PutTop(s.Top().Set(IndexOf(position), node));
    }

    method SetSibling(node: Node)
      requires Placed() && stack != []
      modifies this`stack
      ensures Placed() && |stack| == old(|stack|)
      ensures View() == old(View())[Sib(position, |position|) := node] && MarkIn(old(stack), stack, position, node)
      ensures Marks() == old(Marks())[Sib(position, |position|) := node]
    {
      hide IndexOf, PageOf, Store.View, Store.StackedFor, MarkView, StackPage.Mark, SiblingIndex, PageWalker.Storage,
        PageWalker.Placed;
      var s := Storage();
      TopHere();
      NotTop(Sib(position, |position|));
      WriteSibling(s, position, node);
      MarkSibling(s, position, node);
      PutTop(s.Top().Mark(SiblingIndex(IndexOf(position)), node));
    }

    lemma TopHere()
      requires Placed() && stack != []
      ensures Storage().stack == stack && Storage().StackedFor(position) && TopsPlaced()
      ensures DEPTH * Base() < |position| <= KEY_BITS
    {
      hide Store.View, PageOf;
      StackedTop(Storage(), position);
    }

    /** Move up, putting out the page that is left behind. */
    method Up()
      requires Placed() && stack != []
      modifies this`position, this`stack, this`output
      ensures Placed() && position == old(position)[..|old(position)| - 1]
      ensures View() == old(View()) && Marks() == old(Marks()) && PutOutOne(old(output), output, old(position))
      ensures LeftUp(old(stack), old(output), stack, output, old(position))
    {
      hide IndexOf, PageOf, Store.View, Store.StackedFor, TopMap, PageWalker.TopsPlaced, MarkView;
      var s := Storage();
      StackedTop(s, position);
      StackedUp(s, position);
      if DepthInPage(|position|) == 1 {
        PopView(s);
        MarkPop(s);
        stack, output := stack[..|stack| - 1], output[s.Top().id := s.Top()];
        assert Storage() == s.Popped();
      }
      position := position[..|position| - 1];
    }

    method ToSibling()
      requires Placed() && stack != []
      modifies this`position
      ensures Placed() && position == Sib(old(position), |old(position)|)
      ensures View() == old(View()) && Marks() == old(Marks())
    {
      hide IndexOf, PageOf, Store.View, Store.StackedFor, MarkView;
      StackedTop(Storage(), position);
      StackedSibling(Storage(), position);
      position := Sib(position, |position|);
    }

    /** Move down one step; a page that is entered is fresh, or taken from the page set. */
    method Down(bit: bool, isFresh: bool)
      requires Placed() && |position| < KEY_BITS && (Base() == 0 || |position| > DEPTH * Base())
      requires isFresh || |position| % DEPTH != 0 || PageOf(position + [bit]) in pages.pages
      modifies this`position, this`stack
      ensures Placed() && position == old(position) + [bit] && stack != []
      ensures forall y: Path | |y| <= KEY_BITS && !ProperlyBelow(old(position), y) ::
                View()[y] == old(View())[y] && Marks()[y] == old(Marks())[y]
      ensures isFresh || |old(position)| % DEPTH != 0 ==> StackGrown(old(stack), stack)
    {
      hide IndexOf, PageOf, Store.View, Store.StackedFor, MarkView;
      var s := Storage();
      if |position| % DEPTH == 0 {
        var id := ChildPage(bit);
        var top := StackPage(id, if isFresh then pages.garbage(id) else pages.pages[id], EmptyDiff(), isFresh);
        StackedDown(s, position, bit, top);
        forall y: Path | |y| <= KEY_BITS && !ProperlyBelow(position, y)
          ensures s.Pushed(top).View()[y] == s.View()[y] && MarkView(s.Pushed(top))[y] == MarkView(s)[y]
        {
          if y != [] && PageOf(y) == id { BelowStem(position, bit, y); }
          PushView(s, top, y);
          MarkPush(s, top, y);
        }
        stack := stack + [top];
        assert Storage() == s.Pushed(top);
      } else {
        StackedDown(s, position, bit, StackPage([], pages.garbage([]), EmptyDiff(), true));
      }
      position := position + [bit];
      StackedNotEmpty(Storage(), position);
    }

    /** The stack is a chain of pages on the way to the new position, and the others on that way are
        stored and not put out. */
    ghost predicate CanStack(newPos: Path)
      reads `stack, `output
    {
      && (newPos == [] ==> Base() == 0 && stack == [])
      && (newPos != [] ==>
            && |newPos| > DEPTH * Base() && Base() + |stack| <= |PageOf(newPos)| + 1
            && (parentPage.Some? ==> parentPage.value == PageOf(newPos)[..Base() - 1])
            && ChainTo(stack, Base(), PageOf(newPos))
            && Waiting(pages, output, PageOf(newPos), Base() + |stack|))
    }

    /** Point the walker at a new position: push the pages from the one on top of the stack, or the
        parent page, down to the page of the position. */
    method BuildStack(newPos: Path)
      requires |newPos| <= KEY_BITS && TopsPlaced() && CanStack(newPos) && StackOk(pages, stack, Base(), newPos, false)
      modifies this`position, this`stack
      ensures Placed() && position == newPos && View() == old(View()) && (newPos != [] ==> stack != [])
      ensures StackOk(pages, stack, Base(), newPos, false)
    {
      hide IndexOf, PageOf, Store.View, Store.StackedFor, ChainTo, Waiting, LoadedFrom, TopMap, PageWalker.TopsPlaced,
        StackOk;
      var s := Storage();
      position := newPos;
      if newPos == [] {
        StackedNone(s);
        return;
      }
      var target := if stack != [] then Some(stack[|stack| - 1].id) else parentPage;
      ChainEnd(stack, Base(), PageOf(newPos));
      var more := PathPages(PageOf(newPos), target, Base() + |stack|);
      StackMore(s, more, newPos);
      StackLoaded(pages, stack, more, Base(), newPos);
      stack := stack + more;
      assert Storage() == s.(stack := s.stack + more);
    }

    /** The stored pages from just below `target`, or from the root page, down to `id`. */
    method PathPages(id: PageId, target: Option<PageId>, ghost bottom: nat) returns (more: seq<StackPage>)
      requires bottom <= |id| + 1
      requires if bottom == 0 then target == None else target == Some(id[..bottom - 1])
      requires Waiting(pages, output, id, bottom)
      ensures LoadedFrom(pages, more, id, bottom)
    {
      hide Load;
      var cur, pushed := id, [];
      while Some(cur) != target
        invariant bottom <= |cur| + 1 && |cur| <= |id| && cur == id[..|cur|]
        invariant |pushed| == |id| - |cur|
        invariant forall n | |cur| < n <= |id| :: pushed[|id| - n] == Load(pages, id[..n])
        decreases |cur|
      {
        assert bottom <= |cur|;
        pushed := pushed + [Load(pages, cur)];
        if cur == [] { break; }
        cur := cur[..|cur| - 1];
      }
      more := PathProofs.Reversed(pushed);
    }

    /** Move down along a path of bits. */
    method DownPath(bits: Path, isFresh: bool)
      requires Placed() && |position| + |bits| <= KEY_BITS && (Base() == 0 || |position| > DEPTH * Base())
      requires isFresh || (|bits| <= 1 && |position| % DEPTH != 0)
      modifies this`position, this`stack
      ensures Placed() && position == old(position) + bits && StackGrown(old(stack), stack)
      ensures forall y: Path | |y| <= KEY_BITS && !ProperlyBelow(old(position), y) ::
                View()[y] == old(View())[y] && Marks()[y] == old(Marks())[y]
    {
      hide PageWalker.View, PageWalker.Marks, PageWalker.Placed, PageWalker.Storage, PageOf, StackGrown, ProperlyBelow;
      GrownNone(stack);
      for i := 0 to |bits|
        invariant Placed() && position == old(position) + bits[..i] && StackGrown(old(stack), stack)
        invariant forall y: Path | |y| <= KEY_BITS && !ProperlyBelow(old(position), y) ::
                    View()[y] == old(View())[y] && Marks()[y] == old(Marks())[y]
      {
        AllBelowLonger(old(position), bits[..i]);
        ghost var before := stack;
        Down(bits[i], isFresh);
        GrownTransitive(old(stack), before, stack);
      }
      assert bits[..|bits|] == bits;
    }

    /** Write a node at the position: in the page, or the root itself. */
    method WriteHere(node: Node)
      requires Placed() && (position == [] ==> Base() == 0) && (position != [] ==> stack != [])
      modifies this`stack, this`root
      ensures Placed() && View() == old(View())[position := node]
      ensures |stack| == |old(stack)|
      ensures if position == [] then stack == old(stack) else SetIn(old(stack), stack, position, node)
      ensures node != Terminator ==> Marks() == old(Marks())[position := node]
    {
      hide Store.View, Store.StackedFor, PageOf, MarkView, SetIn;
      if position == [] {
        RootView(Storage(), node);
        MarkRoot(Storage(), node);
        RootStacked(Storage(), node, position);
        root := node;
      } else {
        SetNode(node);
      }
    }

    /** Obey one visitor command of a build that started at `start` with the stack `st0`. */
    method Visit(v: WriteNode, start: Path, ghost st0: seq<StackPage>)
      requires Placed() && (Base() == 0 || |start| > DEPTH * Base()) && CanObey(start, position, v)
      requires StackKept(st0, stack) && Height(Base(), start, |st0|)
      modifies this`position, this`stack, this`output, this`root
      ensures Placed() && position == v.Move(old(position))
      ensures Obeyed(old(View()), View(), v, old(position), Anchor(v, old(position)))
      ensures !v.WriteTerminator? ==> Obeyed(old(Marks()), Marks(), v, old(position), Anchor(v, old(position)))
      ensures if position == start then Settled(st0, stack, start, v.Written()) else StackKept(st0, stack)
      ensures PutOutBelow(old(output), output, start) && PutOutNew(old(output), output, position)
      ensures v.WriteInternal? || output == old(output)
    {
      hide PageWalker.View, PageWalker.Marks, PageWalker.Placed, PageWalker.Storage, ProperlyBelow, PutOutBelow,
        PutOutOne, PutOutNew;
      hide Obeyed, TouchedBy, StackKept, Height, LeftUp, MarkIn, SetIn, Settled, StackGrown, DepthInPage;
      ghost var at, mem, marks := position, View(), Marks();
      InRange();
      if v.WriteInternal? {
        MoveToParent(v, start, st0);
      } else {
        MoveToLeaf(v, start);
        KeptPush(st0, old(stack), stack);
        PutOutNothing(output, start);
        NothingPutOut(map[], output, position);
      }
      ObeyedBy(mem, View(), v, at);
      ObeyedBy(marks, Marks(), v, at);
      if position != [] { InStack(); }
      ghost var before := stack;
      WriteHere(v.Written());
      WroteHere(v.Written(), start, st0, before);
    }

    /** Go up to the parent, after emptying the sibling where a command says so. */
    method MoveToParent(v: WriteNode, start: Path, ghost st0: seq<StackPage>)
      requires Placed() && (Base() == 0 || |start| > DEPTH * Base()) && CanObey(start, position, v) && v.WriteInternal?
      requires StackKept(st0, stack) && Height(Base(), start, |st0|) && 0 < |position| <= KEY_BITS
      modifies this`position, this`stack, this`output
      ensures Placed() && position == v.Move(old(position)) && StackKept(st0, stack)
      ensures View() == if v.Zeroes(old(position))
                then old(View())[Sib(old(position), |old(position)|) := Terminator] else old(View())
      ensures Marks() == if v.Zeroes(old(position))
                then old(Marks())[Sib(old(position), |old(position)|) := Terminator] else old(Marks())
      ensures PutOutBelow(old(output), output, start) && PutOutNew(old(output), output, position)
    {
      hide PageWalker.View, PageWalker.Marks, PageWalker.Placed, PageWalker.Storage, ProperlyBelow, PutOutBelow,
        PutOutOne, PutOutNew;
      hide StackKept, Height, MarkIn, DepthInPage;
      ghost var at := position;
      InStack();
      InnerHere(start, |st0|, st0);
      if v.Zeroes(position) {
        SetSibling(Terminator);
        KeptMark(st0, old(stack), stack, position, Terminator);
      }
      InnerHere(start, |st0|, st0);
      ghost var before := stack;
      Up();
      KeptUp(st0, before, old(output), stack, output, at);
      OneIsBelow(old(output), output, at);
      PutOutWider(old(output), output, position, start);
    }

    /** Properly below the start of a build, one is in a new page or below the first layer. */
    lemma InnerHere(start: Path, n: nat, st0: seq<StackPage>)
      requires Placed() && stack != [] && StackKept(st0, stack) && n == |st0| && Height(Base(), start, n)
               && |position| > |start|
      ensures position != [] && (|stack| > n || IndexOf(position) >= 2)
              && (DepthInPage(|position|) == 1 ==> |stack| > n)
    {
      hide Store.View, Store.StackedFor, PageOf, IndexOf, DepthInPage;
      InnerSlot(Storage(), start, position, n);
    }

    lemma WroteHere(node: Node, start: Path, st0: seq<StackPage>, before: seq<StackPage>)
      requires Placed() && StackKept(st0, before) && Height(Base(), start, |st0|) && Covers(start, position)
               && |before| == |stack|
      requires if position == [] then stack == before else SetIn(before, stack, position, node)
      requires position != start ==> node != Terminator
      ensures if position == start then Settled(st0, stack, start, node) else StackKept(st0, stack)
    {
      hide Store.View, Store.StackedFor, PageOf, IndexOf, DepthInPage, StackKept, SetIn, Settled;
      if position == start {
        HeightIs(Storage(), position);
        SameHeight(Base(), start, |st0|, |stack|);
        SettlesHere(st0, before, stack, position, node, Base());
      } else {
        SetLength(before, stack, position, node);
        KeptLength(st0, before);
        InnerSlot(Storage(), start, position, |st0|);
        KeptSet(st0, before, stack, position, node);
      }
    }

    /** Go where a command that places a leaf or a terminator says, by the sibling where it can. */
    method MoveToLeaf(v: WriteNode, start: Path)
      requires Placed() && (Base() == 0 || |start| > DEPTH * Base()) && CanObey(start, position, v) && !v.WriteInternal?
      modifies this`position, this`stack
      ensures Placed() && position == v.Move(old(position)) && StackGrown(old(stack), stack)
      ensures forall y: Path | |y| <= KEY_BITS && !ProperlyBelow(Anchor(v, old(position)), y) ::
                View()[y] == old(View())[y] && Marks()[y] == old(Marks())[y]
    {
      hide PageWalker.View, PageWalker.Marks, PageWalker.Placed, PageWalker.Storage, ProperlyBelow, StackGrown;
      LeafMoves(v, position);
      var down := v.Down();
      if v.Up() {
        InStack();
        ToSibling();
        down := down[1..];
      }
      Descend(down, start);
    }

    lemma InStack()
      requires Placed() && |position| > DEPTH * Base()
      ensures stack != []
    {
    }

    /** Build `ops` in place of the terminal at the position. */
    method ReplaceTerminal(ops: seq<Op>)
      requires Placed() && (Base() == 0 || |position| > DEPTH * Base()) && !View()[position].Internal?
      requires Ascending(ops) && forall op | op in ops :: Covers(position, op.0)
      modifies this`position, this`stack, this`output, this`root
      ensures Placed() && position == old(position)
      ensures Holds(View(), MapOf(ops), position)
      ensures SameOutside(old(View()), View(), position) && PutOutBelow(old(output), output, position)
      ensures Settled(old(stack), stack, position, View()[position])
      ensures PutOutFor(MapOf(ops), old(output), output, position)
      ensures if ops == [] then output == old(output) else Holds(Marks(), MapOf(ops), position)
    {
      hide PageWalker.View, PageWalker.Marks, PageWalker.Placed, PageWalker.Storage, PutOutBelow, SameOutside, Builds,
        BuiltTo;
      hide Holds, Sub, PostOrder, MapOf, Replay, Visited, StandsAt, StackKept, Settled, PutOutFor, PutOutNew, Height;
      var start := position;
      assert |start| <= KEY_BITS by { InRange(); }
      ghost var st0 := stack;
      BuildFrom();
      var newRoot, visits := BuildTrie(|position|, ops, position);
      BuildsFromReplay(ops, start, visits);
      ghost var w := Replay(start, visits).written;
      NothingYet(View(), output, ops, start, w, visits);
      NothingYet(Marks(), output, ops, start, w, visits);
      for j := 0 to |visits|
        invariant Placed() && position == StandsAt(start, w, j)
        invariant SameOutside(old(View()), View(), start) && PutOutBelow(old(output), output, start)
        invariant BuiltTo(View(), ops, start, w, j) && (ops != [] ==> BuiltTo(Marks(), ops, start, w, j))
        invariant if j == |visits| then Settled(st0, stack, start, View()[start]) else StackKept(st0, stack)
        invariant PutOutFor(MapOf(ops), old(output), output, start) && (ops == [] ==> output == old(output))
      {
        ghost var mem, out := View(), output;
        ObeyNext(visits, start, ops, w, j, st0, old(output));
        OutsideTransitive(old(View()), mem, View(), start);
        PutOutTransitive(old(output), out, output, start);
      }
      BuildInPlace(View(), ops, start, w, visits);
      if ops != [] { BuildInPlace(Marks(), ops, start, w, visits); }
    }

    lemma BuildFrom()
      requires Placed()
      ensures StackKept(stack, stack) && Height(Base(), position, |stack|)
      ensures forall n: State :: PutOutFor(n, output, output, position)
    {
      hide Store.View, PageOf, Store.StackedFor;
      NothingBuilt(stack);
      HeightIs(Storage(), position);
    }

    /** Obey the next command of the build of `ops` below `start`. */
    method ObeyNext(visits: seq<WriteNode>, start: Path, ghost ops: seq<Op>, ghost w: seq<(Path, Node)>, j: nat,
                    ghost st0: seq<StackPage>, ghost out0: UpdatedPages)
      requires Placed() && (Base() == 0 || |start| > DEPTH * Base())
      requires Builds(ops, start, w, visits) && j < |w| == |visits| && |start| <= KEY_BITS
      requires position == StandsAt(start, w, j) && BuiltTo(View(), ops, start, w, j)
      requires ops != [] ==> BuiltTo(Marks(), ops, start, w, j)
      requires StackKept(st0, stack) && Height(Base(), start, |st0|) && PutOutFor(MapOf(ops), out0, output, start)
      modifies this`position, this`stack, this`output, this`root
      ensures Placed() && position == StandsAt(start, w, j + 1) && BuiltTo(View(), ops, start, w, j + 1)
      ensures ops != [] ==> BuiltTo(Marks(), ops, start, w, j + 1)
      ensures SameOutside(old(View()), View(), start) && PutOutBelow(old(output), output, start)
      ensures if j + 1 == |visits| then Settled(st0, stack, start, View()[start]) else StackKept(st0, stack)
      ensures PutOutFor(MapOf(ops), out0, output, start) && (ops == [] ==> output == old(output))
    {
      hide PageWalker.View, PageWalker.Marks, PageWalker.Placed, PageWalker.Storage, PutOutBelow, SameOutside, Obeyed,
        Builds, BuiltTo;
      hide Sub, MapOf, StackKept, Settled, PutOutFor, PutOutNew, Height;
      ghost var v, at := visits[j], position;
      ghost var anchor := Anchor(v, at);
      BuildCommand(ops, start, w, visits, j);
      AnchorInside(start, position, visits[j]);
      ghost var mem, marks, out := View(), Marks(), output;
      Visit(visits[j], start, st0);
      BuildStep(mem, View(), ops, start, w, visits, j, anchor);
      if ops != [] { BuildStep(marks, Marks(), ops, start, w, visits, j, anchor); }
      ObeyedHere(mem, View(), v, at, anchor);
      if v.WriteInternal? { PutOutMore(MapOf(ops), out0, out, output, start, position); }
    }

    lemma InRange()
      requires Placed()
      ensures |position| <= KEY_BITS
    {
    }

    /** Go down into territory that is fresh, except for the page `start` itself is in. */
    method Descend(down: Path, start: Path)
      requires Placed() && |position| + |down| <= KEY_BITS && (Base() == 0 || |position| > DEPTH * Base())
      requires position == start || |position| > |start|
      modifies this`position, this`stack
      ensures Placed() && position == old(position) + down && StackGrown(old(stack), stack)
      ensures forall y: Path | |y| <= KEY_BITS && !ProperlyBelow(old(position), y) ::
                View()[y] == old(View())[y] && Marks()[y] == old(Marks())[y]
    {
      hide PageWalker.View, PageWalker.Marks, PageWalker.Placed, PageWalker.Storage, PageOf, ProperlyBelow, DepthInPage,
        StackGrown;
      if |position| <= |start| && down != [] {
        AtBoundary(|position|);
        DownPath(down[..1], DepthInPage(|position|) == DEPTH || position == []);
        AllBelowLonger(old(position), down[..1]);
        ghost var before := stack;
        DownPath(down[1..], true);
        GrownTransitive(old(stack), before, stack);
        assert old(position) + down[..1] + down[1..] == old(position) + down;
      } else {
        DownPath(down, true);
      }
    }

    /** Combine the node at the position with its sibling, clearing the one a lone leaf leaves. */
    method CompactStep() returns (next: Node)
      requires Placed() && stack != []
      modifies this`position, this`stack
      ensures Placed() && stack != [] && |position| == |old(position)|
      ensures position[..|position| - 1] == old(position)[..|position| - 1] && PageOf(position) == PageOf(old(position))
      ensures 0 < |old(position)| <= KEY_BITS && Combined(old(View()), View(), old(position), next)
      ensures SteppedIn(old(stack), stack, old(position), next)
    {
      hide PageWalker.View, PageWalker.Marks, PageWalker.Placed, PageWalker.Storage, Store.StackedFor, PageOf, Combined;
      hide SteppedIn, SetIn, ReadIn, Sib, PathProofs.CompactStep;
      PositionInStack();
      SiblingStem(position);
      var node := NodeHere();
      var sibling := SiblingNode();
      var bit := position[|position| - 1];
      ghost var mem, p := View(), position;
      ReadTopPage(node, sibling);
      StepNode(bit, node, sibling);
      if node.Terminator? && sibling.Terminator? {
        next := Terminator;
        CombinedKept(mem, p, next);
        StepKept(stack, p, node, sibling, next);
      } else if node.Leaf? && sibling.Terminator? {
        SetNode(Terminator);
        next := node;
        CombinedCleared(mem, p, p, next);
        StepHere(old(stack), stack, p, node, next);
      } else if node.Terminator? && sibling.Leaf? {
        ToSibling();
        SetNode(Terminator);
        next := sibling;
        CombinedCleared(mem, p, Sib(p, |p|), next);
        StepSibling(old(stack), stack, p, sibling, next);
      } else {
        next := if bit then Internal(sibling, node) else Internal(node, sibling);
        CombinedKept(mem, p, next);
        StepKept(stack, p, node, sibling, next);
      }
    }

    lemma PositionInStack()
      requires Placed() && stack != []
      ensures DEPTH * Base() < |position| <= KEY_BITS
    {
      StackedTop(Storage(), position);
    }

    /** One layer of compaction: the parent takes the combined node. Leaving the topmost page, it
        becomes the root or is reported for the parent page. */
    method CompactLayer()
      requires Placed() && stack != [] && Tracked(true)
      requires 0 < |position| <= KEY_BITS && Sub(m0, position[..|position| - 1]).Internal?
      modifies this`position, this`stack, this`output, this`root, this`childPageRoots
      ensures Placed() && position == old(position)[..|old(position)| - 1] && Tracked(true)
      ensures Compacted(old(View()), View(), old(position))
              && OutUp(old(output), output, old(position), View()[position].Internal?)
      ensures PutOutOne(old(output), output, old(position)) && |position| >= Top()
      ensures childPageRoots == old(childPageRoots) + if stack == [] && parentPage.Some?
                                                      then [(position, View()[position])] else []
      ensures |position| == Top() <==> stack == []
    {
      hide PageWalker.View, PageWalker.Marks, PageWalker.Placed, PageWalker.Storage, PathProofs.CompactStep, PageOf,
        PutOutOne;
      hide Combined, Compacted, StackOk, Recorded, Sub, OutUp;
      PositionInStack();
      var next := CompactAndUp();
      CompactedBy(old(View()), View(), old(position), next);
      StackOrTop();
      if stack == [] {
        NoPages(pages, Base(), position);
        ReportTop(next);
      } else {
        SetTracked(next);
      }
    }

    /** Combine and move up, putting out the page that is left behind. */
    method CompactAndUp() returns (next: Node)
      requires Placed() && stack != [] && Tracked(true)
      requires 0 < |position| <= KEY_BITS && Sub(m0, position[..|position| - 1]).Internal?
      modifies this`position, this`stack, this`output
      ensures Placed() && position == old(position)[..|old(position)| - 1] && Tracked(false)
      ensures Combined(old(View()), View(), old(position), next)
              && OutUp(old(output), output, old(position), next.Internal?)
      ensures PutOutOne(old(output), output, old(position))
    {
      hide PageWalker.View, PageWalker.Marks, PageWalker.Placed, PageWalker.Storage, PathProofs.CompactStep, PageOf,
        PutOutOne;
      hide Combined, SteppedIn, LeftUp, StackOk, Recorded, Sub, OutUp;
      ghost var s := StoreHere();
      next := CompactStep();
      ghost var from, st := position, stack;
      Up();
      PutOutSame(old(output), output, from, old(position));
      ClimbPages(m0, s, st, old(position), from, stack, output, next);
    }

    /** The storage as it is. */
    lemma StoreHere() returns (s: Store)
      requires Placed()
      ensures s.stack == stack && s.output == output && s.base == Base() && s.pages == pages && s.StackedFor(position)
      ensures |position| <= KEY_BITS
    {
      s := Storage();
    }

    /** Set the node of the position, which finishes it. */
    method SetTracked(node: Node)
      requires Placed() && stack != [] && Tracked(false)
      modifies this`stack
      ensures Placed() && |stack| == |old(stack)| && Tracked(true) && View() == old(View())[position := node]
    {
      hide PageWalker.View, PageWalker.Marks, PageWalker.Placed, PageWalker.Storage, Store.StackedFor, PageOf, SetIn,
        StackOk, Recorded;
      ghost var s := StoreHere();
      SetNode(node);
      SetPages(s, stack, position, node);
    }

    lemma StackOrTop()
      requires Placed()
      ensures |position| <= DEPTH * Base() <==> stack == []
    {
      if |position| > DEPTH * Base() { InStack(); }
    }

    /** The node above the topmost page: the root, or one for the parent page. */
    method ReportTop(node: Node)
      requires Placed() && stack == [] && |position| == Top()
      modifies this`root, this`childPageRoots
      ensures Placed() && View() == old(View())[position := node]
      ensures childPageRoots == old(childPageRoots) + if parentPage.Some? then [(position, node)] else []
    {
      hide Store.View, Store.StackedFor, PageOf, TopMap;
      var s := Storage();
      if parentPage.None? {
        RootView(s, node);
        RootStacked(s, node, position);
        root := node;
      } else {
        TopView(s, position, node);
        TopStacked(s, position, node);
        TopMapSnoc(childPageRoots, position, node);
        childPageRoots := childPageRoots + [(position, node)];
      }
    }

    /** Climb one layer of a walk. */
    method ClimbLayer()
      requires Begun() && stack != []
      modifies this`position, this`stack, this`output, this`root, this`childPageRoots
      ensures Begun() && position == old(position)[..|old(position)| - 1]
      ensures stack == [] <==> |position| == Top()
    {
      hide PageWalker.View, PageWalker.Placed, PageWalker.Storage, PutOutOne, Compacted, DoneAt, Grafted, Climbed;
      hide PageWalker.Tracked, LiveAt, Sub, OutUp;
      PositionInStack();
      ghost var p, before, w := position, View(), Progressed();
      WholeBelow(w, p);
      ParentInternal(w, p);
      GraftedAt(before, journal.grafts, journal.under, p);
      CompactLayer();
      ClimbedGrafted(before, View(), journal.grafts, journal.under, journal.model, p);
      ClimbWalk(w, Progressed(), p);
      ClimbedNode(w.mem, Full(), w.m, p);
      ClimbLive(p, old(output));
    }

    lemma ClimbLive(p: Path, out: UpdatedPages)
      requires 0 < |p| <= KEY_BITS && position == p[..|p| - 1] && View()[position] == Sub(journal.model, position)
      requires LiveAt(journal.model, m0, out, journal.grafts, Top(), p)
               && OutUp(out, output, p, View()[position].Internal?)
      ensures Live()
    {
      hide LiveAt, Sub, PageWalker.View;
      LiveClimb(journal.model, m0, out, output, journal.grafts, Top(), p);
    }

    /** Compact up to just below the point where the path to `target` parts, or all the way. */
    method CompactUp(target: Option<Path>)
      requires Standing() && (journal.begun && target.Some? && position != [] ==> LeftOf(position, target.value))
      modifies this`position, this`stack, this`output, this`root, this`childPageRoots
      ensures !journal.begun ==> Untried()
      ensures journal.begun && target.None? ==> Begun() && stack == []
      ensures journal.begun && target.Some? ==>
                Begun() && if old(position) == [] then position == [] else Below(position, target.value, Top())
    {
      hide PageWalker.View, PageWalker.Placed, PageWalker.Storage, Grafted, DoneAt, ReadyAt, LeftOf, PageWalker.Tracked,
        PageWalker.Live;
      if journal.begun { StackOrTop(); DoneDepth(Progressed(), position); }
      if journal.begun && position == [] { AtRoot(); }
      if stack == [] { return; }
      ghost var p := position;
      PositionInStack();
      if target.Some? { LeftApart(p, target.value); }
      var layers := if target.Some? then |position| - (SharedBits(position, target.value) + 1) else |position|;
      var i := 0;
      assert p[..|p|] == p;
      while i < layers && stack != []
        invariant Begun() && i <= layers && position == p[..|p| - i]
        invariant stack == [] ==> |position| == Top()
      {
        assert p[..|p| - i][..|p| - i - 1] == p[..|p| - i - 1];
        ClimbLayer();
        i := i + 1;
      }
      if target.Some? {
        LeftCut(p, target.value, |position|, |target.value|);
        assert target.value[..|target.value|] == target.value;
      } else {
        StackOrTop();
      }
    }

    /** The position falls into the part of the trie this walker works on. */
    predicate InScope(pos: Path) {
      || parentPage.None?
      || (pos != [] && |parentPage.value| < |PageOf(pos)| && PageOf(pos)[..|parentPage.value|] == parentPage.value)
    }

    /** The pages on the path to a position are all there. */
    ghost predicate Stored(pos: Path) {
      pos != [] ==> forall n | Base() <= n <= |PageOf(pos)| :: PageOf(pos)[..n] in pages.pages
    }

    /** The walk may go on to any later position in its part of the trie, but not to one below the position it
        has just worked at. */
    ghost predicate GoesOn(newPos: Path)
      reads `lastPosition, `position, `journal
    {
      && |newPos| <= KEY_BITS && InScope(newPos) && (lastPosition.Some? ==> Less(lastPosition.value, newPos))
      && (journal.begun && lastPosition == Some(position) && position != [] ==> !Covers(position, newPos))
    }

    /** It may work at a position of the initial trie that is not below the one it stands at. */
    ghost predicate CanAdvance(newPos: Path)
      reads `lastPosition, `position, `journal
    {
      && |newPos| <= KEY_BITS && Reachable(m0, newPos, 0) && InScope(newPos)
      && (lastPosition.Some? ==> Less(lastPosition.value, newPos)) && (journal.begun ==> !Covers(position, newPos))
    }

    /** So it may work at any position of the initial trie right of the last one. */
    lemma Onto(newPos: Path)
      requires Valid() && (lastPosition.Some? ==> LeftOf(lastPosition.value, newPos))
      ensures Standing() && (lastPosition.Some? ==> Less(lastPosition.value, newPos))
      ensures journal.begun ==> !Covers(position, newPos)
    {
      hide PageWalker.Begun, PageWalker.Untried;
      if journal.begun {
        LastOn(position, lastPosition.value, newPos);
        LeftApart(position, newPos);
      }
    }

    /** What lies later and not below lies to the right. */
    lemma Rightwards(newPos: Path)
      requires Standing() && journal.begun && Less(lastPosition.value, newPos)
      requires position != [] && (position == lastPosition.value ==> !Covers(position, newPos))
      ensures LeftOf(position, newPos)
    {
      hide PageWalker.Begun, PageWalker.Untried;
      LessOn(position, lastPosition.value, newPos);
    }

    /** At a position nothing is done at yet, with everything left of it finished. */
    ghost predicate Ready()
      reads `root, `childPageRoots, `stack, `output, `position, `journal
    {
      Placed() && ReadyAt(Progressed(), position) && (position != [] ==> stack != []) && Tracked(false) && Live()
    }

    /** Finish what lies left of the new position and go there. */
    method ArriveAt(newPos: Path)
      requires Standing() && CanAdvance(newPos) && Stored(newPos)
      modifies this`position, this`stack, this`output, this`root, this`childPageRoots, this`lastPosition
      ensures Ready() && position == newPos && lastPosition == Some(newPos)
    {
      hide PageWalker.View, PageWalker.Placed, PageWalker.Storage, Grafted, DoneAt, ReadyAt, LeftOf;
      hide PageWalker.CanStack, PageWalker.Stored, PageWalker.InScope, Below, Reachable, PageWalker.Untried, StackOk,
        Recorded, LiveAt;
      Advance(newPos);
      ScopeDepth(newPos);
      if journal.begun {
        AheadOf(newPos);
        TurnTo(newPos);
      } else {
        AheadFirst(newPos);
        NotTracked(newPos);
      }
      BuildStack(newPos);
    }

    /** The diffs record what was done left of the new position. */
    lemma TurnTo(newPos: Path)
      requires Begun() && Below(position, newPos, Top())
      ensures StackOk(pages, stack, Base(), newPos, false) && Recorded(pages, m0, output)
      ensures LiveAt(journal.model, m0, output, journal.grafts, Top(), newPos)
    {
      hide PageWalker.View, PageWalker.Storage, DoneAt, StackOk, Recorded, LeftOf, LiveAt;
      StackOrTop();
      StackTurn(pages, stack, Base(), position, newPos);
      LiveTurn(journal.model, m0, output, journal.grafts, Top(), position, newPos);
    }

    lemma NotTracked(newPos: Path)
      requires Untried()
      ensures StackOk(pages, stack, Base(), newPos, false) && Recorded(pages, m0, output)
      ensures LiveAt(journal.model, m0, output, journal.grafts, Top(), newPos)
    {
      hide PageWalker.View, Holds, LiveAt;
      NoPages(pages, Base(), newPos);
      LiveFirst(m0, journal.grafts, Top(), newPos);
    }

    /** From a finished position the way to the next one is clear. */
    lemma AheadOf(newPos: Path)
      requires Begun() && Below(position, newPos, Top()) && |newPos| <= KEY_BITS && Reachable(m0, newPos, 0)
      requires InScope(newPos) && Stored(newPos)
      ensures ReadyAt(Progressed(), newPos) && CanStack(newPos) && TopsPlaced()
    {
      hide PageWalker.View, PageWalker.Storage, LeftOf, Reachable, PageOf, IndexOf, PageWalker.Full;
      hide Finished, AllBehind, PutOutBehind, RootsFinished, Accounted, ReadyAt, PageWalker.CanStack;
      ScopeDepth(newPos);
      DoneDepth(Progressed(), position);
      MoveWalk(Progressed(), position, newPos);
      Resume(newPos);
    }

    lemma AheadFirst(newPos: Path)
      requires Untried() && |newPos| <= KEY_BITS && Reachable(m0, newPos, 0) && InScope(newPos) && Stored(newPos)
      ensures ReadyAt(Progressed(), newPos) && CanStack(newPos) && TopsPlaced()
    {
      hide Store.View, LeftOf, Reachable, ReadyAt, IndexOf, Grafted, Holds;
      ScopeDepth(newPos);
      NoGrafts();
      NewWalk(Progressed(), newPos);
    }

    lemma ScopeDepth(pos: Path)
      requires InScope(pos)
      ensures Top() <= |pos| && (pos != [] ==> Top() < |pos|)
    {
    }

    /** The stack fits the way to a new position. */
    lemma Resume(newPos: Path)
      requires Placed() && Below(position, newPos, Top()) && PutOutBehind(output, position) && InScope(newPos)
               && Stored(newPos)
      requires |position| >= Top()
      ensures CanStack(newPos)
    {
      hide LeftOf, IndexOf, PageOf, Store.View, Store.StackedFor, PutOutBehind, Waiting;
      LeftApart(position, newPos);
      ScopeDepth(newPos);
      StackPrefix(Storage(), position, newPos);
      WaitsAhead(pages, output, position, newPos, Top(), Base() + |stack|);
    }

    /** Go on to a terminal further right and build `ops` in its place. */
    method AdvanceAndReplace(newPos: Path, ops: seq<Op>)
      requires Standing() && CanAdvance(newPos) && Stored(newPos) && !Sub(m0, newPos).Internal?
      requires Ascending(ops) && forall op | op in ops :: Covers(newPos, op.0)
      modifies this
      ensures Valid() && position == newPos && lastPosition == Some(newPos)
      ensures journal == old(journal).(model := Replaced(old(journal.model), newPos, MapOf(ops)), begun := true,
                                       visited := old(journal.visited) + {newPos})
    {
      hide PageWalker.Valid, PageWalker.Standing, PageWalker.Ready, PageWalker.Stored, PageWalker.InScope, Reachable,
        LeftOf, Replaced, MapOf, Sub;
      ArriveAt(newPos);
      ReplaceHere(ops);
    }

    method ReplaceHere(ops: seq<Op>)
      requires Ready() && InScope(position) && lastPosition == Some(position) && !Sub(m0, position).Internal?
      requires Ascending(ops) && forall op | op in ops :: Covers(position, op.0)
      modifies this`position, this`stack, this`output, this`root, this`journal
      ensures Valid() && position == old(position)
      ensures journal == old(journal).(model := Replaced(old(journal.model), position, MapOf(ops)), begun := true,
                                       visited := old(journal.visited) + {position})
    {
      hide PageWalker.View, PageWalker.Placed, PageWalker.Storage, Grafted, DoneAt, ReadyAt, LeftOf, PageWalker.Untried;
      hide PageWalker.InScope, Sub, Holds, SameOutside, PutOutBelow, Replaced, MapOf;
      hide PageWalker.Marks, StackOk, Recorded, Settled, PutOutFor, LiveAt, NewThere;
      OldNode();
      ghost var before, out, j := View(), output, journal;
      ghost var s := StoreHere();
      ReplaceTerminal(ops);
      ReplaceTracked(s, ops);
      ReplaceLive(j, before, out, ops);
      ReplaceWalk(before, View(), j.grafts, j.under, j.model, mem0, m0, Top(), j.visited, out, output, childPageRoots,
                  position, MapOf(ops));
      journal := j.(model := Replaced(j.model, position, MapOf(ops)), begun := true, visited := j.visited + {position});
    }

    /** The pages put out are the right ones after the build below the position. */
    lemma ReplaceLive(j: Journal, v: Mem, out: UpdatedPages, ops: seq<Op>)
      requires Placed() && !Sub(m0, position).Internal? && Top() <= |position| <= KEY_BITS
      requires ReadyAt(Progress(Grafted(v, j.grafts, j.under), j.model, mem0, m0, Top(), j.visited, j.grafts, out,
                                childPageRoots), position)
      requires LiveAt(j.model, m0, out, j.grafts, Top(), position) && PutOutFor(MapOf(ops), out, output, position)
      requires Holds(View(), MapOf(ops), position) && (ops != [] ==> Holds(Marks(), MapOf(ops), position))
      ensures LiveAt(Replaced(j.model, position, MapOf(ops)), m0, output, j.grafts, Top(), position)
    {
      hide LiveAt, PutOutFor, Holds, Sub, MapOf, Store.View, Store.StackedFor, MarkView, TopMap, Grafted, PutOutLeft,
        PageOf;
      hide Untouched, AllLeft, RootsFinished, RootsLeft, Accounted, PutOutFits, RightUntouched, LeftFinished, Reachable,
        Replaced, LeftOf;
      NewPagesThere(ops);
      PutOutKeeps(MapOf(ops), out, output, position);
      LiveReplace(j.model, m0, MapOf(ops), out, output, j.grafts, Top(), position);
    }

    lemma NewPagesThere(ops: seq<Op>)
      requires Placed() && Top() <= |position| <= KEY_BITS
      requires Holds(View(), MapOf(ops), position) && (ops != [] ==> Holds(Marks(), MapOf(ops), position))
      ensures NewThere(MapOf(ops), position, output)
    {
      hide Holds, Sub, Store.View, Store.StackedFor, MarkView, TopMap, PageOf;
      forall x: Path | Boundary(x, 0) && Covers(position, x) && Sub(MapOf(ops), x).Internal?
        ensures PageAt(x) in output
      {
        if ops == [] { SubKind(MapOf(ops), x); NothingIn(x); } else { BuildThere(Storage(), MapOf(ops), position, x); }
      }
    }

    /** The diffs record what the build below the position has done. */
    lemma ReplaceTracked(s: Store, ops: seq<Op>)
      requires Placed() && |position| <= KEY_BITS && !Sub(m0, position).Internal? && Top() <= |position|
      requires s.StackedFor(position) && s.base == Base() && s.pages == pages
      requires StackOk(pages, s.stack, Base(), position, false) && Recorded(pages, m0, s.output)
      requires Settled(s.stack, stack, position, View()[position]) && PutOutFor(MapOf(ops), s.output, output, position)
      requires Holds(View(), MapOf(ops), position)
      requires if ops == [] then output == s.output else Holds(Marks(), MapOf(ops), position)
      ensures Tracked(true)
    {
      hide StackOk, Recorded, Settled, PutOutFor, Holds, Sub, MapOf, Store.View, Store.StackedFor, MarkView, TopMap;
      SettledOk(pages, s, stack, position, View()[position]);
      if ops != [] { BuildRecorded(Storage(), m0, MapOf(ops), s.output, position); }
    }

    /** A position in scope was reached, and the node there is still the initial one. */
    lemma OldNode()
      requires Ready() && InScope(position)
      ensures View()[position] == Sub(m0, position) && |position| <= KEY_BITS
      ensures Base() == 0 || |position| > DEPTH * Base()
    {
      hide PageWalker.View, PageWalker.Placed, PageWalker.Storage, ReadyAt;
      ScopeDepth(position);
      FindsOld(Progressed(), position);
      GraftedHere(View(), journal.under, Progressed(), position);
    }

    /** Go on to a position further right and put a node over the finished sub-trie there. */
    method AdvanceAndPlaceNode(newPos: Path, node: Node, ghost below: Mem, ghost n: State)
      requires Standing() && CanAdvance(newPos) && Stored(newPos) && FitsOver(below, newPos, node, n)
      modifies this
      ensures Valid() && position == newPos && lastPosition == Some(newPos)
      ensures journal == Journal(Replaced(old(journal.model), newPos, n), true, old(journal.visited) + {newPos},
                                 old(journal.grafts) + {newPos}, Under(old(journal.under), newPos, below))
    {
      hide PageWalker.Valid, PageWalker.Standing, PageWalker.Ready, PageWalker.Stored, PageWalker.InScope, Reachable,
        LeftOf, Replaced, FitsOver, Under;
      ArriveAt(newPos);
      PlaceNode(node, below, n);
    }

    method PlaceNode(node: Node, ghost below: Mem, ghost n: State)
      requires Ready() && InScope(position) && FitsOver(below, position, node, n) && lastPosition == Some(position)
      modifies this`stack, this`root, this`journal
      ensures Valid()
      ensures journal == Journal(Replaced(old(journal.model), position, n), true, old(journal.visited) + {position},
                                 old(journal.grafts) + {position}, Under(old(journal.under), position, below))
    {
      hide PageWalker.View, PageWalker.Placed, PageWalker.Storage, Grafted, DoneAt, ReadyAt, LeftOf;
      hide PageWalker.InScope, FitsOver, Replaced, Under, Sub, PageWalker.Marks, PageWalker.Tracked, LiveAt;
      OldNode();
      PlaceWalk(View(), journal.grafts, journal.under, journal.model, mem0, m0, Top(), journal.visited,
                output, childPageRoots, position, node, below, n);
      PlaceLive(n);
      WriteTracked(node);
      journal := Journal(Replaced(journal.model, position, n), true, journal.visited + {position},
                         journal.grafts + {position}, Under(journal.under, position, below));
    }

    lemma PlaceLive(n: State)
      requires Ready()
      ensures LiveAt(Replaced(journal.model, position, n), m0, output, journal.grafts + {position}, Top(), position)
    {
      hide LiveAt, PageWalker.View, PageWalker.Placed, PageWalker.Storage, Grafted, PutOutLeft, PageOf, Holds, Sub,
        Replaced, LeftOf;
      hide Untouched, AllLeft, RootsFinished, RootsLeft, Accounted, PutOutFits, RightUntouched, LeftFinished, Reachable;
      LivePlace(journal.model, m0, n, output, journal.grafts, Top(), position);
    }

    /** Write the node of the position, which finishes it. */
    method WriteTracked(node: Node)
      requires Placed() && (position == [] ==> Base() == 0) && (position != [] ==> stack != []) && Tracked(false)
      modifies this`stack, this`root
      ensures Placed() && View() == old(View())[position := node] && Tracked(true)
    {
      hide PageWalker.View, PageWalker.Marks, PageWalker.Placed, PageWalker.Storage, Store.StackedFor, PageOf, SetIn,
        StackOk, Recorded;
      ghost var s := StoreHere();
      if position == [] {
        AtRoot();
        NoPages(pages, Base(), position);
        WriteHere(node);
      } else {
        WriteHere(node);
        SetPages(s, stack, position, node);
      }
    }

    lemma AtRoot()
      requires Placed() && position == []
      ensures stack == []
    {
    }

    /** Go on to a later position and leave it as it is. */
    method Advance(newPos: Path)
      requires Standing() && GoesOn(newPos)
      modifies this`position, this`stack, this`output, this`root, this`childPageRoots, this`lastPosition
      ensures Standing() && lastPosition == Some(newPos)
      ensures journal.begun ==>
                Begun() && if old(position) == [] then position == [] else Below(position, newPos, Top())
      ensures !journal.begun ==> Untried()
    {
      hide PageWalker.View, PageWalker.Placed, PageWalker.Storage, Grafted, DoneAt, ReadyAt, LeftOf;
      hide Reachable, PageWalker.Untried, PageWalker.InScope;
      if lastPosition.Some? {
        if journal.begun && position != [] { Rightwards(newPos); }
        CompactUp(Some(newPos));
      }
      lastPosition := Some(newPos);
    }

    lemma StillStanding()
      requires Valid()
      ensures Standing()
    {
    }

    /** Going on to the right keeps to the way. */
    lemma OnTheWay()
      requires Standing() && lastPosition.Some? && (journal.begun ==> position != [])
      ensures Valid()
    {
    }

    /** Finish the walk: a new root, or the nodes to set in the parent page. */
    method Conclude() returns (out: Output)
      requires Standing()
      modifies this`position, this`stack, this`output, this`root, this`childPageRoots
      ensures Concluded() && out.pages == output
      ensures parentPage.None? ==> out == NewRoot(root, output)
      ensures parentPage.Some? ==> out == ChildPageRoots(childPageRoots, output)
    {
      hide PageWalker.Begun, PageWalker.Untried, PageWalker.Concluded;
      CompactUp(None);
      Ended();
      out := if parentPage.None? then NewRoot(root, output) else ChildPageRoots(childPageRoots, output);
    }

    lemma Ended()
      requires if journal.begun then Begun() && stack == [] else Untried()
      ensures Concluded()
    {
      hide PageWalker.View, PageWalker.Storage, Store.StackedFor, Grafted, DoneAt, LeftOf, Holds, LiveAt;
      if journal.begun {
        StackOrTop();
        EndOfWalk(Progressed(), position);
        LiveEnd(journal.model, m0, output, journal.grafts, Top(), position);
      } else {
        NoGrafts();
        LiveFirst(m0, journal.grafts, Top(), []);
      }
    }

    lemma NoGrafts()
      requires journal.grafts == {}
      ensures Full() == View()
    {
      GraftedNowhere(Storage(), journal.under);
    }

    /** The walk is over: the memory holds the new trie, or its part below each reported root, and
        every position worked at lies below one of those. */
    ghost predicate Concluded()
      reads this
    {
      && stack == [] && TopsPlaced() && NoneInGraft(output, journal.grafts) && Recorded(pages, m0, output)
      && LiveAt(journal.model, m0, output, journal.grafts, Top(), [])
      && (parentPage.None? ==> Holds(Full(), journal.model, []))
      && (parentPage.Some? ==>
            && RootsReported(Full(), journal.model, childPageRoots, Top())
            && AllUnder(journal.visited, childPageRoots) && PutOutUnder(output, childPageRoots))
    }

    /** The page below the current bottom-layer position, or the root page. */
    method ChildPage(ghost bit: bool) returns (id: PageId)
      requires Placed() && |position| % DEPTH == 0 && (Base() == 0 || |position| > DEPTH * Base())
      ensures id == PageOf(position + [bit])
    {
      hide IndexOf, PageOf, Store.View, Store.StackedFor;
      if position == [] {
        RootPage(bit);
        id := [];
      } else {
        var s := Storage();
        StackedNotEmpty(s, position);
        StackedTop(s, position);
        ChildIndexIs(position);
        PageOfChild(position, bit);
        id := s.Top().id + [IndexOf(position) - 62];
      }
    }
  }
}
