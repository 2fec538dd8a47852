/** What building a sub-trie below a position does to the pages: those above the position are kept, that
    of the position changes below its first layer, and new pages are put out with all their slots marked. */
module PageBuilds {
  import opened Trie
  import opened TriePos
  import opened Memory
  import opened PagedMemory
  import opened PageStack
  import opened PageMarks
  import opened DiffCoverage
  import opened PageRecords

  /** The top page with the node of a position set. */
  ghost predicate SetIn(st: seq<StackPage>, st': seq<StackPage>, x: Path, node: Node) {
    && st != [] && x != [] && IndexOf(x) < NODES_PER_PAGE && SiblingIndex(IndexOf(x)) < NODES_PER_PAGE
    && st' == st[|st| - 1 := st[|st| - 1].Set(IndexOf(x), node)]
  }

  /** The top page with the node of a position's sibling set. */
  ghost predicate MarkIn(st: seq<StackPage>, st': seq<StackPage>, x: Path, node: Node) {
    && st != [] && x != [] && SiblingIndex(IndexOf(x)) < NODES_PER_PAGE
    && st' == st[|st| - 1 := st[|st| - 1].Mark(SiblingIndex(IndexOf(x)), node)]
  }

  /** What the top page holds at a position, and at its sibling. */
  ghost predicate ReadIn(st: seq<StackPage>, x: Path, node: Node, sibling: Node) {
    && st != [] && x != [] && IndexOf(x) < NODES_PER_PAGE && SiblingIndex(IndexOf(x)) < NODES_PER_PAGE
    && st[|st| - 1].page[IndexOf(x)] == node && st[|st| - 1].page[SiblingIndex(IndexOf(x))] == sibling
  }

  /** New pages were stacked on top. */
  ghost predicate StackGrown(st: seq<StackPage>, st': seq<StackPage>) {
    st <= st' && forall i | |st| <= i < |st'| :: NewAndKept(st'[i])
  }

  /** A new page that is not noted as cleared. */
  ghost predicate NewAndKept(e: StackPage) { e.isNew && e.diff.Plain() }

  lemma GrownTransitive(a: seq<StackPage>, b: seq<StackPage>, c: seq<StackPage>)
    requires StackGrown(a, b) && StackGrown(b, c)
    ensures StackGrown(a, c)
  {
  }

  lemma GrownNone(st: seq<StackPage>)
    ensures StackGrown(st, st)
  {
  }

  /** Moving up leaves the page of the position when it was in its first layer. */
  ghost predicate LeftUp(st: seq<StackPage>, output: UpdatedPages, st': seq<StackPage>, output': UpdatedPages,
                         p: Path) {
    && st != [] && p != []
    && if DepthInPage(|p|) == 1
       then var top := st[|st| - 1]; top.id == PageOf(p) && st' == st[..|st| - 1] && output' == output[top.id := top]
       else st' == st && output' == output
  }

  // ----- the stack during a build

  /** The pages that were stacked are kept, the last of them but for slots below its first layer, and
      the others are new. */
  ghost predicate StackKept(st0: seq<StackPage>, st: seq<StackPage>) {
    && |st0| <= |st| && (forall i | |st0| <= i < |st| :: NewAndKept(st[i]))
    && (forall i | 0 <= i < |st0| - 1 :: st[i] == st0[i])
    && (st0 != [] ==> Runs(st0[|st0| - 1], st[|st0| - 1], 2))
  }

  lemma NothingBuilt(st: seq<StackPage>)
    ensures StackKept(st, st)
  {
    if st != [] { RunsNowhere(st[|st| - 1], 2); }
  }

  /** The number of stacked pages at a position. */
  ghost predicate Height(base: nat, x: Path, n: nat) {
    if |x| <= DEPTH * base then n == 0 else n == |PageOf(x)| + 1 - base
  }

  lemma HeightIs(s: Store, x: Path)
    requires s.StackedFor(x)
    ensures Height(s.base, x, |s.stack|)
  {
  }

  /** Properly below the start of a build one is in another page or below the first layer. */
  lemma InnerSlot(s: Store, start: Path, x: Path, n: nat)
    requires s.StackedFor(x) && s.stack != [] && Height(s.base, start, n) && n <= |s.stack| && |x| > |start|
    ensures |s.stack| > n || IndexOf(x) >= 2
    ensures DepthInPage(|x|) == 1 ==> |s.stack| > n
  {
    hide PageOf, IndexOf;
    StackHeight(s, x);
    FirstLayer(x);
  }

  lemma KeptSet(st0: seq<StackPage>, st: seq<StackPage>, st': seq<StackPage>, x: Path, node: Node)
    requires StackKept(st0, st) && SetIn(st, st', x, node) && (|st| > |st0| || IndexOf(x) >= 2) && node != Terminator
    ensures StackKept(st0, st')
  {
    hide IndexOf, SiblingIndex, Runs;
    if |st| == |st0| { RunsSet(st0[|st0| - 1], st[|st0| - 1], 2, IndexOf(x), node); }
  }

  lemma KeptMark(st0: seq<StackPage>, st: seq<StackPage>, st': seq<StackPage>, x: Path, node: Node)
    requires StackKept(st0, st) && MarkIn(st, st', x, node) && (|st| > |st0| || IndexOf(x) >= 2)
    ensures StackKept(st0, st')
  {
    hide IndexOf, SiblingIndex, Runs;
    IndexSibling(x);
    FirstLayer(x);
    FirstLayer(Sib(x, |x|));
    SiblingInRange(Sib(x, |x|));
    if |st| == |st0| { RunsMark(st0[|st0| - 1], st[|st0| - 1], 2, SiblingIndex(IndexOf(x)), node); }
  }

  lemma KeptPop(st0: seq<StackPage>, st: seq<StackPage>)
    requires StackKept(st0, st) && |st| > |st0|
    ensures StackKept(st0, st[..|st| - 1]) && NewAndKept(st[|st| - 1])
  {
  }

  lemma KeptUp(st0: seq<StackPage>, st: seq<StackPage>, output: UpdatedPages, st': seq<StackPage>,
               output': UpdatedPages, p: Path)
    requires StackKept(st0, st) && LeftUp(st, output, st', output', p) && |p| <= KEY_BITS
    requires DepthInPage(|p|) == 1 ==> |st| > |st0|
    ensures StackKept(st0, st') && PutOutNew(output, output', p[..|p| - 1])
  {
    hide PageOf, DepthInPage, StackKept, PutOutNew;
    if DepthInPage(|p|) == 1 {
      KeptPop(st0, st);
      PutOutTop(output, st[|st| - 1], p);
    } else {
      NothingPutOut(map[], output, p[..|p| - 1]);
    }
  }

  lemma SameHeight(base: nat, x: Path, n: nat, n': nat)
    requires Height(base, x, n) && Height(base, x, n')
    ensures n == n' && (x == [] ==> n == 0)
  {
  }

  lemma KeptLength(st0: seq<StackPage>, st: seq<StackPage>)
    requires StackKept(st0, st)
    ensures |st0| <= |st|
  {
  }

  lemma SetLength(st: seq<StackPage>, st': seq<StackPage>, x: Path, node: Node)
    requires SetIn(st, st', x, node)
    ensures |st'| == |st| > 0
  {
  }

  lemma KeptPush(st0: seq<StackPage>, st: seq<StackPage>, st': seq<StackPage>)
    requires StackKept(st0, st) && StackGrown(st, st')
    ensures StackKept(st0, st')
  {
  }

  ghost predicate SettledPage(a: StackPage, mid: StackPage, b: StackPage, x: Path, node: Node) {
    && x != [] && IndexOf(x) < NODES_PER_PAGE && SiblingIndex(IndexOf(x)) < NODES_PER_PAGE
    && Runs(a, mid, 2) && b == mid.Set(IndexOf(x), node)
  }

  ghost predicate SetOver(a: StackPage, b: StackPage, x: Path, node: Node) {
    exists mid :: SettledPage(a, mid, b, x, node)
  }

  /** The build is over: the node of its start was set last. */
  ghost predicate Settled(st0: seq<StackPage>, st: seq<StackPage>, x: Path, node: Node) {
    && |st| == |st0| && (forall i | 0 <= i < |st0| - 1 :: st[i] == st0[i])
    && (st0 != [] ==> SetOver(st0[|st0| - 1], st[|st0| - 1], x, node))
  }

  lemma Settles(st0: seq<StackPage>, st: seq<StackPage>, st': seq<StackPage>, x: Path, node: Node)
    requires StackKept(st0, st) && |st| == |st0| && if st == [] then st' == [] else SetIn(st, st', x, node)
    ensures Settled(st0, st', x, node)
  {
    hide IndexOf, SiblingIndex, Runs;
    if st != [] { assert SettledPage(st0[|st0| - 1], st[|st0| - 1], st'[|st0| - 1], x, node); }
  }

  lemma SettlesHere(st0: seq<StackPage>, st: seq<StackPage>, st': seq<StackPage>, x: Path, node: Node, base: nat)
    requires StackKept(st0, st) && |st| == |st0| && Height(base, x, |st|)
    requires if x == [] then st' == st else SetIn(st, st', x, node)
    ensures Settled(st0, st', x, node)
  {
    hide IndexOf, PageOf, Settled;
    Settles(st0, st, st', x, node);
  }

  /** A settled build has passed the first layer of the page of its start, if it started there. */
  lemma SettledOk(pages: PageSet, s: Store, st: seq<StackPage>, at: Path, node: Node)
    requires s.StackedFor(at) && StackOk(pages, s.stack, s.base, at, false) && Settled(s.stack, st, at, node)
             && |at| <= KEY_BITS
    ensures StackOk(pages, st, s.base, at, true)
  {
    hide IndexOf, SiblingIndex, Runs, Edited, Store.StackedFor;
    if s.stack != [] {
      var n := |s.stack| - 1;
      var mid :| SettledPage(s.stack[n], mid, st[n], at, node);
      var t := s.WithTop(mid);
      RunsSlot(s.stack[n], mid, 2, 0);
      StackedWithTop(s, at, mid);
      forall i | 0 <= i < |t.stack| ensures EditedAt(pages, t.stack, s.base, i, at, false) {
        assert EditedAt(pages, s.stack, s.base, i, at, false);
        if i == n { EditedOn(pages, s.stack[n], mid, at[DEPTH * (s.base + n)]); }
      }
      SetTop(pages, t, at, node);
      assert st == t.WithTop(t.Top().Set(IndexOf(at), node)).stack;
    }
  }

  // ----- the pages put out during a build

  ghost predicate StillOut(output: UpdatedPages, output': UpdatedPages, id: PageId) {
    id in output && id in output' && output'[id] == output[id]
  }

  /** Besides what was put out before there are only new pages that hang from `x`. */
  ghost predicate PutOutNew(output: UpdatedPages, output': UpdatedPages, x: Path) {
    && output.Keys <= output'.Keys && (forall id | id in output' :: id in output || IsPage(id))
    && forall y: Path | y != [] && PageOf(y) in output' ::
      StillOut(output, output', PageOf(y)) || (NewPage(output', PageOf(y)) && Stem(y) == x)
  }

  ghost predicate NewPage(output: UpdatedPages, id: PageId) {
    id in output && NewAndKept(output[id]) && output[id].id == id
  }

  /** Besides what was put out before there are only new pages that hang from internal nodes of the trie
      built below `start`. */
  ghost predicate PutOutFor(n: State, output: UpdatedPages, output': UpdatedPages, start: Path) {
    && output.Keys <= output'.Keys && (forall id | id in output' :: id in output || IsPage(id))
    && forall y: Path | 0 < |y| <= KEY_BITS && PageOf(y) in output' ::
      StillOut(output, output', PageOf(y)) || (NewPage(output', PageOf(y)) && HangsIn(n, start, y))
  }

  ghost predicate HangsIn(n: State, start: Path, y: Path)
    requires 0 < |y| <= KEY_BITS
  {
    Covers(start, Stem(y)) && Sub(n, Stem(y)).Internal?
  }

  lemma NothingPutOut(n: State, output: UpdatedPages, start: Path)
    ensures PutOutFor(n, output, output, start) && PutOutNew(output, output, start)
  {
  }

  /** Leaving a new page for the position it hangs from. */
  lemma PutOutTop(output: UpdatedPages, top: StackPage, p: Path)
    requires 0 < |p| <= KEY_BITS && DepthInPage(|p|) == 1 && NewAndKept(top) && top.id == PageOf(p)
    ensures PutOutNew(output, output[top.id := top], p[..|p| - 1])
  {
    hide PageOf;
    assert LiesIn(p, top.id);
    StemOnly(p);
    forall y: Path | y != [] && PageOf(y) == top.id ensures Stem(y) == p[..|p| - 1] {
      assert |p| - 1 == DEPTH * |PageOf(p)|;
    }
  }

  lemma PutOutKeeps(n: State, output: UpdatedPages, output': UpdatedPages, start: Path)
    requires PutOutFor(n, output, output', start)
    ensures output.Keys <= output'.Keys
  {
  }

  lemma PutOutMore(n: State, a: UpdatedPages, b: UpdatedPages, c: UpdatedPages, start: Path, x: Path)
    requires PutOutFor(n, a, b, start) && PutOutNew(b, c, x) && Covers(start, x) && |x| <= KEY_BITS
             && Sub(n, x).Internal?
    ensures PutOutFor(n, a, c, start)
  {
    hide PageOf, Sub;
    forall y: Path | 0 < |y| <= KEY_BITS && PageOf(y) in c
      ensures StillOut(a, c, PageOf(y)) || (NewPage(c, PageOf(y)) && HangsIn(n, start, y))
    {
      if StillOut(b, c, PageOf(y)) { assert StillOut(a, b, PageOf(y)) || NewPage(b, PageOf(y)); }
    }
  }

  // ----- the marks of a finished build

  /** Above an internal node there are only internal nodes. */
  lemma InternalUp(m: State, x: Path, i: nat)
    requires i <= |x| <= KEY_BITS && Sub(m, x).Internal?
    ensures Sub(m, x[..i]).Internal?
  {
    var k, k' := TwoBelow(m, x);
    SubInternal(m, x[..i], k, k');
  }

  lemma TwoBelow(m: State, x: Path) returns (k: Key, k': Key)
    requires |x| <= KEY_BITS && Sub(m, x).Internal?
    ensures k in m && k' in m && k != k' && Covers(x, k) && Covers(x, k')
  {
    k :| k in m && Covers(x, k);
    if forall j | j in m && Covers(x, j) :: j == k {
      assert Only(m, x, k);
    }
    k' :| k' in m && Covers(x, k') && k' != k;
  }

  /** A position reached through internal nodes of memory is reachable in the trie held there. */
  lemma {:induction false} ReachedIs(mem: Mem, m: State, start: Path, y: Path, j: nat)
    requires |start| <= j <= |y| <= KEY_BITS && Covers(start, y) && Holds(mem, m, start)
    requires forall i | |start| <= i < j :: Sub(m, y[..i]).Internal? || mem[y[..i]].Internal?
    ensures Reachable(m, y[..j], |start|) && Holds(mem, m, y[..j])
  {
    hide Sub, Holds;
    if j > |start| {
      ReachedIs(mem, m, start, y, j - 1);
      HoldsHere(mem, m, y[..j - 1]);
      forall i | |start| <= i < j ensures Sub(m, y[..j][..i]).Internal? {
        assert y[..j][..i] == y[..i];
        if i < j - 1 { assert y[..j - 1][..i] == y[..i]; }
      }
    }
    assert y[..j][..|start|] == start;
    HoldsBelow(mem, m, y[..j], |start|);
  }

  lemma HoldsHere(mem: Mem, m: State, x: Path)
    requires |x| <= KEY_BITS && Holds(mem, m, x)
    ensures mem[x] == Sub(m, x)
  {
  }

  /** A memory and its marks that both hold a trie agree on every position that is reached. */
  lemma MarkedWhereReached(mem: Mem, marks: Mem, m: State, start: Path, y: Path)
    requires 0 < |y| <= KEY_BITS && |start| <= |Stem(y)| && Covers(start, y) && Holds(mem, m, start)
             && Holds(marks, m, start)
    requires Sub(m, Stem(y)).Internal? && forall i | |Stem(y)| < i < |y| :: mem[y[..i]].Internal?
    ensures marks[y] == mem[y]
  {
    hide Sub, Holds, PageOf, Reachable;
    var x := Stem(y);
    forall i | |start| <= i < |y| ensures Sub(m, y[..i]).Internal? || mem[y[..i]].Internal? {
      if i <= |x| {
        InternalUp(m, x, i);
        assert x[..i] == y[..i];
      }
    }
    ReachedIs(mem, m, start, y, |y|);
    assert y[..|y|] == y && y[..|start|] == start;
    HoldsBelow(marks, m, y, |start|);
    HoldsHere(mem, m, y);
    HoldsHere(marks, m, y);
  }

  /** The new pages of a finished build are recorded. */
  lemma BuildRecorded(s: Store, m0: State, n: State, output: UpdatedPages, start: Path)
    requires Recorded(s.pages, m0, output) && PutOutFor(n, output, s.output, start)
    requires |start| <= KEY_BITS && !Sub(m0, start).Internal? && s.StackedFor(start)
    requires forall x | x in s.tops :: |x| <= |start|
    requires Holds(s.View(), n, start) && Holds(MarkView(s), n, start)
    ensures Recorded(s.pages, m0, s.output)
  {
    hide Sub, Holds, PageOf, Store.View, MarkView, Store.StackedFor, StackOk, ClosedPage, SlotLogged, HangsIn;
    forall y: Path | 0 < |y| <= KEY_BITS && PageOf(y) in s.output
      ensures PageRecorded(s.pages, m0, s.output[PageOf(y)], y)
    {
      if StillOut(output, s.output, PageOf(y)) {
        assert PageRecorded(s.pages, m0, output[PageOf(y)], y);
      } else {
        NotInternalBelow(m0, n, start, y);
        NewIsLogged(s, n, start, y);
      }
    }
  }

  /** All pages that hang from internal nodes of a finished build were put out. */
  lemma BuildThere(s: Store, n: State, start: Path, x: Path)
    requires |start| <= KEY_BITS && s.StackedFor(start) && forall t | t in s.tops :: |t| <= |start|
    requires Holds(s.View(), n, start) && Holds(MarkView(s), n, start)
    requires |x| < KEY_BITS && |x| % DEPTH == 0 && Covers(start, x) && Sub(n, x).Internal?
    ensures PageOf(x + [false]) in s.output
  {
    hide Sub, Holds, PageOf, IndexOf, Store.View, MarkView, Store.StackedFor;
    var y := x + [false];
    assert y[..|x|] == x && Stem(y) == x && y[..|start|] == x[..|start|] == start;
    NotStacked(s, start, y);
    MarkedWhereReached(s.View(), MarkView(s), n, start, y);
    ShownIsTouched(s, y);
  }

  lemma NotInternalBelow(m0: State, n: State, start: Path, y: Path)
    requires 0 < |y| <= KEY_BITS && HangsIn(n, start, y) && !Sub(m0, start).Internal?
    ensures !Sub(m0, Stem(y)).Internal?
  {
    hide Sub, PageOf;
    assert Stem(y)[..|start|] == start;
    if Sub(m0, Stem(y)).Internal? { InternalUp(m0, Stem(y), |start|); }
  }

  lemma NewIsLogged(s: Store, n: State, start: Path, y: Path)
    requires 0 < |y| <= KEY_BITS && PageOf(y) in s.output && HangsIn(n, start, y) && s.StackedFor(start)
    requires forall x | x in s.tops :: |x| <= |start|
    requires Holds(s.View(), n, start) && Holds(MarkView(s), n, start)
    ensures SlotLogged(s.output[PageOf(y)], y)
  {
    hide Sub, Holds, PageOf, IndexOf, Store.View, MarkView, Store.StackedFor;
    var e, x := s.output[PageOf(y)], Stem(y);
    assert y[..|start|] == x[..|start|] == start;
    NotStacked(s, start, y);
    if forall i | |x| < i < |y| :: HasInternal(e, y[..i]) {
      forall i | |x| < i < |y| ensures s.View()[y[..i]].Internal? {
        assert HasInternal(e, y[..i]);
        SamePage(y, i);
        OutputSlot(s, y[..i]);
      }
      MarkedWhereReached(s.View(), MarkView(s), n, start, y);
      ShownIsMarked(s, y);
    }
  }

  /** All positions of a page between its stem and a position of it. */
  lemma SamePage(y: Path, i: nat)
    requires y != [] && |Stem(y)| < i <= |y|
    ensures PageOf(y[..i]) == PageOf(y)
  {
    forall j | 0 <= j < |PageOf(y)| ensures Sextet(y[..i], j) == Sextet(y, j) {
      assert y[..i][DEPTH * j..DEPTH * (j + 1)] == y[DEPTH * j..DEPTH * (j + 1)];
    }
  }

  lemma NotStacked(s: Store, start: Path, y: Path)
    requires s.StackedFor(start) && y != [] && Covers(start, Stem(y))
    ensures !s.OnStack(PageOf(y))
  {
    hide PageOf;
    if s.stack != [] { StackHeight(s, start); }
  }

  lemma OutputSlot(s: Store, y: Path)
    requires 0 < |y| <= KEY_BITS && y !in s.tops && !s.OnStack(PageOf(y)) && PageOf(y) in s.output
    ensures IndexOf(y) < NODES_PER_PAGE && s.View()[y] == s.output[PageOf(y)].page[IndexOf(y)]
  {
    hide IndexOf, PageOf;
    IndexRange(y);
  }

  // ----- climbing

  /** The top page after combining the node of a position with its sibling. */
  ghost predicate SteppedIn(st: seq<StackPage>, st': seq<StackPage>, p: Path, next: Node) {
    && st != [] && p != [] && |st'| == |st| && st' == st[|st| - 1 := st'[|st| - 1]]
    && Stepped(st[|st| - 1], st'[|st| - 1], p, next)
  }

  /** Nothing is written when both are empty or an internal node comes about. */
  lemma StepKept(st: seq<StackPage>, p: Path, node: Node, sibling: Node, next: Node)
    requires ReadIn(st, p, node, sibling) && (next.Internal? <==> !(node.Terminator? && sibling.Terminator?))
    ensures SteppedIn(st, st, p, next)
  {
    hide IndexOf, SiblingIndex;
  }

  /** A lone leaf at the position moves up. */
  lemma StepHere(st: seq<StackPage>, st': seq<StackPage>, p: Path, node: Node, next: Node)
    requires ReadIn(st, p, node, Terminator) && SetIn(st, st', p, Terminator)
    ensures !next.Internal? ==> SteppedIn(st, st', p, next)
  {
    hide IndexOf, SiblingIndex;
  }

  /** A lone leaf at its sibling moves up. */
  lemma StepSibling(st: seq<StackPage>, st': seq<StackPage>, p: Path, sibling: Node, next: Node)
    requires ReadIn(st, p, Terminator, sibling) && SetIn(st, st', Sib(p, |p|), Terminator)
    ensures !next.Internal? ==> SteppedIn(st, st', p, next)
  {
    hide IndexOf;
    IndexSibling(p);
  }

  /** Climbing from the first layer of a page puts it out, cleared if the node it hangs from is not
      internal. */
  ghost predicate OutUp(output: UpdatedPages, output': UpdatedPages, p: Path, inner: bool)
    requires p != []
  {
    if DepthInPage(|p|) == 1
    then && PageOf(p) in output' && output' == output[PageOf(p) := output'[PageOf(p)]]
         && (output'[PageOf(p)].diff.Cleared() <==> !inner)
    else output' == output
  }

  /** Climbing a step keeps the record of all pages. */
  lemma ClimbPages(m0: State, s: Store, st: seq<StackPage>, p: Path, from: Path, st': seq<StackPage>,
                   output': UpdatedPages, next: Node)
    requires s.StackedFor(p) && StackOk(s.pages, s.stack, s.base, p, true) && Recorded(s.pages, m0, s.output)
    requires SteppedIn(s.stack, st, p, next) && LeftUp(st, s.output, st', output', from) && |from| == |p|
             && PageOf(from) == PageOf(p)
    requires 0 < |p| <= KEY_BITS && Sub(m0, p[..|p| - 1]).Internal?
    ensures StackOk(s.pages, st', s.base, p[..|p| - 1], false) && Recorded(s.pages, m0, output')
    ensures OutUp(s.output, output', p, next.Internal?)
  {
    hide IndexOf, PageOf, Store.StackedFor, DepthInPage, StackOk, Recorded, Sub, Stepped;
    var e := st[|st| - 1];
    if DepthInPage(|p|) == 1 {
      SteppedOut(s.pages, s, p, e, next);
      RecordedOut(s.pages, m0, s.output, p, e);
      assert st' == s.stack[..|s.stack| - 1];
    } else {
      SteppedInside(s.pages, s, p, e, next);
    }
  }

  /** Setting the node of the position finishes it. */
  lemma SetPages(s: Store, st: seq<StackPage>, at: Path, node: Node)
    requires s.StackedFor(at) && |at| <= KEY_BITS && StackOk(s.pages, s.stack, s.base, at, false)
             && SetIn(s.stack, st, at, node)
    ensures StackOk(s.pages, st, s.base, at, true)
  {
    hide IndexOf, PageOf, Store.StackedFor, StackOk, SiblingIndex;
    SetTop(s.pages, s, at, node);
  }

  lemma NoPages(pages: PageSet, base: nat, at: Path)
    ensures StackOk(pages, [], base, at, true) && StackOk(pages, [], base, at, false)
  {
  }
}
