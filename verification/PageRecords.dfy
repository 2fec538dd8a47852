/** What the diffs of a walk's pages record: how the first layer of a page, whose emptying is noted
    for the page as a whole, passes from untouched to put out. */
module PageRecords {
  import opened Trie
  import opened TriePos
  import opened CountLeaves
  import opened Memory
  import opened PagedMemory
  import opened PageStack
  import opened DiffCoverage

  // ----- the first layer of one page

  ghost predicate SlotUntouched(o: Page, e: StackPage, slot: nat)
    requires slot < NODES_PER_PAGE
  {
    !e.diff.Changed(slot) && e.page[slot] == o[slot]
  }

  /** The left slot is marked, unless it is as it was, or was emptied beside a slot that was empty. */
  ghost predicate LeftOk(o: Page, e: StackPage) {
    if e.diff.Changed(0) then !(e.page[0] == Terminator && o[1] == Terminator)
    else e.page[0] == o[0] || (e.page[0] == Terminator && o[1] == Terminator)
  }

  ghost predicate BothEmpty(e: StackPage) { e.page[0] == Terminator && e.page[1] == Terminator }

  /** The walk is in the left or the right half of the page; `done` once the first layer slot of that
      half is written. */
  ghost predicate Phase(o: Page, e: StackPage, right: bool, done: bool) {
    && (if right || done then LeftOk(o, e) else SlotUntouched(o, e, 0))
    && (if right && done then e.diff.Changed(1) || e.diff.Cleared() else SlotUntouched(o, e, 1))
    && (done ==> (e.diff.Cleared() <==> BothEmpty(e)))
  }

  /** The walk is through with the page: it is noted as cleared just when its first layer is empty, and
      otherwise the right slot is marked or as it was. */
  ghost predicate Closed(o: Page, e: StackPage) {
    && (e.diff.Cleared() <==> BothEmpty(e))
    && (!e.diff.Cleared() ==> LeftOk(o, e) && (e.diff.Changed(1) || e.page[1] == o[1]))
  }

  lemma PhaseLoaded(pages: PageSet, id: PageId, right: bool)
    requires id in pages.pages
    ensures Phase(pages.pages[id], Load(pages, id), right, false)
  {
  }

  lemma PhaseKept(o: Page, a: StackPage, b: StackPage, right: bool)
    requires Phase(o, a, right, false) && Runs(a, b, 2)
    ensures Phase(o, b, right, false)
  {
    RunsSlot(a, b, 2, 0);
    RunsSlot(a, b, 2, 1);
  }

  lemma PhaseSet(o: Page, e: StackPage, right: bool, node: Node)
    requires Phase(o, e, right, false)
    ensures Phase(o, e.Set(if right then 1 else 0, node), right, true)
  {
  }

  lemma PhaseTurn(o: Page, e: StackPage)
    requires Phase(o, e, false, true)
    ensures Phase(o, e, true, false)
  {
  }

  /** A lone leaf leaves its slot. */
  ghost predicate Left(e: StackPage, e': StackPage, index: nat) {
    && index < NODES_PER_PAGE && SiblingIndex(index) < NODES_PER_PAGE
    && e' == e.Set(index, Terminator) && e.page[SiblingIndex(index)] == Terminator
  }

  lemma PhaseClosed(o: Page, e: StackPage, e': StackPage, right: bool, index: nat)
    requires Phase(o, e, right, true) && (e' == e || (index < 2 && Left(e, e', index)))
    ensures Closed(o, e')
  {
  }

  // ----- the pages on the stack

  /** An edited page that was loaded from the page set. */
  ghost predicate Edited(pages: PageSet, e: StackPage, right: bool, done: bool) {
    && !e.isNew && e.id in pages.pages && Runs(Load(pages, e.id), e, 0)
    && Phase(pages.pages[e.id], e, right, done)
  }

  ghost predicate EditedAt(pages: PageSet, stack: seq<StackPage>, base: nat, i: nat, at: Path, done: bool)
    requires i < |stack|
  {
    var stem := DEPTH * (base + i);
    stem < |at| && Edited(pages, stack[i], at[stem], done && |at| == stem + 1)
  }

  ghost predicate StackOk(pages: PageSet, stack: seq<StackPage>, base: nat, at: Path, done: bool) {
    forall i | 0 <= i < |stack| :: EditedAt(pages, stack, base, i, at, done)
  }

  lemma FirstSlot(x: Path)
    requires x != [] && DepthInPage(|x|) == 1
    ensures IndexOf(x) == if x[|x| - 1] then 1 else 0
  {
    var stem := x[..|x| - 1];
    assert x == stem + [x[|x| - 1]];
    IndexDown(stem, x[|x| - 1]);
  }

  /** The number of stacked pages tells the page of the position. */
  lemma StackHeight(s: Store, x: Path)
    requires s.StackedFor(x) && s.stack != []
    ensures x != [] && DEPTH * (s.base + |s.stack| - 1) < |x| <= DEPTH * (s.base + |s.stack|)
    ensures DEPTH * (s.base + |s.stack| - 1) == DEPTH * |PageOf(x)|
    ensures DepthInPage(|x|) == 1 <==> |x| == DEPTH * (s.base + |s.stack| - 1) + 1
  {
    StackedTop(s, x);
  }

  lemma EditedOn(pages: PageSet, a: StackPage, b: StackPage, right: bool)
    requires Edited(pages, a, right, false) && Runs(a, b, 2)
    ensures Edited(pages, b, right, false)
  {
    RunsSlot(a, b, 2, 0);
    hide Phase;
    PhaseKept(pages.pages[a.id], a, b, right);
    RunsTransitive(Load(pages, a.id), a, b, 2);
  }

  lemma EditedSet(pages: PageSet, e: StackPage, right: bool, node: Node)
    requires Edited(pages, e, right, false)
    ensures Edited(pages, e.Set(if right then 1 else 0, node), right, true)
  {
    hide Phase;
    PhaseSet(pages.pages[e.id], e, right, node);
    RunsSet(Load(pages, e.id), e, 0, if right then 1 else 0, node);
  }

  /** Writing the node of the position in the top page. */
  lemma SetTop(pages: PageSet, s: Store, at: Path, node: Node)
    requires s.StackedFor(at) && s.stack != [] && StackOk(pages, s.stack, s.base, at, false) && |at| <= KEY_BITS
    ensures at != [] && IndexOf(at) < NODES_PER_PAGE && SiblingIndex(IndexOf(at)) < NODES_PER_PAGE
    ensures StackOk(pages, s.WithTop(s.Top().Set(IndexOf(at), node)).stack, s.base, at, true)
  {
    hide IndexOf, PageOf, Store.StackedFor, SiblingIndex, Edited, Phase, DepthInPage;
    StackHeight(s, at);
    IndexRange(at);
    SiblingInRange(at);
    FirstLayer(at);
    var n := |s.stack| - 1;
    var e := s.stack[n];
    var st := s.WithTop(e.Set(IndexOf(at), node)).stack;
    forall i | 0 <= i < |st| ensures EditedAt(pages, st, s.base, i, at, true) {
      assert EditedAt(pages, s.stack, s.base, i, at, false);
      if i == n {
        if DepthInPage(|at|) == 1 {
          FirstSlot(at);
          EditedSet(pages, e, at[|at| - 1], node);
        } else {
          RunsNowhere(e, 2);
          RunsSet(e, e, 2, IndexOf(at), node);
          EditedOn(pages, e, e.Set(IndexOf(at), node), at[DEPTH * (s.base + n)]);
        }
      }
    }
  }

  /** Turning to a position on the right, just below the point where the paths part. */
  lemma StackTurn(pages: PageSet, stack: seq<StackPage>, base: nat, at: Path, to: Path)
    requires StackOk(pages, stack, base, at, true) && LeftOf(at, to) && (stack != [] ==> SharedBits(at, to) == |at| - 1)
    ensures StackOk(pages, stack, base, to, false)
  {
    hide Phase;
    forall i | 0 <= i < |stack| ensures EditedAt(pages, stack, base, i, to, false) {
      assert EditedAt(pages, stack, base, i, at, true);
      var stem := DEPTH * (base + i);
      if stem < |at| - 1 {
        assert at[stem] == at[..|at| - 1][stem] == to[..|at| - 1][stem] == to[stem];
      } else {
        PhaseTurn(pages.pages[stack[i].id], stack[i]);
      }
    }
  }

  lemma StackLoaded(pages: PageSet, stack: seq<StackPage>, more: seq<StackPage>, base: nat, to: Path)
    requires to != [] && StackOk(pages, stack, base, to, false) && LoadedFrom(pages, more, PageOf(to), base + |stack|)
    ensures StackOk(pages, stack + more, base, to, false)
  {
    hide PageOf, Phase;
    var all := stack + more;
    forall i | 0 <= i < |all| ensures EditedAt(pages, all, base, i, to, false) {
      if i < |stack| {
        assert EditedAt(pages, stack, base, i, to, false);
      } else {
        var n := base + i;
        assert all[i] == more[n - (base + |stack|)] == Load(pages, PageOf(to)[..n]);
        PhaseLoaded(pages, PageOf(to)[..n], to[DEPTH * n]);
        RunsNowhere(all[i], 0);
      }
    }
  }

  // ----- climbing

  /** Combining a node with its sibling writes at most one of the two, and only for a lone leaf. */
  ghost predicate Stepped(e: StackPage, e': StackPage, p: Path, next: Node)
    requires p != []
  {
    || (e' == e && JoinsAs(e, IndexOf(p), next))
    || (!next.Internal? && (Left(e, e', IndexOf(p)) || Left(e, e', IndexOf(Sib(p, |p|)))))
  }

  /** A slot and its sibling make an internal node unless both are empty. */
  ghost predicate JoinsAs(e: StackPage, index: nat, next: Node) {
    && index < NODES_PER_PAGE && SiblingIndex(index) < NODES_PER_PAGE
    && (next.Internal? <==> !(e.page[index] == Terminator && e.page[SiblingIndex(index)] == Terminator))
  }

  lemma SteppedRuns(pages: PageSet, e: StackPage, e': StackPage, p: Path, next: Node)
    requires p != [] && Stepped(e, e', p, next) && e.id in pages.pages && Runs(Load(pages, e.id), e, 0)
    ensures e'.id == e.id && e'.isNew == e.isNew && Runs(Load(pages, e.id), e', 0)
    ensures DepthInPage(|p|) != 1 ==> Runs(e, e', 2)
  {
    hide IndexOf, SiblingIndex, Runs, JoinsAs;
    RunsNowhere(e, 2);
    FirstLayer(p);
    FirstLayer(Sib(p, |p|));
    if Left(e, e', IndexOf(p)) {
      RunsSet(Load(pages, e.id), e, 0, IndexOf(p), Terminator);
      if IndexOf(p) >= 2 { RunsSet(e, e, 2, IndexOf(p), Terminator); }
    } else if Left(e, e', IndexOf(Sib(p, |p|))) {
      RunsSet(Load(pages, e.id), e, 0, IndexOf(Sib(p, |p|)), Terminator);
      if IndexOf(Sib(p, |p|)) >= 2 { RunsSet(e, e, 2, IndexOf(Sib(p, |p|)), Terminator); }
    }
  }

  /** In the first layer both slots are empty afterwards just when no internal node came about. */
  lemma SteppedEmpty(e: StackPage, e': StackPage, p: Path, next: Node)
    requires p != [] && DepthInPage(|p|) == 1 && Stepped(e, e', p, next)
    ensures BothEmpty(e') <==> !next.Internal?
  {
    hide IndexOf;
    FirstSlot(p);
    FirstSlot(Sib(p, |p|));
  }

  /** Below the first layer the page stays on the stack. */
  lemma SteppedInside(pages: PageSet, s: Store, p: Path, e': StackPage, next: Node)
    requires s.StackedFor(p) && s.stack != [] && p != [] && DepthInPage(|p|) != 1
    requires StackOk(pages, s.stack, s.base, p, true) && Stepped(s.Top(), e', p, next)
    ensures StackOk(pages, s.WithTop(e').stack, s.base, p[..|p| - 1], false)
  {
    hide IndexOf, PageOf, Store.StackedFor, DepthInPage, Phase, Stepped;
    StackHeight(s, p);
    var n, st, up := |s.stack| - 1, s.WithTop(e').stack, p[..|p| - 1];
    forall i | 0 <= i < |st| ensures EditedAt(pages, st, s.base, i, up, false) {
      assert EditedAt(pages, s.stack, s.base, i, p, true);
      if i == n {
        SteppedRuns(pages, s.Top(), e', p, next);
        EditedOn(pages, s.Top(), e', p[DEPTH * (s.base + n)]);
      }
    }
  }

  /** In the first layer it leaves the stack, and the walk is through with it. */
  lemma SteppedOut(pages: PageSet, s: Store, p: Path, e': StackPage, next: Node)
    requires s.StackedFor(p) && s.stack != [] && p != [] && DepthInPage(|p|) == 1
    requires StackOk(pages, s.stack, s.base, p, true) && Stepped(s.Top(), e', p, next)
    ensures StackOk(pages, s.stack[..|s.stack| - 1], s.base, p[..|p| - 1], false)
    ensures e'.id == PageOf(p) && ClosedPage(pages, e') && (e'.diff.Cleared() <==> !next.Internal?)
  {
    hide IndexOf, PageOf, Store.StackedFor, Phase, SiblingIndex, JoinsAs;
    StackHeight(s, p);
    StackedTop(s, p);
    var n, e, up := |s.stack| - 1, s.Top(), p[..|p| - 1];
    assert EditedAt(pages, s.stack, s.base, n, p, true);
    SteppedRuns(pages, e, e', p, next);
    FirstLayer(p);
    FirstLayer(Sib(p, |p|));
    SteppedEmpty(e, e', p, next);
    PhaseClosed(pages.pages[e.id], e, e', p[|p| - 1],
                if Left(e, e', IndexOf(p)) then IndexOf(p) else IndexOf(Sib(p, |p|)));
    var rest := s.stack[..n];
    forall i | 0 <= i < n ensures EditedAt(pages, rest, s.base, i, up, false) {
      assert EditedAt(pages, s.stack, s.base, i, p, true);
    }
  }

  // ----- the pages put out

  ghost predicate ClosedPage(pages: PageSet, e: StackPage) {
    !e.isNew && e.id in pages.pages && Runs(Load(pages, e.id), e, 0) && Closed(pages.pages[e.id], e)
  }

  /** The position a page hangs from. */
  ghost function Stem(y: Path): (x: Path)
    requires y != []
    ensures x < y && |x| == DEPTH * |PageOf(y)|
  {
    y[..DEPTH * |PageOf(y)|]
  }

  /** In a new page each slot that is reached through internal nodes is marked. */
  ghost predicate SlotLogged(e: StackPage, y: Path)
    requires y != []
  {
    IndexRange(y);
    (forall i | |Stem(y)| < i < |y| :: HasInternal(e, y[..i])) ==> e.diff.Changed(IndexOf(y))
  }

  ghost predicate HasInternal(e: StackPage, y: Path)
    requires y != []
  {
    IndexRange(y);
    e.page[IndexOf(y)].Internal?
  }

  /** A page that hangs from a node that was internal was loaded, and any other page is new. */
  ghost predicate PageRecorded(pages: PageSet, m0: State, e: StackPage, y: Path)
    requires 0 < |y| <= KEY_BITS
  {
    e.id == PageOf(y) && if Sub(m0, Stem(y)).Internal? then ClosedPage(pages, e)
                          else e.isNew && e.diff.Plain() && SlotLogged(e, y)
  }

  /** The page of some position. */
  ghost predicate IsPage(id: PageId) {
    exists y: Path :: LiesIn(y, id)
  }

  ghost predicate LiesIn(y: Path, id: PageId) { 0 < |y| <= KEY_BITS && PageOf(y) == id }

  ghost predicate Recorded(pages: PageSet, m0: State, output: UpdatedPages) {
    && (forall id | id in output :: IsPage(id))
    && forall y: Path | 0 < |y| <= KEY_BITS && PageOf(y) in output :: PageRecorded(pages, m0, output[PageOf(y)], y)
  }

  lemma RecordedAt(pages: PageSet, m0: State, output: UpdatedPages, y: Path)
    requires Recorded(pages, m0, output) && 0 < |y| <= KEY_BITS && PageOf(y) in output
    ensures PageRecorded(pages, m0, output[PageOf(y)], y)
  {
    hide PageOf, PageRecorded, IsPage;
  }

  lemma RecordedOut(pages: PageSet, m0: State, output: UpdatedPages, p: Path, e: StackPage)
    requires Recorded(pages, m0, output) && 0 < |p| <= KEY_BITS && DepthInPage(|p|) == 1
             && Sub(m0, p[..|p| - 1]).Internal?
    requires e.id == PageOf(p) && ClosedPage(pages, e)
    ensures Recorded(pages, m0, output[e.id := e])
  {
    hide PageOf, IndexOf, ClosedPage, Sub;
    assert LiesIn(p, e.id);
    StemOnly(p);
    forall y: Path | 0 < |y| <= KEY_BITS && PageOf(y) in output[e.id := e]
      ensures PageRecorded(pages, m0, output[e.id := e][PageOf(y)], y)
    {
      if PageOf(y) == e.id {
        assert |p| - 1 == DEPTH * |PageOf(p)|;
        assert Stem(y) == p[..|p| - 1];
      } else {
        assert PageRecorded(pages, m0, output[PageOf(y)], y);
      }
    }
  }
}
