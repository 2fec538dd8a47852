/** What is left of an update that crashes while its pages are written out: the pages as their diffs
    bring them back, read as a trie. */
module CrashRecovery {
  import opened Trie
  import opened TriePos
  import opened CountLeaves
  import opened Memory
  import opened PagedMemory
  import opened PageStack
  import opened DiffCoverage
  import opened PageRecords
  import opened PageBuilds
  import opened PageUpdate

  function PageRead(pages: PageSet, id: PageId): Page {
    if id in pages.pages then pages.pages[id] else pages.garbage(id)
  }

  /** A slot after recovery. One the diff does not list keeps what the page on disk held, which is the
      new node if the page itself was still written, and for a new page is unknown. */
  ghost predicate SlotBack(pages: PageSet, e: StackPage, written: bool, page: Page, slot: nat)
    requires slot < NODES_PER_PAGE
  {
    if e.diff.Changed(slot) || written then page[slot] == e.page[slot]
    else e.isNew || page[slot] == PageRead(pages, e.id)[slot]
  }

  /** The page set a crashed update is recovered to, when the pages in `written` had reached the disk:
      pages that were not updated are as they were, and nothing is known of cleared ones. */
  ghost predicate BroughtBack(pages: PageSet, output: UpdatedPages, written: set<PageId>, back: PageSet) {
    forall y: Path | 0 < |y| <= KEY_BITS :: PageBack(pages, output, written, back, PageOf(y))
  }

  ghost predicate PageBack(pages: PageSet, output: UpdatedPages, written: set<PageId>, back: PageSet, id: PageId) {
    if id !in output then PageRead(back, id) == PageRead(pages, id)
    else !output[id].diff.Cleared() ==>
           forall slot | 0 <= slot < NODES_PER_PAGE ::
             SlotBack(pages, output[id], id in written, PageRead(back, id), slot)
  }

  // ----- memories of page sets

  lemma StoredAt(root: Node, pages: PageSet, y: Path)
    requires 0 < |y| <= KEY_BITS
    ensures IndexOf(y) < NODES_PER_PAGE && StoredMem(root, pages)[y] == PageRead(pages, PageOf(y))[IndexOf(y)]
  {
    hide PageOf, IndexOf;
    IndexRange(y);
  }

  lemma MergedAt(root: Node, pages: PageSet, output: UpdatedPages, y: Path)
    requires 0 < |y| <= KEY_BITS
    ensures IndexOf(y) < NODES_PER_PAGE
    ensures StoredMem(root, Merged(pages, output))[y]
            == (if PageOf(y) in output then output[PageOf(y)].page else PageRead(pages, PageOf(y)))[IndexOf(y)]
  {
    hide PageOf, IndexOf;
    StoredAt(root, Merged(pages, output), y);
  }

  lemma RootAt(root: Node, pages: PageSet)
    ensures StoredMem(root, pages)[[]] == root
  {
  }

  /** Memories that agree wherever a trie reaches hold it both. */
  lemma {:induction false} HoldsToo(mem: Mem, mem': Mem, m: State, x: Path)
    requires |x| <= KEY_BITS && Holds(mem, m, x) && Reachable(m, x, 0)
    requires forall y: Path | |y| <= KEY_BITS && Reachable(m, y, 0) :: mem'[y] == mem[y]
    ensures Holds(mem', m, x)
    decreases KEY_BITS - |x|
  {
    hide Sub;
    if Sub(m, x).Internal? && |x| < KEY_BITS {
      forall bit: bool ensures Holds(mem', m, x + [bit]) {
        ReachChild(m, x, bit);
        HoldsToo(mem, mem', m, x + [bit]);
      }
    }
  }

  lemma ReachChild(m: State, x: Path, bit: bool)
    requires |x| < KEY_BITS && Reachable(m, x, 0) && Sub(m, x).Internal?
    ensures Reachable(m, x + [bit], 0)
  {
    hide Sub;
    forall i | 0 <= i < |x| + 1 ensures Sub(m, (x + [bit])[..i]).Internal? { assert (x + [bit])[..i] == x[..i]; }
  }

  lemma ReachInternal(m: State, x: Path)
    requires |x| <= KEY_BITS && Sub(m, x).Internal?
    ensures |x| < KEY_BITS && Reachable(m, x, 0) && Reachable(m, x + [false], 0) && Reachable(m, x + [true], 0)
  {
    SubKind(m, x);
    hide Sub;
    forall i | 0 <= i < |x| ensures Sub(m, x[..i]).Internal? { InternalUp(m, x, i); }
    ReachChild(m, x, false);
    ReachChild(m, x, true);
  }

  /** A reachable position holds its canonical node. */
  lemma ReachedNode(mem: Mem, m: State, y: Path)
    requires |y| <= KEY_BITS && Holds(mem, m, []) && Reachable(m, y, 0)
    ensures mem[y] == Sub(m, y)
  {
    hide Sub, Holds;
    assert y[..0] == [];
    HoldsBelow(mem, m, y, 0);
    HoldsHere(mem, m, y);
  }

  /** An internal node has two children of which one is not empty. */
  lemma NotBothEmpty(m: State, x: Path)
    requires |x| <= KEY_BITS && Sub(m, x).Internal?
    ensures |x| < KEY_BITS && !(Sub(m, x + [false]) == Terminator && Sub(m, x + [true]) == Terminator)
  {
    SubKind(m, x);
    hide Sub;
    var k, k' := TwoBelow(m, x);
    NotEmptySide(m, x, k);
    assert x + [k[|x|]] == if k[|x|] then x + [true] else x + [false];
  }

  lemma NotEmptySide(m: State, x: Path, k: Key)
    requires |x| < KEY_BITS && k in m && Covers(x, k)
    ensures Sub(m, x + [k[|x|]]) != Terminator
  {
    hide Sub;
    assert k[..|x| + 1] == x + [k[|x|]];
    SubKind(m, x + [k[|x|]]);
  }

  // ----- when recovery succeeds

  /** All keys below a position at which a page hangs, at least two, were in its left half, and now all
      are, again at least two, in its right half. */
  ghost predicate Flips(m0: State, m: State, x: Path) {
    && |x| < KEY_BITS && |x| % DEPTH == 0
    && Sub(m0, x).Internal? && Sub(m0, x + [true]) == Terminator
    && Sub(m, x).Internal? && Sub(m, x + [false]) == Terminator
  }

  /** A page that flips had not reached the disk. */
  ghost predicate LosesAt(m0: State, m: State, written: set<PageId>, x: Path) {
    Flips(m0, m, x) && PageOf(x + [false]) !in written
  }

  ghost predicate NoLoss(m0: State, m: State, written: set<PageId>) {
    forall x: Path :: !LosesAt(m0, m, written, x)
  }

  /** An update and the trie before and after it. */
  ghost predicate UpdateOk(root: Node, pages: PageSet, m0: State, newRoot: Node, output: UpdatedPages, m: State) {
    && Holds(StoredMem(root, pages), m0, []) && Holds(StoredMem(newRoot, Merged(pages, output)), m, [])
    && Recorded(pages, m0, output)
  }

  /** The first layer of the page that hangs from an internal node. */
  lemma FirstLayerOf(x: Path, bit: bool)
    requires |x| % DEPTH == 0
    ensures IndexOf(x + [bit]) == (if bit then 1 else 0) && PageOf(x + [bit]) == PageOf(x + [false])
    ensures Stem(x + [bit]) == x
  {
    IndexDown(x, bit);
    if bit { SiblingPage(x + [bit]); }
    assert bit ==> Sib(x + [bit], |x| + 1) == x + [false];
    assert (x + [bit])[..|x|] == x;
  }

  /** What the first layer held before and holds now, in the page that hangs from a node that is
      internal both times. */
  lemma FirstLayerNodes(root: Node, pages: PageSet, m0: State, newRoot: Node, output: UpdatedPages, m: State, x: Path)
    requires UpdateOk(root, pages, m0, newRoot, output, m) && |x| < KEY_BITS && |x| % DEPTH == 0
    requires Sub(m0, x).Internal? && Sub(m, x).Internal? && PageOf(x + [false]) in output
    ensures var e := output[PageOf(x + [false])];
            && ClosedPage(pages, e) && e.id == PageOf(x + [false]) && !e.diff.Cleared()
            && pages.pages[e.id][0] == Sub(m0, x + [false]) && pages.pages[e.id][1] == Sub(m0, x + [true])
            && e.page[0] == Sub(m, x + [false]) && e.page[1] == Sub(m, x + [true])
  {
    hide Sub, Holds, PageOf, IndexOf, StoredMem, Reachable, Recorded;
    ReachInternal(m0, x);
    ReachInternal(m, x);
    NotBothEmpty(m, x);
    forall bit: bool
      ensures StoredMem(root, pages)[x + [bit]] == Sub(m0, x + [bit])
      ensures StoredMem(newRoot, Merged(pages, output))[x + [bit]] == Sub(m, x + [bit])
      ensures IndexOf(x + [bit]) == (if bit then 1 else 0) && PageOf(x + [bit]) == PageOf(x + [false])
              && Stem(x + [bit]) == x
      ensures StoredMem(root, pages)[x + [bit]] == PageRead(pages, PageOf(x + [bit]))[if bit then 1 else 0]
      ensures StoredMem(newRoot, Merged(pages, output))[x + [bit]]
              == output[PageOf(x + [bit])].page[if bit then 1 else 0]
    {
      FirstLayerOf(x, bit);
      ReachedNode(StoredMem(root, pages), m0, x + [bit]);
      ReachedNode(StoredMem(newRoot, Merged(pages, output)), m, x + [bit]);
      StoredAt(root, pages, x + [bit]);
      MergedAt(newRoot, pages, output, x + [bit]);
    }
    RecordedAt(pages, m0, output, x + [false]);
    hide Runs;
    assert x + [true] == x + [true];
  }

  /** A slot that is not marked in a page the walk is through with is as it was, except for a left slot
      emptied beside a slot that was empty. */
  lemma UnmarkedSlot(pages: PageSet, e: StackPage, slot: nat)
    requires ClosedPage(pages, e) && !e.diff.Cleared() && slot < NODES_PER_PAGE && !e.diff.Changed(slot)
    ensures e.page[slot] == pages.pages[e.id][slot]
            || (slot == 0 && e.page[0] == Terminator && pages.pages[e.id][1] == Terminator)
  {
    hide Runs;
    RunsSlot(Load(pages, e.id), e, 0, slot);
  }

  /** In a loaded page every reached slot comes back, unless the page flips and was not written. */
  lemma LoadedBack(root: Node, pages: PageSet, m0: State, newRoot: Node, output: UpdatedPages, m: State,
                   written: set<PageId>, back: PageSet, y: Path)
    requires 0 < |y| <= KEY_BITS && PageOf(y) in output && Sub(m0, Stem(y)).Internal? && Sub(m, Stem(y)).Internal?
    requires !LosesAt(m0, m, written, Stem(y)) && PageBack(pages, output, written, back, PageOf(y))
    requires UpdateOk(root, pages, m0, newRoot, output, m)
    ensures StoredMem(newRoot, back)[y] == StoredMem(newRoot, Merged(pages, output))[y]
  {
    hide Sub, Holds, PageOf, IndexOf, StoredMem, Recorded, ClosedPage;
    var x := Stem(y);
    StemPage(y);
    FirstLayerNodes(root, pages, m0, newRoot, output, m, x);
    StoredAt(newRoot, back, y);
    MergedAt(newRoot, pages, output, y);
    var e, slot := output[PageOf(y)], IndexOf(y);
    assert SlotBack(pages, e, PageOf(y) in written, PageRead(back, PageOf(y)), slot);
    if !e.diff.Changed(slot) && PageOf(y) !in written {
      UnmarkedSlot(pages, e, slot);
      LoadedRead(pages, e);
    }
  }

  lemma LoadedRead(pages: PageSet, e: StackPage)
    requires ClosedPage(pages, e)
    ensures !e.isNew && PageRead(pages, e.id) == pages.pages[e.id]
  {
  }

  lemma StemPage(y: Path)
    requires y != []
    ensures |Stem(y)| % DEPTH == 0 && PageOf(Stem(y) + [false]) == PageOf(y)
  {
    var x := Stem(y) + [false];
    forall j | 0 <= j < |PageOf(y)| ensures Sextet(x, j) == Sextet(y, j) {
      assert x[DEPTH * j..DEPTH * (j + 1)] == y[DEPTH * j..DEPTH * (j + 1)];
    }
  }

  /** In a new page every reached slot is marked and comes back. */
  lemma NewBack(root: Node, pages: PageSet, m0: State, newRoot: Node, output: UpdatedPages, m: State,
                written: set<PageId>, back: PageSet, y: Path)
    requires 0 < |y| <= KEY_BITS && PageOf(y) in output && !Sub(m0, Stem(y)).Internal? && Reachable(m, y, 0)
    requires PageBack(pages, output, written, back, PageOf(y)) && UpdateOk(root, pages, m0, newRoot, output, m)
    ensures StoredMem(newRoot, back)[y] == StoredMem(newRoot, Merged(pages, output))[y]
  {
    hide Sub, Holds, PageOf, IndexOf, StoredMem, Recorded, Reachable;
    StoredAt(newRoot, back, y);
    MergedAt(newRoot, pages, output, y);
    NewMarked(pages, m0, newRoot, output, m, y);
    assert SlotBack(pages, output[PageOf(y)], PageOf(y) in written, PageRead(back, PageOf(y)), IndexOf(y));
  }

  lemma NewMarked(pages: PageSet, m0: State, newRoot: Node, output: UpdatedPages, m: State, y: Path)
    requires 0 < |y| <= KEY_BITS && PageOf(y) in output && !Sub(m0, Stem(y)).Internal? && Reachable(m, y, 0)
    requires IndexOf(y) < NODES_PER_PAGE && Recorded(pages, m0, output)
    requires Holds(StoredMem(newRoot, Merged(pages, output)), m, [])
    ensures output[PageOf(y)].diff.Changed(IndexOf(y)) && !output[PageOf(y)].diff.Cleared()
  {
    hide Sub, Holds, PageOf, IndexOf, StoredMem, HasInternal, Reachable;
    assert PageRecorded(pages, m0, output[PageOf(y)], y);
    forall i | |Stem(y)| < i < |y| ensures HasInternal(output[PageOf(y)], y[..i]) {
      InternalInPage(newRoot, pages, output, m, y, i);
    }
  }

  lemma InternalInPage(newRoot: Node, pages: PageSet, output: UpdatedPages, m: State, y: Path, i: nat)
    requires 0 < |y| <= KEY_BITS && PageOf(y) in output && Reachable(m, y, 0) && |Stem(y)| < i < |y|
    requires Holds(StoredMem(newRoot, Merged(pages, output)), m, [])
    ensures HasInternal(output[PageOf(y)], y[..i])
  {
    hide Sub, Holds, PageOf, IndexOf, StoredMem;
    SamePage(y, i);
    forall j | 0 <= j < i ensures Sub(m, y[..i][..j]).Internal? { assert y[..i][..j] == y[..j]; }
    ReachedNode(StoredMem(newRoot, Merged(pages, output)), m, y[..i]);
    MergedAt(newRoot, pages, output, y[..i]);
  }

  lemma SlotComesBack(root: Node, pages: PageSet, m0: State, newRoot: Node, output: UpdatedPages, m: State,
                      written: set<PageId>, back: PageSet, y: Path)
    requires UpdateOk(root, pages, m0, newRoot, output, m) && BroughtBack(pages, output, written, back)
    requires |y| <= KEY_BITS && Reachable(m, y, 0) && NoLoss(m0, m, written)
    ensures StoredMem(newRoot, back)[y] == StoredMem(newRoot, Merged(pages, output))[y]
  {
    hide Sub, UpdateOk, PageOf, IndexOf, StoredMem, LosesAt;
    if y == [] {
      RootAt(newRoot, back);
      RootAt(newRoot, Merged(pages, output));
    } else {
      assert PageBack(pages, output, written, back, PageOf(y));
      assert y[..|Stem(y)|] == Stem(y);
      if PageOf(y) !in output {
        StoredAt(newRoot, back, y);
        MergedAt(newRoot, pages, output, y);
      } else if Sub(m0, Stem(y)).Internal? {
        LoadedBack(root, pages, m0, newRoot, output, m, written, back, y);
      } else {
        NewBack(root, pages, m0, newRoot, output, m, written, back, y);
      }
    }
  }

  /** An update is recovered whole if every page that flips had reached the disk, whichever others had. */
  lemma Recovers(root: Node, pages: PageSet, m0: State, newRoot: Node, output: UpdatedPages, m: State,
                 written: set<PageId>, back: PageSet)
    requires UpdateOk(root, pages, m0, newRoot, output, m) && BroughtBack(pages, output, written, back)
    requires NoLoss(m0, m, written)
    ensures Holds(StoredMem(newRoot, back), m, [])
  {
    hide Sub, Recorded, Holds, StoredMem, BroughtBack, NoLoss;
    forall y: Path | |y| <= KEY_BITS && Reachable(m, y, 0)
      ensures StoredMem(newRoot, back)[y] == StoredMem(newRoot, Merged(pages, output))[y]
    {
      SlotComesBack(root, pages, m0, newRoot, output, m, written, back, y);
    }
    HoldsToo(StoredMem(newRoot, Merged(pages, output)), StoredMem(newRoot, back), m, []);
  }

  /** A page that flips was updated. */
  lemma FlipIsPutOut(root: Node, pages: PageSet, m0: State, newRoot: Node, output: UpdatedPages, m: State, x: Path)
    requires UpdateOk(root, pages, m0, newRoot, output, m) && Flips(m0, m, x)
    ensures PageOf(x + [false]) in output
  {
    hide Sub, Holds, PageOf, IndexOf, StoredMem, Recorded, Reachable;
    ReachInternal(m0, x);
    ReachInternal(m, x);
    NotBothEmpty(m0, x);
    ReachedNode(StoredMem(root, pages), m0, x + [false]);
    ReachedNode(StoredMem(newRoot, Merged(pages, output)), m, x + [false]);
    StoredAt(root, pages, x + [false]);
    MergedAt(newRoot, pages, output, x + [false]);
  }

  /** The old node of a position is back. */
  ghost predicate StaleAt(root: Node, back: PageSet, m0: State, x: Path) {
    |x| <= KEY_BITS && StoredMem(root, back)[x] == Sub(m0, x) != Terminator
  }

  /** A page that flips and had not reached the disk comes back with a node where there is none. */
  lemma FlipIsLost(root: Node, pages: PageSet, m0: State, newRoot: Node, output: UpdatedPages, m: State,
                   written: set<PageId>, back: PageSet, x: Path)
    requires Flips(m0, m, x) && PageOf(x + [false]) !in written
    requires UpdateOk(root, pages, m0, newRoot, output, m) && BroughtBack(pages, output, written, back)
    ensures StaleAt(newRoot, back, m0, x + [false])
    ensures !Holds(StoredMem(newRoot, back), m, [])
  {
    hide Sub, Holds, PageOf, IndexOf, StoredMem, Recorded, Reachable, Runs;
    var id := PageOf(x + [false]);
    FlipIsPutOut(root, pages, m0, newRoot, output, m, x);
    FirstLayerNodes(root, pages, m0, newRoot, output, m, x);
    NotBothEmpty(m0, x);
    FirstLayerOf(x, false);
    StoredAt(newRoot, back, x + [false]);
    assert PageBack(pages, output, written, back, id);
    assert SlotBack(pages, output[id], false, PageRead(back, id), 0);
    ReachInternal(m, x);
    if Holds(StoredMem(newRoot, back), m, []) { ReachedNode(StoredMem(newRoot, back), m, x + [false]); }
  }

  /** A crash is recovered to the updated trie if and only if every page that flips had reached the disk. */
  lemma RecoversIff(root: Node, pages: PageSet, m0: State, newRoot: Node, output: UpdatedPages, m: State,
                    written: set<PageId>, back: PageSet)
    requires UpdateOk(root, pages, m0, newRoot, output, m) && BroughtBack(pages, output, written, back)
    ensures Holds(StoredMem(newRoot, back), m, []) <==> NoLoss(m0, m, written)
  {
    hide Holds, StoredMem, UpdateOk, BroughtBack, Flips, PageOf;
    if x: Path :| LosesAt(m0, m, written, x) {
      FlipIsLost(root, pages, m0, newRoot, output, m, written, back, x);
    } else {
      Recovers(root, pages, m0, newRoot, output, m, written, back);
    }
  }

  /** The pages that diffs alone bring back: marked slots are new, any other is as it was stored. */
  ghost function FromDiffs(pages: PageSet, output: UpdatedPages): PageSet {
    PageSet(map id | id in pages.pages.Keys + output.Keys :: PageFromDiff(pages, output, id), pages.garbage)
  }

  ghost function PageFromDiff(pages: PageSet, output: UpdatedPages, id: PageId): Page {
    if id in output then Patched(PageRead(pages, id), output[id]) else PageRead(pages, id)
  }

  ghost function Patched(page: Page, e: StackPage): Page {
    seq(NODES_PER_PAGE, i requires 0 <= i < NODES_PER_PAGE => if e.diff.Changed(i) then e.page[i] else page[i])
  }

  lemma FromDiffsBack(pages: PageSet, m0: State, output: UpdatedPages)
    requires Recorded(pages, m0, output)
    ensures BroughtBack(pages, output, {}, FromDiffs(pages, output))
  {
    hide PageOf, Sub, PageRecorded, PageBack, FromDiffs, IsPage;
    forall y: Path | 0 < |y| <= KEY_BITS ensures PageBack(pages, output, {}, FromDiffs(pages, output), PageOf(y)) {
      if PageOf(y) in output { RecordedName(pages, m0, output[PageOf(y)], y); }
      FromDiffBack(pages, output, PageOf(y));
    }
  }

  lemma FromDiffBack(pages: PageSet, output: UpdatedPages, id: PageId)
    requires id in output ==> output[id].id == id
    ensures PageBack(pages, output, {}, FromDiffs(pages, output), id)
  {
    assert id in output ==> PageRead(FromDiffs(pages, output), id) == Patched(PageRead(pages, id), output[id]);
  }

  lemma RecordedName(pages: PageSet, m0: State, e: StackPage, y: Path)
    requires 0 < |y| <= KEY_BITS && PageRecorded(pages, m0, e, y)
    ensures e.id == PageOf(y)
  {
  }

  /** Whatever has reached the disk, an update is recovered, if and only if no page flips. */
  lemma NeverLostIff(root: Node, pages: PageSet, m0: State, newRoot: Node, output: UpdatedPages, m: State)
    requires UpdateOk(root, pages, m0, newRoot, output, m)
    ensures (forall written: set<PageId>, back: PageSet | BroughtBack(pages, output, written, back) ::
               Holds(StoredMem(newRoot, back), m, []))
            <==> forall x: Path :: !Flips(m0, m, x)
  {
    hide Flips, Holds, StoredMem, BroughtBack, Recorded, PageOf;
    if x: Path :| Flips(m0, m, x) {
      FromDiffsBack(pages, m0, output);
      FlipIsLost(root, pages, m0, newRoot, output, m, {}, FromDiffs(pages, output), x);
    } else {
      forall written: set<PageId>, back: PageSet | BroughtBack(pages, output, written, back)
        ensures Holds(StoredMem(newRoot, back), m, [])
      {
        Recovers(root, pages, m0, newRoot, output, m, written, back);
      }
    }
  }
}
