/** Which writes a page's diff records: the nodes written by a walker against the slots it marks. */
module DiffCoverage {
  import opened Trie
  import opened TriePos
  import opened CountLeaves
  import opened PageDiffs
  import opened PagedMemory

  /** A node written to a slot, either as the node at the position or as its sibling. */
  datatype SlotWrite = SlotWrite(index: nat, node: Node, sibling: bool)

  ghost predicate InPage(writes: seq<SlotWrite>) {
    forall i | 0 <= i < |writes| :: writes[i].index < NODES_PER_PAGE && SiblingIndex(writes[i].index) < NODES_PER_PAGE
  }

  ghost function Run(page: StackPage, writes: seq<SlotWrite>, n: nat): StackPage
    requires n <= |writes| && InPage(writes)
  {
    if n == 0 then page
    else
      var before, w := Run(page, writes, n - 1), writes[n - 1];
      Written(before, w)
  }

  ghost function Written(page: StackPage, w: SlotWrite): StackPage
    requires w.index < NODES_PER_PAGE && SiblingIndex(w.index) < NODES_PER_PAGE
  {
    if w.sibling then page.Mark(w.index, w.node) else page.Set(w.index, w.node)
  }

  // ----- pages that come about by writing

  ghost predicate RunIs(a: StackPage, writes: seq<SlotWrite>, b: StackPage, low: nat) {
    InPage(writes) && (forall i | 0 <= i < |writes| :: low <= writes[i].index) && b == Run(a, writes, |writes|)
  }

  /** `b` is `a` after some writes, none of them to a slot before `low`. */
  ghost predicate Runs(a: StackPage, b: StackPage, low: nat) {
    exists writes: seq<SlotWrite> :: RunIs(a, writes, b, low)
  }

  lemma RunsNowhere(a: StackPage, low: nat)
    ensures Runs(a, a, low)
  {
    assert RunIs(a, [], a, low);
  }

  lemma {:induction false} RunPrefix(a: StackPage, writes: seq<SlotWrite>, more: seq<SlotWrite>, n: nat)
    requires n <= |writes| && InPage(writes) && InPage(writes + more)
    ensures Run(a, writes + more, n) == Run(a, writes, n)
  {
    if n > 0 { RunPrefix(a, writes, more, n - 1); }
  }

  lemma RunsOneMore(a: StackPage, b: StackPage, low: nat, w: SlotWrite)
    requires Runs(a, b, low) && low <= w.index < NODES_PER_PAGE && SiblingIndex(w.index) < NODES_PER_PAGE
    ensures Runs(a, Written(b, w), low)
  {
    hide SiblingIndex, Written;
    var writes :| RunIs(a, writes, b, low);
    RunPrefix(a, writes, [w], |writes|);
    assert RunIs(a, writes + [w], Written(b, w), low);
  }

  lemma RunsSet(a: StackPage, b: StackPage, low: nat, index: nat, node: Node)
    requires Runs(a, b, low) && low <= index < NODES_PER_PAGE && SiblingIndex(index) < NODES_PER_PAGE
    ensures Runs(a, b.Set(index, node), low)
  {
    RunsOneMore(a, b, low, SlotWrite(index, node, false));
  }

  lemma RunsMark(a: StackPage, b: StackPage, low: nat, index: nat, node: Node)
    requires Runs(a, b, low) && low <= index < NODES_PER_PAGE && SiblingIndex(index) < NODES_PER_PAGE
    ensures Runs(a, b.Mark(index, node), low)
  {
    RunsOneMore(a, b, low, SlotWrite(index, node, true));
  }

  lemma {:induction false} RunsOn(a: StackPage, b: StackPage, writes: seq<SlotWrite>, n: nat)
    requires Runs(a, b, 0) && InPage(writes) && n <= |writes|
    ensures Runs(a, Run(b, writes, n), 0)
  {
    if n > 0 {
      RunsOn(a, b, writes, n - 1);
      RunsOneMore(a, Run(b, writes, n - 1), 0, writes[n - 1]);
    }
  }

  lemma RunsTransitive(a: StackPage, b: StackPage, c: StackPage, low: nat)
    requires Runs(a, b, 0) && Runs(b, c, low)
    ensures Runs(a, c, 0)
  {
    var writes :| RunIs(b, writes, c, low);
    RunsOn(a, b, writes, |writes|);
  }

  lemma {:induction false} RunSlot(a: StackPage, writes: seq<SlotWrite>, n: nat, low: nat, slot: nat)
    requires InPage(writes) && n <= |writes| && slot < NODES_PER_PAGE
    requires forall i | 0 <= i < |writes| :: low <= writes[i].index
    ensures SlotKept(a, Run(a, writes, n), low, slot)
  {
    hide SiblingIndex;
    if n > 0 { RunSlot(a, writes, n - 1, low, slot); }
  }

  /** A slot before `low` is as it was, and any other slot below the first layer unless it is marked. */
  ghost predicate SlotKept(a: StackPage, b: StackPage, low: nat, slot: nat)
    requires slot < NODES_PER_PAGE
  {
    && b.id == a.id && b.isNew == a.isNew && b.diff.bits[126] == a.diff.bits[126]
    && (slot < low ==> b.page[slot] == a.page[slot] && b.diff.Changed(slot) == a.diff.Changed(slot))
    && (slot >= 2 && !b.diff.Changed(slot) ==> b.page[slot] == a.page[slot])
    && (a.diff.Changed(slot) ==> b.diff.Changed(slot))
  }

  lemma RunsSlot(a: StackPage, b: StackPage, low: nat, slot: nat)
    requires Runs(a, b, low) && slot < NODES_PER_PAGE
    ensures SlotKept(a, b, low, slot)
  {
    var writes :| RunIs(a, writes, b, low);
    RunSlot(a, writes, |writes|, low, slot);
  }

  /** The write empties the first layer: it sets the clear mark and no slot mark. */
  ghost predicate Clearing(page: StackPage, w: SlotWrite)
    requires w.index < NODES_PER_PAGE && SiblingIndex(w.index) < NODES_PER_PAGE
  {
    !w.sibling && w.index < 2 && w.node == Terminator && page.page[SiblingIndex(w.index)] == Terminator
  }

  lemma WrittenSlot(page: StackPage, w: SlotWrite, slot: nat)
    requires w.index < NODES_PER_PAGE && SiblingIndex(w.index) < NODES_PER_PAGE && slot < NODES_PER_PAGE
    ensures Written(page, w).page[slot] == if slot == w.index then w.node else page.page[slot]
    ensures Written(page, w).diff.Changed(slot) == (page.diff.Changed(slot) || (slot == w.index && !Clearing(page, w)))
  {
  }

  ghost predicate Clears(page: StackPage, writes: seq<SlotWrite>, i: nat)
    requires i < |writes| && InPage(writes)
  {
    Clearing(Run(page, writes, i), writes[i])
  }

  ghost predicate Touched(writes: seq<SlotWrite>, n: nat, slot: nat)
    requires n <= |writes|
  {
    exists i | 0 <= i < n :: writes[i].index == slot
  }

  ghost predicate Marked(page: StackPage, writes: seq<SlotWrite>, n: nat, slot: nat)
    requires n <= |writes| && InPage(writes)
  {
    exists i | 0 <= i < n :: writes[i].index == slot && !Clears(page, writes, i)
  }

  /** Every slot whose node differs from the old page is marked in the diff. */
  ghost predicate CoversChanges(page0: Page, page: StackPage) {
    forall slot | 0 <= slot < NODES_PER_PAGE && page.page[slot] != page0[slot] :: page.diff.Changed(slot)
  }

  lemma TouchedMore(page: StackPage, writes: seq<SlotWrite>, n: nat, slot: nat)
    requires 0 < n <= |writes| && InPage(writes)
    ensures Touched(writes, n, slot) == (Touched(writes, n - 1, slot) || writes[n - 1].index == slot)
    ensures Marked(page, writes, n, slot)
            == (Marked(page, writes, n - 1, slot) || (writes[n - 1].index == slot && !Clears(page, writes, n - 1)))
  {
    hide Clears;
  }

  lemma {:induction false} SlotAfter(start: StackPage, writes: seq<SlotWrite>, n: nat, slot: nat)
    requires n <= |writes| && InPage(writes) && slot < NODES_PER_PAGE && !start.diff.Changed(slot)
    ensures var page := Run(start, writes, n);
            && (page.diff.Changed(slot) <==> Marked(start, writes, n, slot))
            && (!Touched(writes, n, slot) ==> page.page[slot] == start.page[slot])
            && (Touched(writes, n, slot) && !Marked(start, writes, n, slot) ==>
                  slot < 2 && page.page[slot] == Terminator)
  {
    hide Written, SiblingIndex, PageDiff.Changed;
    if n > 0 {
      hide Touched, Marked;
      SlotAfter(start, writes, n - 1, slot);
      WrittenSlot(Run(start, writes, n - 1), writes[n - 1], slot);
      TouchedMore(start, writes, n, slot);
    }
  }

  /** The diff covers all changes if and only if no slot of the first layer that held a node was only
      ever emptied by clearing writes. */
  lemma {:induction false} CoversIff(id: PageId, page0: Page, writes: seq<SlotWrite>)
    requires InPage(writes)
    ensures var start := StackPage(id, page0, EmptyDiff(), false);
            CoversChanges(page0, Run(start, writes, |writes|)) <==>
            forall slot | 0 <= slot < 2 && Touched(writes, |writes|, slot) && !Marked(start, writes, |writes|, slot) ::
              page0[slot] == Terminator
  {
    forall slot | 0 <= slot < NODES_PER_PAGE
      ensures var start := StackPage(id, page0, EmptyDiff(), false);
              var page := Run(start, writes, |writes|);
              (page.page[slot] != page0[slot] && !page.diff.Changed(slot))
              == (slot < 2 && Touched(writes, |writes|, slot) && !Marked(start, writes, |writes|, slot)
                  && page0[slot] != Terminator)
    {
      SlotAfter(StackPage(id, page0, EmptyDiff(), false), writes, |writes|, slot);
    }
  }

  /** A page left with the clear mark is empty. */
  lemma {:induction false} ClearedIsEmpty(id: PageId, page0: Page, writes: seq<SlotWrite>, n: nat)
    requires n <= |writes| && InPage(writes)
    ensures var page := Run(StackPage(id, page0, EmptyDiff(), false), writes, n);
            page.diff.Cleared() ==> page.page[0] == Terminator && page.page[1] == Terminator
  {
    if n > 0 { ClearedIsEmpty(id, page0, writes, n - 1); }
  }

  /** The left half of a page emptied, then two new keys under its right half: the left slot changes
      and is not in the diff, which is not a cleared one either. */
  lemma MissedSlot(id: PageId, page0: Page, l: Node, r: Node, n: Node)
    requires page0[0] == Internal(l, r) && page0[1] == Terminator && n.Internal?
    ensures var writes := [SlotWrite(0, Terminator, false), SlotWrite(1, n, false)];
            var page := Run(StackPage(id, page0, EmptyDiff(), false), writes, 2);
            && !page.diff.Cleared() && page.page[0] == Terminator && !page.diff.Changed(0)
            && !CoversChanges(page0, page)
  {
    var writes := [SlotWrite(0, Terminator, false), SlotWrite(1, n, false)];
    var start := StackPage(id, page0, EmptyDiff(), false);
    assert Run(start, writes, 1) == start.Set(0, Terminator);
    assert Run(start, writes, 2) == start.Set(0, Terminator).Set(1, n);
  }
}
