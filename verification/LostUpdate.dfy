/** An update that a crash can lose: the two keys of the left half of the root page are deleted and two
    keys are put into its empty right half. */
module LostUpdate {
  import opened Wrappers
  import opened Trie
  import opened Ops
  import opened Memory
  import opened PagedMemory
  import opened PageUpdate
  import opened CrashRecovery

  /** The key that starts with two bits and goes on with zeros. */
  function KeyOf(a: bool, b: bool): (k: Key)
    ensures k[0] == a && k[1] == b
  {
    [a, b] + seq(KEY_BITS - 2, _ => false)
  }

  function Before(): State { map[KeyOf(false, false) := 1, KeyOf(false, true) := 2] }

  function Then(): State { map[KeyOf(true, false) := 3, KeyOf(true, true) := 4] }

  function Deletion(b: bool): Task {
    Task([false, b], Some(LeafData(KeyOf(false, b), if b then 2 else 1)), [(KeyOf(false, b), None)], true)
  }

  function Insertion(): Task {
    Task([true], None, [(KeyOf(true, false), Some(3)), (KeyOf(true, true), Some(4))], true)
  }

  function Tasks(): seq<Task> { [Deletion(false), Deletion(true), Insertion()] }

  lemma KeysApart(a: bool, b: bool, c: bool, d: bool)
    ensures KeyOf(a, b) == KeyOf(c, d) <==> a == c && b == d
    ensures Covers([a], KeyOf(c, d)) <==> a == c
    ensures Covers([a, b], KeyOf(c, d)) <==> a == c && b == d
    ensures Covers([], KeyOf(c, d))
  {
    var k := KeyOf(c, d);
    assert k[..1] == [c] && k[..2] == [c, d];
  }

  /** Both keys lie on one side of the root. */
  lemma TwoOnSide(side: bool, m: State, v: ValueHash, w: ValueHash)
    requires m == map[KeyOf(side, false) := v, KeyOf(side, true) := w]
    ensures Sub(m, []).Internal? && Sub(m, [side]).Internal? && Sub(m, [!side]) == Terminator
    ensures Sub(m, [side, false]) == Leaf(LeafData(KeyOf(side, false), v))
    ensures Sub(m, [side, true]) == Leaf(LeafData(KeyOf(side, true), w))
  {
    var k, k' := KeyOf(side, false), KeyOf(side, true);
    KeysApart(side, false, side, true);
    KeysApart(side, false, side, false);
    KeysApart(side, true, side, true);
    KeysApart(side, true, side, false);
    KeysApart(!side, false, side, false);
    KeysApart(!side, false, side, true);
    SubInternal(m, [], k, k');
    SubInternal(m, [side], k, k');
    SubKind(m, [!side]);
    assert Only(m, [side, false], k) && Only(m, [side, true], k');
    SubKind(m, [side, false]);
    SubKind(m, [side, true]);
  }

  lemma DeletionOk(b: bool)
    ensures TaskOk(Before(), Deletion(b))
  {
    var m0, t := Before(), Deletion(b);
    TwoOnSide(false, m0, 1, 2);
    KeysApart(false, b, false, b);
    hide Sub;
    forall i | 0 <= i < 2 ensures Sub(m0, t.at[..i]).Internal? {
      assert t.at[..0] == [] && t.at[..1] == [false];
    }
  }

  lemma InsertionOk()
    ensures TaskOk(Before(), Insertion())
  {
    var m0, t := Before(), Insertion();
    TwoOnSide(false, m0, 1, 2);
    KeysApart(true, false, true, false);
    KeysApart(true, false, true, true);
    hide Sub;
    assert t.at[..0] == [];
    BeforeByBit([true], KeyOf(true, false), KeyOf(true, true));
    assert OpBefore(t.ops, 0, 1);
  }

  /** Two paths that agree up to a bit are ordered by it. */
  lemma BeforeByBit(p: Path, a: Path, b: Path)
    requires Covers(p, a) && Covers(p, b) && |a| > |p| && |b| > |p| && !a[|p|] && b[|p|]
    ensures Less(a, b)
  {
    assert a[..|p|] == p == b[..|p|];
    SharedBitsIs(a, b, |p|);
  }

  lemma TasksFit()
    ensures TasksOk(Before(), Tasks())
  {
    hide TaskOk;
    DeletionOk(false);
    DeletionOk(true);
    InsertionOk();
    BeforeByBit([false], [false, false], [false, true]);
    BeforeByBit([], [false, false], [true]);
    BeforeByBit([], [false, true], [true]);
    var tasks := Tasks();
    assert TaskBefore(tasks, 0, 1) && TaskBefore(tasks, 0, 2) && TaskBefore(tasks, 1, 2);
    forall i, j | 0 <= i < j < |tasks| ensures TaskBefore(tasks, i, j) {}
  }

  lemma TasksEffect()
    ensures Updated(Before(), Tasks(), 3) == Then()
  {
    var tasks, k, k' := Tasks(), KeyOf(false, false), KeyOf(false, true);
    KeysApart(false, false, false, true);
    assert tasks[0].ops == [(k, None)] && tasks[1].ops == [(k', None)];
    One(Before(), (k, None));
    One(Updated(Before(), tasks, 1), (k', None));
    assert Updated(Before(), tasks, 1) == map[k' := 2];
    assert Updated(Before(), tasks, 2) == map[];
    var ops := tasks[2].ops;
    assert ops == [ops[0]] + [ops[1]];
    ApplyConcat(map[], [ops[0]], [ops[1]]);
    One(map[], ops[0]);
    One(map[KeyOf(true, false) := 3], ops[1]);
    assert Updated(Before(), tasks, 3) == ApplyOps(map[], ops);
  }

  lemma One(m: State, op: KeyOp)
    ensures ApplyOps(m, [op]) == ApplyOp(m, op)
  {
    assert [op][..0] == [] && ApplyOps(m, []) == m;
  }

  /** The walker takes these tasks, the updated trie is right, and a crash before the root page is
      written leaves the deleted half in place. */
  method LoseUpdate(root: Node, pages: PageSet) returns (newRoot: Node, output: UpdatedPages)
    requires Holds(StoredMem(root, pages), Before(), []) && [] in pages.pages
    ensures UpdateOk(root, pages, Before(), newRoot, output, Then())
    ensures forall back: PageSet | BroughtBack(pages, output, {}, back) :: Lost(newRoot, back)
  {
    hide Holds, Sub, StoredMem, TasksOk, Updated, UpdateOk, BroughtBack, Flips;
    TasksFit();
    TasksEffect();
    RootStored(pages);
    newRoot, output := UpdateAll(root, pages, Tasks(), Before());
    assert UpdateOk(root, pages, Before(), newRoot, output, Then()) by { AsUpdate(root, pages, newRoot, output); }
    FlipsAtRoot();
    forall back: PageSet | BroughtBack(pages, output, {}, back) ensures Lost(newRoot, back) {
      FlipIsLost(root, pages, Before(), newRoot, output, Then(), {}, back, []);
    }
  }

  ghost predicate Lost(newRoot: Node, back: PageSet) {
    StaleAt(newRoot, back, Before(), [] + [false]) && !Holds(StoredMem(newRoot, back), Then(), [])
  }

  lemma FlipsAtRoot()
    ensures Flips(Before(), Then(), [])
  {
    TwoOnSide(false, Before(), 1, 2);
    TwoOnSide(true, Then(), 3, 4);
    assert [] + [true] == [true] && [] + [false] == [false];
  }

  lemma AsUpdate(root: Node, pages: PageSet, newRoot: Node, output: UpdatedPages)
    requires Holds(StoredMem(root, pages), Before(), [])
    requires Holds(StoredMem(newRoot, Merged(pages, output)), Then(), [])
             && PageRecords.Recorded(pages, Before(), output)
    ensures UpdateOk(root, pages, Before(), newRoot, output, Then())
  {
  }

  lemma RootStored(pages: PageSet)
    requires [] in pages.pages
    ensures WaysStored(pages, Tasks())
  {
    forall i | 0 <= i < 3 ensures WayStored(pages, Tasks()[i].at) {}
  }
}
