/** The branch index of the key-value store: separators and leaf pages, and the leaf entries in order. */
module LeafIndex {
  import opened Wrappers
  import opened OrderedLists

  type PageNumber = nat

  /** A stored value: in the leaf itself, or a cell that points elsewhere, with the value's hash. */
  datatype Value = Inline(bytes: seq<nat>) | OverflowCell(hash: nat, cell: seq<nat>)

  type Leaf = seq<(Key, Value)>

  type Branch = b: seq<(Key, PageNumber)> | b != [] witness [(0, 0)]

  datatype Tree = Tree(branches: seq<Branch>, leaves: PageNumber -> Leaf) {
    predicate At(bi: nat, ii: nat) { bi < |branches| && ii < |branches[bi]| }

    function Sep(bi: nat, ii: nat): Key
      requires At(bi, ii)
    {
      branches[bi][ii].0
    }

    function Page(bi: nat, ii: nat): PageNumber
      requires At(bi, ii)
    {
      branches[bi][ii].1
    }

    function LeafAt(bi: nat, ii: nat): Leaf
      requires At(bi, ii)
    {
      leaves(Page(bi, ii))
    }

    /** A position in a branch or just past its end. */
    predicate Near(bi: nat, ii: nat) { bi == |branches| || (bi < |branches| && ii <= |branches[bi]|) }

    /** The first separator at or after a position. */
    ghost function HeadSep(bi: nat, ii: nat): Option<Key>
      requires Near(bi, ii)
      decreases if bi < |branches| then |branches| - bi else 0
    {
      if bi == |branches| then None
      else if ii == |branches[bi]| then HeadSep(bi + 1, 0)
      else Some(Sep(bi, ii))
    }

    /** All leaf entries from a position on. */
    ghost function Entries(bi: nat, ii: nat): seq<(Key, Value)>
      requires Near(bi, ii)
      decreases |branches| - bi, if bi < |branches| then |branches[bi]| - ii else 0
    {
      if bi == |branches| then []
      else if ii == |branches[bi]| then Entries(bi + 1, 0)
      else LeafAt(bi, ii) + Entries(bi, ii + 1)
    }

    /** The pages from a position on whose separators are below the end key. */
    ghost function Needed(bi: nat, ii: nat, end: Option<Key>): seq<PageNumber>
      requires Near(bi, ii)
      decreases |branches| - bi, if bi < |branches| then |branches[bi]| - ii else 0
    {
      if bi == |branches| then []
      else if ii == |branches[bi]| then Needed(bi + 1, 0, end)
      else if end.None? || Sep(bi, ii) < end.value then [Page(bi, ii)] + Needed(bi, ii + 1, end)
      else []
    }

    ghost predicate SepsAscend() {
      forall bi, ii, bj, jj | At(bi, ii) && At(bj, jj) && (bi < bj || (bi == bj && ii < jj)) ::
        Sep(bi, ii) < Sep(bj, jj)
    }

    /** Leaf entries ascend and lie between their separator and the next. */
    ghost predicate LeafOk(bi: nat, ii: nat)
      requires At(bi, ii)
    {
      && Ascending(LeafAt(bi, ii)) && NotBelow(LeafAt(bi, ii), Sep(bi, ii))
      && (HeadSep(bi, ii + 1).Some? ==> AllUnder(LeafAt(bi, ii), HeadSep(bi, ii + 1).value))
    }

    ghost predicate Ok() {
      SepsAscend() && forall bi, ii | At(bi, ii) :: LeafOk(bi, ii)
    }
  }

  // ----- finding branches

  /** The last branch whose separator is not above the key. */
  function Lookup(t: Tree, key: Key, n: nat): (r: Option<nat>)
    requires n <= |t.branches|
    ensures r.Some? ==> r.value < n && t.Sep(r.value, 0) <= key
    ensures forall i | 0 <= i < n && (r.None? || i > r.value) :: key < t.Sep(i, 0)
  {
    if n == 0 then None else if t.Sep(n - 1, 0) <= key then Some(n - 1) else Lookup(t, key, n - 1)
  }

  /** The first branch, from `i` on, whose separator is above the key. */
  function NextBranch(t: Tree, key: Key, i: nat): (r: Option<nat>)
    requires i <= |t.branches|
    ensures r.Some? ==> i <= r.value < |t.branches| && key < t.Sep(r.value, 0)
    ensures forall j | i <= j < |t.branches| && (r.None? || j < r.value) :: t.Sep(j, 0) <= key
    decreases |t.branches| - i
  {
    if i == |t.branches| then None else if key < t.Sep(i, 0) then Some(i) else NextBranch(t, key, i + 1)
  }

  /** The last separator in a branch that is not above the key. */
  function SearchBranch(branch: seq<(Key, PageNumber)>, key: Key, n: nat): (r: Option<nat>)
    requires n <= |branch|
    ensures r.Some? ==> r.value < n && branch[r.value].0 <= key
    ensures forall i | 0 <= i < n && (r.None? || i > r.value) :: key < branch[i].0
  {
    if n == 0 then None else if branch[n - 1].0 <= key then Some(n - 1) else SearchBranch(branch, key, n - 1)
  }

  /** After the last separator of a branch comes the next branch. */
  lemma AfterBranch(t: Tree, bi: nat)
    requires t.SepsAscend() && bi < |t.branches|
    ensures NextBranch(t, t.Sep(bi, |t.branches[bi]| - 1), 0) == if bi + 1 < |t.branches| then Some(bi + 1) else None
  {
    var last := |t.branches[bi]| - 1;
    assert t.At(bi, last) && t.At(bi, 0);
    assert t.Sep(bi, 0) <= t.Sep(bi, last);
    forall j | 0 <= j <= bi ensures t.Sep(j, 0) <= t.Sep(bi, last) { assert t.At(j, 0); }
    if bi + 1 < |t.branches| { assert t.At(bi + 1, 0); }
  }

  lemma FindsItself(t: Tree, bi: nat)
    requires t.SepsAscend() && bi < |t.branches|
    ensures Lookup(t, t.Sep(bi, 0), |t.branches|) == Some(bi)
  {
    forall j | bi < j < |t.branches| ensures t.Sep(bi, 0) < t.Sep(j, 0) { assert t.At(j, 0) && t.At(bi, 0); }
  }

  // ----- entries in order

  lemma {:induction false} AscendingConcat<V>(a: seq<(Key, V)>, b: seq<(Key, V)>, k: Key)
    requires Ascending(a) && Ascending(b) && AllUnder(a, k) && NotBelow(b, k)
    ensures Ascending(a + b)
  {
    if a == [] {
      assert a + b == b;
    } else {
      assert (a + b)[1..] == a[1..] + b;
      AscendingConcat(a[1..], b, k);
    }
  }

  lemma {:induction false} EntriesOk(t: Tree, bi: nat, ii: nat)
    requires t.Ok() && t.Near(bi, ii)
    ensures Ascending(t.Entries(bi, ii))
    ensures t.HeadSep(bi, ii).Some? ==> NotBelow(t.Entries(bi, ii), t.HeadSep(bi, ii).value)
    ensures t.HeadSep(bi, ii).None? ==> t.Entries(bi, ii) == []
    decreases |t.branches| - bi, if bi < |t.branches| then |t.branches[bi]| - ii else 0
  {
    if bi < |t.branches| {
      if ii == |t.branches[bi]| {
        EntriesOk(t, bi + 1, 0);
      } else {
        EntriesOk(t, bi, ii + 1);
        HeadAbove(t, bi, ii);
        assert t.LeafOk(bi, ii);
        var leaf, rest := t.LeafAt(bi, ii), t.Entries(bi, ii + 1);
        if t.HeadSep(bi, ii + 1).Some? {
          AscendingConcat(leaf, rest, t.HeadSep(bi, ii + 1).value);
        } else {
          assert leaf + rest == leaf;
        }
      }
    }
  }

  lemma HeadIs(t: Tree, bi: nat, ii: nat)
    requires t.At(bi, ii)
    ensures t.HeadSep(bi, ii + 1) == if ii + 1 < |t.branches[bi]| then Some(t.Sep(bi, ii + 1))
                                     else if bi + 1 < |t.branches| then Some(t.Sep(bi + 1, 0)) else None
  {
  }

  /** Separators grow. */
  lemma HeadAbove(t: Tree, bi: nat, ii: nat)
    requires t.SepsAscend() && t.At(bi, ii)
    ensures t.HeadSep(bi, ii + 1).Some? ==> t.Sep(bi, ii) < t.HeadSep(bi, ii + 1).value
  {
    if ii + 1 < |t.branches[bi]| {
      assert t.At(bi, ii + 1);
    } else if bi + 1 < |t.branches| {
      assert t.At(bi + 1, 0);
    }
  }

  lemma EntriesPastEnd(t: Tree, bi: nat, ii: nat, end: Option<Key>)
    requires t.Ok() && t.Near(bi, ii) && end.Some? && (t.HeadSep(bi, ii).Some? ==> end.value <= t.HeadSep(bi, ii).value)
    ensures CutEnd(t.Entries(bi, ii), end) == [] && t.Needed(bi, ii, end) == []
  {
    EntriesOk(t, bi, ii);
    CutEndNone(t.Entries(bi, ii), end);
    NeededPastEnd(t, bi, ii, end);
  }

  lemma {:induction false} NeededPastEnd(t: Tree, bi: nat, ii: nat, end: Option<Key>)
    requires t.Near(bi, ii) && end.Some? && (t.HeadSep(bi, ii).Some? ==> end.value <= t.HeadSep(bi, ii).value)
    ensures t.Needed(bi, ii, end) == []
    decreases |t.branches| - bi
  {
    if bi < |t.branches| && ii == |t.branches[bi]| { NeededPastEnd(t, bi + 1, 0, end); }
  }

  ghost predicate NotAfter(bi: nat, ii: nat, bj: nat, jj: nat) { bi < bj || (bi == bj && ii <= jj) }

  /** Leaves before the one a key falls into hold nothing from that key on. */
  lemma {:induction false} SkipTo(t: Tree, bi: nat, ii: nat, bj: nat, jj: nat, start: Key)
    requires t.Ok() && t.Near(bi, ii) && t.At(bj, jj) && NotAfter(bi, ii, bj, jj) && t.Sep(bj, jj) <= start
    ensures CutStart(t.Entries(bi, ii), start) == CutStart(t.Entries(bj, jj), start)
    decreases |t.branches| - bi, if bi < |t.branches| then |t.branches[bi]| - ii else 0
  {
    if bi == bj && ii == jj {
    } else if ii == |t.branches[bi]| {
      SkipTo(t, bi + 1, 0, bj, jj, start);
    } else {
      SkipTo(t, bi, ii + 1, bj, jj, start);
      HeadReaches(t, bi, ii + 1, bj, jj);
      assert t.LeafOk(bi, ii);
      CutStartConcat(t.LeafAt(bi, ii), t.Entries(bi, ii + 1), start);
      CutStartAll(t.LeafAt(bi, ii), start);
    }
  }

  lemma HeadReaches(t: Tree, bi: nat, ii: nat, bj: nat, jj: nat)
    requires t.SepsAscend() && t.Near(bi, ii) && t.At(bj, jj) && NotAfter(bi, ii, bj, jj)
    ensures t.HeadSep(bi, ii).Some? && t.HeadSep(bi, ii).value <= t.Sep(bj, jj)
  {
    if ii == |t.branches[bi]| { assert t.At(bi + 1, 0); } else { assert t.At(bi, ii); }
  }
}
