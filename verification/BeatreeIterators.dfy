/** Iterating the key-value store in order: leaf entries, which must be loaded page by page, under two
    layers of staged changes. */
module BeatreeIterators {
  import opened Wrappers
  import opened OrderedLists
  import opened LeafIndex

  type ValueChange = Change<Value>

  datatype IterOutput = Blocked | Item(key: Key, value: Value)

  datatype CurrentLeaf = CurrentLeaf(leaf: Leaf, index: nat) {
    predicate IsConsumed() { index == |leaf| }

    predicate IsInRange(end: Option<Key>)
      requires index < |leaf|
    {
      end.None? || leaf[index].0 < end.value
    }

    predicate IsLastOutputInRange(end: Option<Key>)
      requires 0 < index <= |leaf|
    {
      end.None? || leaf[index - 1].0 < end.value
    }

    function LastOutput(): IterOutput
      requires 0 < index <= |leaf|
    {
      Item(leaf[index - 1].0, leaf[index - 1].1)
    }
  }

  /** Waiting for a leaf, reading one, or at the end; the last leaf read stays for its last output. */
  datatype LeafState =
    | Waiting(bi: nat, ii: nat, separator: Key, last: Option<CurrentLeaf>)
    | Proceeding(bi: nat, ii: nat, current: CurrentLeaf)
    | Done(last: Option<CurrentLeaf>)

  // ----- what a state still has to give

  ghost function Remaining(t: Tree, state: LeafState, start: Option<Key>, end: Option<Key>): seq<(Key, Value)>
    requires StateOk(t, state, start, end)
  {
    match state
    case Done(_) => []
    case Waiting(bi, ii, _, _) =>
      var all := CutEnd(t.Entries(bi, ii), end);
      if start.Some? then CutStart(all, start.value) else all
    case Proceeding(bi, ii, current) => CutEnd(current.leaf[current.index..] + t.Entries(bi, ii + 1), end)
  }

  ghost function StillNeeded(t: Tree, state: LeafState, end: Option<Key>): seq<PageNumber>
    requires Placed(t, state)
  {
    match state
    case Done(_) => []
    case Waiting(bi, ii, _, _) => t.Needed(bi, ii, end)
    case Proceeding(bi, ii, _) => t.Needed(bi, ii + 1, end)
  }

  ghost predicate Placed(t: Tree, state: LeafState) {
    match state
    case Done(_) => true
    case Waiting(bi, ii, separator, _) => t.At(bi, ii) && separator == t.Sep(bi, ii)
    case Proceeding(bi, ii, current) =>
      t.At(bi, ii) && current.leaf == t.LeafAt(bi, ii) && current.index < |current.leaf|
  }

  /** At first the start key falls into the leaf that is waited for; later leaves lie in the range. */
  ghost predicate StateOk(t: Tree, state: LeafState, start: Option<Key>, end: Option<Key>) {
    && Placed(t, state) && (state.Proceeding? ==> start.None?)
    && (state.Waiting? && start.Some? ==>
          && state.separator <= start.value
          && (t.HeadSep(state.bi, state.ii + 1).Some? ==> start.value < t.HeadSep(state.bi, state.ii + 1).value))
    && (state.Waiting? && start.None? && end.Some? ==> state.separator < end.value)
  }

  lemma {:induction false} AscendingAt<V>(l: seq<(Key, V)>, i: nat, j: nat)
    requires Ascending(l) && i < j < |l|
    ensures l[i].0 < l[j].0
  {
    if i == 0 { assert l[j] == l[1..][j - 1]; } else { AscendingAt(l[1..], i - 1, j - 1); }
  }

  lemma {:induction false} CutsCommute<V>(l: seq<(Key, V)>, start: Key, end: Option<Key>)
    ensures CutStart(CutEnd(l, end), start) == CutEnd(CutStart(l, start), end)
  {
    if l != [] { CutsCommute(l[1..], start, end); }
  }

  lemma {:induction false} CutEndUnder<V>(l: seq<(Key, V)>, end: Option<Key>, k: Key)
    ensures AllUnder(l, k) ==> AllUnder(CutEnd(l, end), k)
    ensures NotBelow(l, k) ==> NotBelow(CutEnd(l, end), k)
  {
    if l != [] {
      CutEndUnder(l[1..], end, k);
      assert forall i | 0 <= i < |l[1..]| :: l[1..][i] == l[i + 1];
    }
  }

  /** The leaf a key falls into: the next separator is above it. */
  ghost predicate FallsInto(t: Tree, bi: nat, ii: nat, start: Key) {
    && t.At(bi, ii) && t.Sep(bi, ii) <= start
    && (ii + 1 < |t.branches[bi]| ==> start < t.Sep(bi, ii + 1))
    && (bi + 1 < |t.branches| ==> start < t.Sep(bi + 1, 0))
  }

  lemma StartsAt(t: Tree, bi: nat, ii: nat, start: Key, end: Option<Key>)
    requires t.Ok() && FallsInto(t, bi, ii, start)
    ensures StateOk(t, Waiting(bi, ii, t.Sep(bi, ii), None), Some(start), end)
    ensures CutStart(CutEnd(t.Entries(bi, ii), end), start) == CutStart(CutEnd(t.Entries(0, 0), end), start)
  {
    HeadIs(t, bi, ii);
    hide Tree.Ok, Tree.Entries, Tree.HeadSep, CutEnd, CutStart;
    SkipTo(t, 0, 0, bi, ii, start);
    CutsCommute(t.Entries(bi, ii), start, end);
    CutsCommute(t.Entries(0, 0), start, end);
  }

  /** An entry past the end ends everything. */
  lemma OutOfRange(t: Tree, bi: nat, ii: nat, current: CurrentLeaf, end: Option<Key>)
    requires t.Ok() && t.At(bi, ii) && current.leaf == t.LeafAt(bi, ii) && current.index < |current.leaf|
    requires end.Some? && end.value <= current.leaf[current.index].0
    ensures CutEnd(current.leaf[current.index..] + t.Entries(bi, ii + 1), end) == [] && t.Needed(bi, ii + 1, end) == []
    ensures current.index + 1 < |current.leaf| ==> end.value <= current.leaf[current.index + 1].0
  {
    var leaf, i := current.leaf, current.index;
    assert t.LeafOk(bi, ii);
    if i + 1 < |leaf| { AscendingAt(leaf, i, i + 1); }
    EntriesPastEnd(t, bi, ii + 1, end);
    forall j | 0 <= j < |leaf[i..]| ensures end.value <= leaf[i..][j].0 {
      assert leaf[i..][j] == leaf[i + j];
      if j > 0 { AscendingAt(leaf, i, i + j); }
    }
    CutEndNone(leaf[i..], end);
    CutEndConcat(leaf[i..], t.Entries(bi, ii + 1), end);
  }

  /** An entry in range comes first, then what lies behind it. */
  lemma TakeFirst(t: Tree, bi: nat, ii: nat, current: CurrentLeaf, end: Option<Key>)
    requires t.At(bi, ii) && current.index < |current.leaf| && current.IsInRange(end)
    ensures CutEnd(current.leaf[current.index..] + t.Entries(bi, ii + 1), end)
            == [current.leaf[current.index]] + CutEnd(current.leaf[current.index + 1..] + t.Entries(bi, ii + 1), end)
  {
    var all := current.leaf[current.index..] + t.Entries(bi, ii + 1);
    assert all[0] == current.leaf[current.index];
    assert all[1..] == current.leaf[current.index + 1..] + t.Entries(bi, ii + 1);
  }

  lemma WaitsFor(t: Tree, state: LeafState, start: Option<Key>, end: Option<Key>)
    requires state.Waiting? && StateOk(t, state, start, end)
    ensures t.At(state.bi, state.ii)
            && StateOk(t, Waiting(state.bi, state.ii, t.Sep(state.bi, state.ii), None), start, end)
    ensures Remaining(t, state, start, end)
            == Remaining(t, Waiting(state.bi, state.ii, t.Sep(state.bi, state.ii), None), start, end)
    ensures end.None? || state.separator < end.value ==>
              StillNeeded(t, state, end) == [t.Page(state.bi, state.ii)] + t.Needed(state.bi, state.ii + 1, end)
  {
  }

  lemma ProceedsIn(t: Tree, bi: nat, ii: nat, current: CurrentLeaf, end: Option<Key>)
    requires t.At(bi, ii) && current.leaf == t.LeafAt(bi, ii) && current.index < |current.leaf|
    ensures StateOk(t, Proceeding(bi, ii, current), None, end)
    ensures Remaining(t, Proceeding(bi, ii, current), None, end)
            == CutEnd(current.leaf[current.index..] + t.Entries(bi, ii + 1), end)
    ensures StillNeeded(t, Proceeding(bi, ii, current), end) == t.Needed(bi, ii + 1, end)
  {
  }

  /** A leaf that is provided gives what was waited for. */
  lemma Provided(t: Tree, bi: nat, ii: nat, index: nat, start: Option<Key>, end: Option<Key>)
    requires t.Ok() && t.At(bi, ii) && index <= |t.LeafAt(bi, ii)|
    requires StateOk(t, Waiting(bi, ii, t.Sep(bi, ii), None), start, end)
    requires start.None? ==> index == 0
    requires start.Some? ==>
               AllUnder(t.LeafAt(bi, ii)[..index], start.value) && NotBelow(t.LeafAt(bi, ii)[index..], start.value)
    ensures Remaining(t, Waiting(bi, ii, t.Sep(bi, ii), None), start, end)
            == CutEnd(t.LeafAt(bi, ii)[index..] + t.Entries(bi, ii + 1), end)
  {
    var leaf, rest := t.LeafAt(bi, ii), t.Entries(bi, ii + 1);
    assert leaf[..index] + leaf[index..] == leaf;
    assert leaf + rest == leaf[..index] + (leaf[index..] + rest);
    if start.None? {
      assert leaf[..0] + (leaf[0..] + rest) == leaf[0..] + rest;
    } else {
      assert NotBelow(leaf[index..] + rest, start.value) by { EntriesOk(t, bi, ii + 1); }
      CutFront(leaf[..index], leaf[index..] + rest, start.value, end);
    }
  }

  lemma CutFront<V>(a: seq<(Key, V)>, b: seq<(Key, V)>, start: Key, end: Option<Key>)
    requires AllUnder(a, start) && NotBelow(b, start)
    ensures CutStart(CutEnd(a + b, end), start) == CutEnd(b, end)
  {
    hide CutStart, CutEnd, AllUnder, NotBelow;
    CutEndConcat(a, b, end);
    CutStartConcat(CutEnd(a, end), CutEnd(b, end), start);
    CutEndUnder(a, end, start);
    CutStartAll(CutEnd(a, end), start);
    CutEndUnder(b, end, start);
    CutStartAll(CutEnd(b, end), start);
  }

  /** Binary search for the first entry not below a key. */
  method FirstNotBelow(leaf: Leaf, key: Key) returns (index: nat)
    requires Ascending(leaf)
    ensures index <= |leaf| && AllUnder(leaf[..index], key) && NotBelow(leaf[index..], key)
  {
    var low, high := 0, |leaf|;
    while low < high
      invariant 0 <= low <= high <= |leaf|
      invariant forall i | 0 <= i < low :: leaf[i].0 < key
      invariant forall i | high <= i < |leaf| :: key <= leaf[i].0
    {
      var mid := (low + high) / 2;
      forall i, j | 0 <= i < j < |leaf| ensures leaf[i].0 < leaf[j].0 { AscendingAt(leaf, i, j); }
      if leaf[mid].0 < key { low := mid + 1; } else { high := mid; }
    }
    index := low;
  }

  /** The separator of the leaf a key falls into. */
  function StartSep(t: Tree, start: Key): Option<Key> {
    var found := Lookup(t, start, |t.branches|);
    if found.None? then None
    else
      var index := SearchBranch(t.branches[found.value], start, |t.branches[found.value]|);
      if index.None? then None else Some(t.Sep(found.value, index.value))
  }

  class LeafIterator {
    const tree: Tree
    const end: Option<Key>
    var state: LeafState
    /** `None` once past the start key. */
    var start: Option<Key>

    ghost predicate Valid()
      reads this
    {
      tree.Ok() && StateOk(tree, state, start, end)
    }

    ghost function Rest(): seq<(Key, Value)>
      requires Valid()
      reads this
    {
      Remaining(tree, state, start, end)
    }

    ghost function NeededLeaves(): seq<PageNumber>
      requires Valid()
      reads this
    {
      StillNeeded(tree, state, end)
    }

    /** The leaf that is waited for, if any, is one of those that are needed. */
    ghost predicate InRange()
      reads this
    {
      state.Waiting? && end.Some? ==> state.separator < end.value
    }

    lemma Ordered()
      requires Valid()
      ensures tree.SepsAscend()
    {
    }

    constructor (tree: Tree, start: Key, end: Option<Key>)
      requires tree.Ok() && (tree.branches != [] ==> tree.Sep(0, 0) <= start)
      ensures Valid() && this.tree == tree && this.end == end
      ensures Rest() == CutStart(CutEnd(tree.Entries(0, 0), end), start)
      ensures state.Waiting? <==> StartSep(tree, start).Some?
      ensures state.Waiting? ==> state.separator == StartSep(tree, start).value
      ensures state.Waiting? && end.Some? ==> (NeededLeaves() == [] <==> end.value <= state.separator)
    {
      this.tree, this.end, this.start := tree, end, Some(start);
      state := Done(None);
      new;
      var found := Lookup(tree, start, |tree.branches|);
      if found.None? { return; }
      var index := SearchBranch(tree.branches[found.value], start, |tree.branches[found.value]|);
      if index.None? { return; }
      assert FallsInto(tree, found.value, index.value, start) by { hide Lookup, SearchBranch; }
      StartsAt(tree, found.value, index.value, start, end);
      state := Waiting(found.value, index.value, tree.Sep(found.value, index.value), None);
    }

    /** The next key, and whether its leaf is still to come. */
    function PeekKey(): Option<(Key, bool)>
      requires Valid()
      reads this
    {
      match state
      case Done(_) => None
      case Waiting(_, _, separator, _) => Some((separator, true))
      case Proceeding(_, _, current) => Some((current.leaf[current.index].0, false))
    }

    /** The state after a leaf is read to its end. */
    method NewStateLeafConsumed(bi: nat, next: nat, last: CurrentLeaf) returns (s: LeafState)
      requires tree.Ok() && bi < |tree.branches| && 0 < next <= |tree.branches[bi]|
      ensures StateOk(tree, s, None, end) && !s.Proceeding? && s.last == Some(last)
      ensures Remaining(tree, s, None, end) == CutEnd(tree.Entries(bi, next), end)
      ensures StillNeeded(tree, s, end) == tree.Needed(bi, next, end)
      ensures s.Waiting? && end.Some? ==> s.separator < end.value
    {
      if |tree.branches[bi]| == next {
        AfterBranch(tree, bi);
        var nextBranch := NextBranch(tree, tree.Sep(bi, next - 1), 0);
        if nextBranch.None? {
          s := Done(Some(last));
        } else {
          var key := tree.Sep(nextBranch.value, 0);
          if end.Some? && end.value <= key {
            EntriesPastEnd(tree, bi, next, end);
            s := Done(Some(last));
          } else {
            FindsItself(tree, nextBranch.value);
            var found := Lookup(tree, key, |tree.branches|).value;
            s := Waiting(found, 0, tree.Sep(found, 0), Some(last));
          }
        }
      } else {
        var separator := tree.Sep(bi, next);
        if end.None? || separator < end.value {
          s := Waiting(bi, next, separator, Some(last));
        } else {
          EntriesPastEnd(tree, bi, next, end);
          s := Done(Some(last));
        }
      }
    }

    /** Advance past the next entry and give it; `Blocked` when its leaf is still to come. */
    method Next() returns (r: Option<IterOutput>)
      requires Valid()
      modifies this`state
      ensures Valid()
      ensures old(state).Done? ==> r == None && state == old(state)
      ensures old(state).Waiting? ==> r == Some(Blocked) && state == old(state)
      ensures old(state).Proceeding? ==>
                if old(Rest()) == [] then r == None && state.Done? && Rest() == []
                else r == Some(Item(old(Rest())[0].0, old(Rest())[0].1)) && Rest() == old(Rest())[1..]
      ensures NeededLeaves() == old(NeededLeaves()) && (old(InRange()) ==> InRange())
    {
      hide Tree.Ok, Tree.Entries, Tree.Needed, Tree.HeadSep, CutEnd, CutStart;
      match state {
        case Done(_) => r := None;
        case Waiting(_, _, _, _) => r := Some(Blocked);
        case Proceeding(bi, ii, before) =>
          if before.IsInRange(end) {
            TakeFirst(tree, bi, ii, before, end);
          } else {
            OutOfRange(tree, bi, ii, before, end);
          }
          var current := CurrentLeaf(before.leaf, before.index + 1);
          if current.IsConsumed() {
            if current.IsLastOutputInRange(end) {
              assert before.leaf[before.index + 1..] + tree.Entries(bi, ii + 1) == tree.Entries(bi, ii + 1);
              state := NewStateLeafConsumed(bi, ii + 1, current);
            } else {
              state := Done(None);
            }
          } else if !current.IsInRange(end) {
            OutOfRange(tree, bi, ii, current, end);
            state := Done(if current.IsLastOutputInRange(end) then Some(current) else None);
          } else {
            state := Proceeding(bi, ii, current);
          }
          match state {
            case Done(last) => r := if last.Some? then Some(last.value.LastOutput()) else None;
            case Waiting(_, _, _, last) => r := Some(last.value.LastOutput());
            case Proceeding(_, _, current) => r := Some(current.LastOutput());
          }
      }
    }

    /** The state at an entry of a leaf, or behind its last one. */
    method StateIn(bi: nat, ii: nat, current: CurrentLeaf) returns (s: LeafState)
      requires tree.Ok() && tree.At(bi, ii) && current.leaf == tree.LeafAt(bi, ii) && current.index <= |current.leaf|
      ensures StateOk(tree, s, None, end) && (s.Waiting? && end.Some? ==> s.separator < end.value)
      ensures Remaining(tree, s, None, end) == CutEnd(current.leaf[current.index..] + tree.Entries(bi, ii + 1), end)
      ensures StillNeeded(tree, s, end) == tree.Needed(bi, ii + 1, end)
    {
      hide Tree.Ok, Tree.Entries, Tree.HeadSep, Tree.Needed, CutEnd, StateOk, Remaining, StillNeeded;
      if current.IsConsumed() {
        assert current.leaf[current.index..] + tree.Entries(bi, ii + 1) == tree.Entries(bi, ii + 1);
        s := NewStateLeafConsumed(bi, ii + 1, current);
      } else {
        ProceedsIn(tree, bi, ii, current, end);
        s := Proceeding(bi, ii, current);
      }
    }

    lemma Awaited()
      requires Valid() && state.Waiting?
      ensures tree.At(state.bi, state.ii) && Ascending(tree.LeafAt(state.bi, state.ii))
    {
      assert tree.LeafOk(state.bi, state.ii);
    }

    /** Provide the leaf that is waited for. */
    method ProvideLeaf(leaf: Leaf)
      requires Valid() && state.Waiting? && leaf == tree.LeafAt(state.bi, state.ii)
      modifies this
      ensures Valid() && InRange() && Rest() == old(Rest())
      ensures end.None? || old(state).separator < end.value ==>
                old(NeededLeaves()) == [tree.Page(old(state).bi, old(state).ii)] + NeededLeaves()
    {
      hide Tree.LeafOk, AllUnder, NotBelow, Tree.Ok, Tree.Entries, Tree.HeadSep, Tree.Needed, Ascending, CutEnd,
        CutStart, StateOk, Remaining, StillNeeded, Tree.SepsAscend;
      var index := 0;
      Awaited();
      WaitsFor(tree, state, start, end);
      if start.Some? { index := FirstNotBelow(leaf, start.value); }
      var bi, ii := state.bi, state.ii;
      Provided(tree, bi, ii, index, start, end);
      start := None;
      state := StateIn(bi, ii, CurrentLeaf(leaf, index));
    }
  }

  // ----- the pages that will be needed

  class NeededLeavesIter {
    const tree: Tree
    const end: Option<Key>
    /** The branch and the next index in it. */
    var state: Option<(nat, nat)>

    ghost predicate Valid()
      reads this
    {
      state.Some? ==> state.value.0 < |tree.branches| && tree.Near(state.value.0, state.value.1)
    }

    ghost function Pages(): seq<PageNumber>
      requires Valid()
      reads this
    {
      if state.None? then [] else tree.Needed(state.value.0, state.value.1, end)
    }

    constructor (iter: LeafIterator)
      requires iter.Valid()
      ensures Valid() && tree == iter.tree && end == iter.end && Pages() == iter.NeededLeaves()
    {
      tree, end := iter.tree, iter.end;
      state := match iter.state
               case Waiting(bi, ii, _, _) => Some((bi, ii))
               case Proceeding(bi, ii, _) => Some((bi, ii + 1))
               case Done(_) => None;
    }

    /** The next page, in order. */
    method Next() returns (r: Option<PageNumber>)
      requires Valid() && tree.SepsAscend()
      modifies this
      ensures Valid()
      ensures if old(Pages()) == [] then r == None && Pages() == []
              else r == Some(old(Pages())[0]) && Pages() == old(Pages())[1..]
      decreases if state.None? then 0 else 1 + |tree.branches| - state.value.0
    {
      if state.None? { return None; }
      var (bi, i) := state.value;
      if i < |tree.branches[bi]| {
        if end.None? || tree.Sep(bi, i) < end.value {
          state := Some((bi, i + 1));
          return Some(tree.Page(bi, i));
        }
        state := None;
        return None;
      }
      AfterBranch(tree, bi);
      var next := NextBranch(tree, tree.Sep(bi, |tree.branches[bi]| - 1), 0);
      if next.None? {
        assert tree.Needed(bi + 1, 0, end) == [];
        state := None;
        return None;
      }
      FindsItself(tree, next.value);
      state := Some((Lookup(tree, tree.Sep(next.value, 0), |tree.branches|).value, 0));
      r := Next();
    }
  }

  // ----- staged changes

  class StagingIterator {
    var primary: seq<(Key, ValueChange)>
    var secondary: Option<seq<(Key, ValueChange)>>

    ghost function Second(): seq<(Key, ValueChange)>
      reads this
    {
      if secondary.Some? then secondary.value else []
    }

    ghost predicate Valid(end: Option<Key>)
      reads this
    {
      && Ascending(primary) && Ascending(Second())
      && (end.Some? ==> AllUnder(primary, end.value) && AllUnder(Second(), end.value))
    }

    /** The changes still to come; of two for one key the primary one. */
    ghost function Rest(): seq<(Key, ValueChange)>
      reads this
    {
      MergeChanges(primary, Second())
    }

    constructor (primary: seq<(Key, ValueChange)>, secondary: Option<seq<(Key, ValueChange)>>, start: Key,
                 end: Option<Key>)
      requires Ascending(primary) && (secondary.Some? ==> Ascending(secondary.value))
      ensures Valid(end) && this.primary == CutStart(CutEnd(primary, end), start)
      ensures Second() == if secondary.Some? then CutStart(CutEnd(secondary.value, end), start) else []
    {
      Ranged(primary, start, end);
      if secondary.Some? { Ranged(secondary.value, start, end); }
      this.primary := CutStart(CutEnd(primary, end), start);
      this.secondary := if secondary.Some? then Some(CutStart(CutEnd(secondary.value, end), start)) else None;
    }

    function Peek(): (r: Option<(Key, ValueChange)>)
      reads this
      ensures r == if Rest() == [] then None else Some(Rest()[0])
    {
      if primary == [] then
        (if secondary.None? || secondary.value == [] then None else Some(secondary.value[0]))
      else if secondary.None? || secondary.value == [] || primary[0].0 <= secondary.value[0].0 then Some(primary[0])
      else Some(secondary.value[0])
    }

    method Next(ghost end: Option<Key>) returns (r: Option<(Key, ValueChange)>)
      requires Valid(end)
      modifies this
      ensures Valid(end) && r == old(Peek())
      ensures Rest() == if old(Rest()) == [] then [] else old(Rest())[1..]
    {
      r := Peek();
      if secondary.None? || secondary.value == [] {
        if primary != [] { primary := primary[1..]; }
      } else if primary == [] || primary[0].0 > secondary.value[0].0 {
        secondary := Some(secondary.value[1..]);
      } else {
        if primary[0].0 == secondary.value[0].0 { secondary := Some(secondary.value[1..]); }
        primary := primary[1..];
      }
    }
  }

  lemma Ranged<V>(l: seq<(Key, V)>, start: Key, end: Option<Key>)
    requires Ascending(l)
    ensures Ascending(CutStart(CutEnd(l, end), start))
    ensures end.Some? ==> AllUnder(CutStart(CutEnd(l, end), start), end.value)
  {
    CutKeeps(l, start, end);
    CutKeeps(CutEnd(l, end), start, end);
    CutsCommute(l, start, end);
    CutKeeps(CutStart(l, start), start, end);
  }

  // ----- the whole iterator

  /** What the peeked leaf key says about the leaf entries to come. */
  ghost predicate PeekBounds(l: seq<(Key, Value)>, key: Key, pending: bool, end: Option<Key>) {
    && NotBelow(l, key)
    && (!pending ==> if end.None? || key < end.value then l != [] && l[0].0 == key else l == [])
  }

  lemma RestBounds(t: Tree, state: LeafState, start: Option<Key>, end: Option<Key>)
    requires t.Ok() && StateOk(t, state, start, end)
    ensures Ascending(Remaining(t, state, start, end))
    ensures state.Waiting? ==> PeekBounds(Remaining(t, state, start, end), state.separator, true, end)
    ensures state.Proceeding? ==>
              PeekBounds(Remaining(t, state, start, end), state.current.leaf[state.current.index].0, false, end)
  {
    match state {
      case Done(_) =>
      case Waiting(bi, ii, _, _) => WaitingBounds(t, bi, ii, start, end);
      case Proceeding(bi, ii, current) => ProceedingBounds(t, bi, ii, current, end);
    }
  }

  lemma WaitingBounds(t: Tree, bi: nat, ii: nat, start: Option<Key>, end: Option<Key>)
    requires t.Ok() && t.At(bi, ii)
    ensures var all := CutEnd(t.Entries(bi, ii), end);
            var l := if start.Some? then CutStart(all, start.value) else all;
            Ascending(l) && NotBelow(l, t.Sep(bi, ii))
  {
    EntriesOk(t, bi, ii);
    hide Tree.Ok, Tree.Entries;
    CutKeeps(t.Entries(bi, ii), 0, end);
    if start.Some? {
      CutKeeps(CutEnd(t.Entries(bi, ii), end), start.value, None);
      CutStartUnder(CutEnd(t.Entries(bi, ii), end), start.value, t.Sep(bi, ii));
    }
  }

  lemma {:induction false} CutStartUnder<V>(l: seq<(Key, V)>, start: Key, k: Key)
    requires NotBelow(l, k)
    ensures NotBelow(CutStart(l, start), k)
  {
    if l != [] {
      assert forall i | 0 <= i < |l[1..]| :: l[1..][i] == l[i + 1];
      CutStartUnder(l[1..], start, k);
    }
  }

  lemma ProceedingBounds(t: Tree, bi: nat, ii: nat, current: CurrentLeaf, end: Option<Key>)
    requires t.Ok() && t.At(bi, ii) && current.leaf == t.LeafAt(bi, ii) && current.index < |current.leaf|
    ensures var l := CutEnd(current.leaf[current.index..] + t.Entries(bi, ii + 1), end);
            Ascending(l) && PeekBounds(l, current.leaf[current.index].0, false, end)
  {
    hide Tree.Ok, Tree.Entries, Ascending;
    var leaf, i, rest := current.leaf, current.index, t.Entries(bi, ii + 1);
    RestAscends(t, bi, ii, i);
    CutKeeps(leaf[i..] + rest, 0, end);
    CutEndUnder(leaf[i..] + rest, end, leaf[i].0);
    if current.IsInRange(end) { TakeFirst(t, bi, ii, current, end); } else { OutOfRange(t, bi, ii, current, end); }
  }

  lemma RestAscends(t: Tree, bi: nat, ii: nat, i: nat)
    requires t.Ok() && t.At(bi, ii) && i < |t.LeafAt(bi, ii)|
    ensures var leaf := t.LeafAt(bi, ii);
            Ascending(leaf[i..] + t.Entries(bi, ii + 1)) && NotBelow(leaf[i..] + t.Entries(bi, ii + 1), leaf[i].0)
  {
    EntriesOk(t, bi, ii + 1);
    assert t.LeafOk(bi, ii);
    hide Tree.Ok, Tree.Entries, Tree.HeadSep, Ascending;
    var leaf, rest := t.LeafAt(bi, ii), t.Entries(bi, ii + 1);
    AscendingSuffix(leaf, i);
    if t.HeadSep(bi, ii + 1).Some? {
      AscendingConcat(leaf[i..], rest, t.HeadSep(bi, ii + 1).value);
    } else {
      assert leaf[i..] + rest == leaf[i..];
    }
    forall j | 0 <= j < |leaf[i..]| ensures leaf[i].0 <= leaf[i..][j].0 { if j > 0 { AscendingAt(leaf, i, i + j); } }
  }

  lemma {:induction false} AscendingSuffix<V>(l: seq<(Key, V)>, i: nat)
    requires Ascending(l) && i <= |l|
    ensures Ascending(l[i..])
  {
    if i > 0 {
      AscendingSuffix(l[1..], i - 1);
      assert l[1..][i - 1..] == l[i..];
    } else {
      assert l[0..] == l;
    }
  }

  class BeatreeIterator {
    const memory: StagingIterator
    const leaf: LeafIterator

    ghost predicate Valid()
      reads this, memory, leaf
    {
      leaf.Valid() && memory.Valid(leaf.end)
    }

    /** What the iterator still has to give: the leaf entries with the staged changes merged in. */
    ghost function Rest(): seq<(Key, Value)>
      requires Valid()
      reads this, memory, leaf
    {
      Merge(leaf.Rest(), memory.Rest())
    }

    constructor (primary: seq<(Key, ValueChange)>, secondary: Option<seq<(Key, ValueChange)>>, tree: Tree, start: Key,
                 end: Option<Key>)
      requires Ascending(primary) && (secondary.Some? ==> Ascending(secondary.value))
      requires tree.Ok() && (tree.branches != [] ==> tree.Sep(0, 0) <= start)
      ensures Valid() && fresh(memory) && fresh(leaf) && leaf.tree == tree && leaf.end == end
      ensures leaf.state.Waiting? <==> StartSep(tree, start).Some?
      ensures leaf.state.Waiting? ==> leaf.state.separator == StartSep(tree, start).value
      ensures leaf.state.Waiting? && end.Some? ==> (leaf.NeededLeaves() == [] <==> end.value <= leaf.state.separator)
      ensures leaf.Rest() == CutStart(CutEnd(tree.Entries(0, 0), end), start)
      ensures memory.primary == CutStart(CutEnd(primary, end), start)
      ensures memory.Second() == if secondary.Some? then CutStart(CutEnd(secondary.value, end), start) else []
    {
      memory := new StagingIterator(primary, secondary, start, end);
      leaf := new LeafIterator(tree, start, end);
    }

    lemma Bounds()
      requires Valid()
      ensures var k := leaf.PeekKey();
              && (k.None? ==> leaf.state.Done? && leaf.Rest() == [])
              && (k.Some? ==> PeekBounds(leaf.Rest(), k.value.0, k.value.1, leaf.end)
                              && (if k.value.1 then leaf.state.Waiting? else leaf.state.Proceeding?))
      ensures memory.Peek().Some? && leaf.end.Some? ==> memory.Peek().value.0 < leaf.end.value
    {
      RestBounds(leaf.tree, leaf.state, leaf.start, leaf.end);
    }

    /** The next item; `Blocked` when a leaf has to be provided first, `None` at the end. */
    method Next() returns (r: Option<IterOutput>)
      requires Valid()
      modifies memory, leaf`state
      ensures Valid() && leaf.NeededLeaves() == old(leaf.NeededLeaves())
      ensures old(leaf.InRange()) ==> leaf.InRange()
      ensures r.None? ==> old(Rest()) == [] && Rest() == []
      ensures old(leaf.state.Waiting?) && old(memory.Rest()) == [] ==>
                r == Some(Blocked) && leaf.state == old(leaf.state)
      ensures r == Some(Blocked) ==> Rest() == old(Rest()) && leaf.state.Waiting?
      ensures r.Some? && r.value.Item? ==>
                old(Rest()) != [] && old(Rest())[0] == (r.value.key, r.value.value) && Rest() == old(Rest())[1..]
    {
      hide LeafIterator.Valid, LeafIterator.Rest, LeafIterator.NeededLeaves, MergeChanges;
      while true
        invariant Valid() && Rest() == old(Rest())
        invariant old(leaf.state.Waiting?) && old(memory.Rest()) == [] ==>
                    leaf.state == old(leaf.state) && memory.Rest() == []
        invariant leaf.NeededLeaves() == old(leaf.NeededLeaves())
        invariant old(leaf.InRange()) ==> leaf.InRange()
        decreases |memory.Rest()|
      {
        Bounds();
        var leafKey, change := leaf.PeekKey(), memory.Peek();
        if change.None? {
          if leafKey.None? { return None; }
          r := leaf.Next();
          return;
        }
        if leafKey.None? || change.value.0 < leafKey.value.0 {
          var taken := memory.Next(leaf.end);
          if taken.value.1.Put? { return Some(Item(taken.value.0, taken.value.1.value)); }
        } else if change.value.0 == leafKey.value.0 {
          if leafKey.value.1 { return Some(Blocked); }
          var skipped := leaf.Next();
          var taken := memory.Next(leaf.end);
          if taken.value.1.Put? { return Some(Item(taken.value.0, taken.value.1.value)); }
        } else {
          r := leaf.Next();
          return;
        }
      }
    }
  }

  // ----- driving the iterator

  /** Provide the first needed page, if there is one. */
  method Unblock(iter: BeatreeIterator) returns (page: Option<PageNumber>)
    requires iter.Valid() && iter.leaf.state.Waiting?
    modifies iter.leaf
    ensures page.Some? <==> old(iter.leaf.InRange())
    ensures page.Some? ==> iter.Valid() && iter.leaf.InRange() && iter.Rest() == old(iter.Rest())
    ensures page.Some? ==> old(iter.leaf.NeededLeaves()) == [page.value] + iter.leaf.NeededLeaves()
  {
    hide Merge, MergeChanges, Remaining, Tree.Ok, Tree.Entries, CutEnd, CutStart, Tree.HeadSep;
    ghost var bi, ii := iter.leaf.state.bi, iter.leaf.state.ii;
    var needed := new NeededLeavesIter(iter.leaf);
    assert needed.tree.SepsAscend() by { iter.leaf.Ordered(); }
    page := needed.Next();
    if page.None? { return; }
    assert page.value == iter.leaf.tree.Page(bi, ii);
    iter.leaf.ProvideLeaf(iter.leaf.tree.leaves(page.value));
  }

  /** Answer every `Blocked` with the next needed page and gather all items and all pages asked for. A
      fresh iterator gets stuck, blocked without a needed page, just when the leaf it waits for lies past
      the end. */
  method Drive(iter: BeatreeIterator) returns (out: seq<(Key, Value)>, asked: seq<PageNumber>, stuck: bool)
    requires iter.Valid() && (!iter.leaf.InRange() ==> iter.memory.Rest() == [])
    modifies iter.memory, iter.leaf
    ensures stuck <==> !old(iter.leaf.InRange())
    ensures !stuck ==> out == old(iter.Rest()) && asked <= old(iter.leaf.NeededLeaves())
  {
    hide BeatreeIterator.Rest, LeafIterator.NeededLeaves, LeafIterator.Valid, StagingIterator.Valid,
      StagingIterator.Rest;
    out, asked, stuck := [], [], false;
    ghost var rest, pages := iter.Rest(), iter.leaf.NeededLeaves();
    while true
      invariant iter.Valid() && iter.leaf.InRange() == old(iter.leaf.InRange())
      invariant !iter.leaf.InRange() ==> iter.memory.Rest() == []
      invariant out + iter.Rest() == rest && asked + iter.leaf.NeededLeaves() == pages
      decreases |iter.leaf.NeededLeaves()|, |iter.Rest()|
    {
      ghost var before, left := iter.Rest(), iter.leaf.NeededLeaves();
      var r := iter.Next();
      if r.None? { return; }
      if r.value.Blocked? {
        var page := Unblock(iter);
        if page.None? { return out, asked, true; }
        assert asked + left == asked + [page.value] + iter.leaf.NeededLeaves();
        asked := asked + [page.value];
      } else {
        var item := (r.value.key, r.value.value);
        assert out + before == out + [item] + before[1..];
        out := out + [item];
      }
    }
  }

  function Listed<V>(l: Option<seq<V>>): seq<V> { if l.Some? then l.value else [] }

  /** What a read of a key sees: the leaf entry, under the secondary staging, under the primary one. */
  ghost function Seen(primary: seq<(Key, ValueChange)>, secondary: seq<(Key, ValueChange)>, tree: Tree,
                      k: Key): Option<Value> {
    var change := if Find(primary, k).Some? then Find(primary, k) else Find(secondary, k);
    Overridden(Find(tree.Entries(0, 0), k), change)
  }

  ghost predicate KeyInRange(k: Key, start: Key, end: Option<Key>) { start <= k && (end.None? || k < end.value) }

  lemma FindRanged<V>(l: seq<(Key, V)>, start: Key, end: Option<Key>, k: Key)
    ensures Find(CutStart(CutEnd(l, end), start), k) == if KeyInRange(k, start, end) then Find(l, k) else None
  {
    FindCutStart(CutEnd(l, end), start, k);
    FindCutEnd(l, end, k);
  }

  /** The merged ranges ascend and hold exactly what reads of the keys in range see. */
  lemma RestIs(primary: seq<(Key, ValueChange)>, secondary: seq<(Key, ValueChange)>, tree: Tree, start: Key,
               end: Option<Key>)
    requires Ascending(primary) && Ascending(secondary) && tree.Ok()
    ensures var rest := Merge(CutStart(CutEnd(tree.Entries(0, 0), end), start),
                              MergeChanges(CutStart(CutEnd(primary, end), start),
                                           CutStart(CutEnd(secondary, end), start)));
            && Ascending(rest)
            && forall k: Key ::
                 Find(rest, k) == if KeyInRange(k, start, end) then Seen(primary, secondary, tree, k) else None
  {
    EntriesOk(tree, 0, 0);
    var l := CutStart(CutEnd(tree.Entries(0, 0), end), start);
    var p, s := CutStart(CutEnd(primary, end), start), CutStart(CutEnd(secondary, end), start);
    Ranged(tree.Entries(0, 0), start, end);
    Ranged(primary, start, end);
    Ranged(secondary, start, end);
    hide Tree.Ok, Tree.Entries, CutEnd, CutStart, Merge, MergeChanges, Ascending, Find;
    MergeChangesIs(p, s);
    MergeIs(l, MergeChanges(p, s));
    forall k: Key ensures Find(Merge(l, MergeChanges(p, s)), k)
                          == if KeyInRange(k, start, end) then Seen(primary, secondary, tree, k) else None {
      FindRanged(tree.Entries(0, 0), start, end, k);
      FindRanged(primary, start, end, k);
      FindRanged(secondary, start, end, k);
      MergeChangesFind(p, s, k);
      MergeFind(l, MergeChanges(p, s), k);
    }
  }

  /** The leaf the start key falls into lies at or past the end. */
  ghost predicate StartsPastEnd(tree: Tree, start: Key, end: Option<Key>) {
    StartSep(tree, start).Some? && end.Some? && end.value <= StartSep(tree, start).value
  }

  lemma {:induction false} NothingBetween<V>(l: seq<(Key, V)>, start: Key, end: Key)
    requires end <= start
    ensures CutStart(CutEnd(l, Some(end)), start) == []
  {
    if l != [] { NothingBetween(l[1..], start, end); }
  }

  /** Iterating a range, over any staged changes, gives in ascending order exactly what reads of its keys
      see; it gets stuck, waiting for a page without asking for one, if and only if the leaf the start
      key falls into lies at or past the end. */
  method Iterate(primary: seq<(Key, ValueChange)>, secondary: Option<seq<(Key, ValueChange)>>, tree: Tree, start: Key,
                 end: Option<Key>)
    returns (out: Option<seq<(Key, Value)>>)
    requires Ascending(primary) && Ascending(Listed(secondary)) && tree.Ok()
    requires tree.branches != [] ==> tree.Sep(0, 0) <= start
    ensures out.None? <==> StartsPastEnd(tree, start, end)
    ensures out.Some? ==> Ascending(out.value)
    ensures out.Some? ==> forall k: Key ::
              Find(out.value, k)
              == if KeyInRange(k, start, end) then Seen(primary, Listed(secondary), tree, k) else None
  {
    hide Tree.Ok, Tree.Entries, Merge, Ascending, Find, StartSep, LeafIterator.Valid;
    assert CutEnd<ValueChange>([], end) == [];
    RestIs(primary, Listed(secondary), tree, start, end);
    var iter := new BeatreeIterator(primary, secondary, tree, start, end);
    if StartsPastEnd(tree, start, end) {
      SepBelowStart(tree, start);
      NothingBetween(primary, start, end.value);
      NothingBetween(Listed(secondary), start, end.value);
    }
    var items, asked, stuck := Drive(iter);
    out := if stuck then None else Some(items);
  }

  /** That happens: one empty leaf from 5 on, and the empty range from 6 to 5. */
  method GetStuck() returns (out: Option<seq<(Key, Value)>>)
    ensures out == None
  {
    var branch: Branch := [(5, 7)];
    var tree := Tree([branch], _ => []);
    assert tree.At(0, 0) && tree.Sep(0, 0) == 5 && tree.HeadSep(0, 1) == None;
    assert Lookup(tree, 6, 1) == Some(0) && SearchBranch(branch, 6, 1) == Some(0);
    out := Iterate([], None, tree, 6, Some(5));
  }

  /** The leaf a key falls into starts at or before it. */
  lemma SepBelowStart(tree: Tree, start: Key)
    requires tree.Ok() && StartSep(tree, start).Some?
    ensures StartSep(tree, start).value <= start
  {
  }
}
