/** Building a canonical sub-trie in one left-to-right pass over sorted key-value pairs, and the
    commands the pass hands to its visitor. */
module Update {
  import opened Wrappers
  import opened Trie

  type Op = (Key, ValueHash)

  ghost predicate Before(ops: seq<Op>, i: nat, j: nat)
    requires i < |ops| && j < |ops|
  {
    Less(ops[i].0, ops[j].0)
  }

  ghost predicate Ascending(ops: seq<Op>) {
    forall i, j | 0 <= i < j < |ops| :: Before(ops, i, j)
  }

  ghost function MapOf(ops: seq<Op>): State {
    if ops == [] then map[]
    else MapOf(ops[..|ops| - 1])[ops[|ops| - 1].0 := ops[|ops| - 1].1]
  }

  lemma {:induction false} MapOfIndex(ops: seq<Op>, k: Key) returns (j: nat)
    requires k in MapOf(ops)
    ensures j < |ops| && ops[j].0 == k
  {
    j := |ops| - 1;
    if ops[j].0 != k { j := MapOfIndex(ops[..j], k); }
  }

  lemma {:induction false} MapOfAt(ops: seq<Op>, i: nat)
    requires Ascending(ops) && i < |ops|
    ensures ops[i].0 in MapOf(ops) && MapOf(ops)[ops[i].0] == ops[i].1
  {
    var init := ops[..|ops| - 1];
    if i < |init| {
      assert forall a, b | 0 <= a < b < |init| :: Before(ops, a, b) == Before(init, a, b);
      MapOfAt(init, i);
      assert Before(ops, i, |init|);
    }
  }

  function Max(a: nat, b: nat): nat { if a < b then b else a }

  // ----- visitor commands

  datatype WriteNode =
    | WriteLeaf(goUp: bool, bits: Path, leafData: LeafData)
    | WriteInternal(left: Node, right: Node)
    | WriteTerminator
  {
    /** The node goes one level above the current one, or below that. */
    predicate Up() {
      match this
      case WriteLeaf(up, _, _) => up
      case WriteInternal(_, _) => true
      case WriteTerminator => false
    }

    /** The bits from there to the node. */
    function Down(): Path {
      if WriteLeaf? then bits else []
    }

    function Written(): Node {
      match this
      case WriteLeaf(_, _, d) => Leaf(d)
      case WriteInternal(l, r) => Internal(l, r)
      case WriteTerminator => Terminator
    }

    /** Whether the sibling of the position just left must be emptied: the written node says so. */
    predicate Zeroes(at: Path) {
      WriteInternal? && at != [] && (if at[|at| - 1] then left.Terminator? else right.Terminator?)
    }

    function Move(at: Path): Path {
      (if Up() && at != [] then at[..|at| - 1] else at) + Down()
    }
  }

  /** Where a visitor stands, and what it has written so far, oldest first. */
  datatype Trail = Trail(written: seq<(Path, Node)>, at: Path)

  function Visit(t: Trail, v: WriteNode): Trail {
    Trail(t.written + [(v.Move(t.at), v.Written())], v.Move(t.at))
  }

  /** The visitor: start at `start` and obey the commands in order. */
  function Replay(start: Path, visits: seq<WriteNode>): Trail {
    if visits == [] then Trail([], start)
    else Visit(Replay(start, visits[..|visits| - 1]), visits[|visits| - 1])
  }

  lemma ReplaySnoc(start: Path, visits: seq<WriteNode>, v: WriteNode)
    ensures Replay(start, visits + [v]) == Visit(Replay(start, visits), v)
  {
    assert (visits + [v])[..|visits|] == visits;
  }

  /** Every leaf and internal node below `p` with its true path, children before parents. */
  ghost function PostOrder(m: State, p: Path): seq<(Path, Node)>
    requires |p| <= KEY_BITS
    decreases KEY_BITS - |p|
  {
    if Sub(m, p).Terminator? then []
    else if Sub(m, p).Leaf? || |p| == KEY_BITS then [(p, Sub(m, p))]
    else PostOrder(m, p + [false]) + PostOrder(m, p + [true]) + [(p, Sub(m, p))]
  }

  // ----- the left frontier of a key

  /** The finished, non-empty left siblings on the path of `k`, down to depth `hi`. */
  ghost function Pending(m: State, k: Key, skip: nat, hi: nat): seq<(Node, nat)>
    requires skip <= hi <= KEY_BITS
  {
    if hi == skip then []
    else if k[hi - 1] && !Empty(m, Sib(k, hi)) then
      Pending(m, k, skip, hi - 1) + [(Sub(m, Sib(k, hi)), hi - skip)]
    else Pending(m, k, skip, hi - 1)
  }

  /** All that is written once everything left of the path of `k`, down to depth `hi`, is done. */
  ghost function Done(m: State, k: Key, skip: nat, hi: nat): seq<(Path, Node)>
    requires skip <= hi <= KEY_BITS
  {
    if hi == skip then []
    else if k[hi - 1] then Done(m, k, skip, hi - 1) + PostOrder(m, Sib(k, hi))
    else Done(m, k, skip, hi - 1)
  }

  lemma {:induction false} PendingBelow(m: State, k: Key, skip: nat, hi: nat)
    requires skip <= hi <= KEY_BITS
    ensures forall e | e in Pending(m, k, skip, hi) :: e.1 <= hi - skip
  {
    if hi > skip { PendingBelow(m, k, skip, hi - 1); }
  }

  lemma {:induction false} SamePrefix(m: State, k: Key, k': Key, skip: nat, hi: nat)
    requires skip <= hi <= KEY_BITS && k[..hi] == k'[..hi]
    ensures Pending(m, k, skip, hi) == Pending(m, k', skip, hi)
    ensures Done(m, k, skip, hi) == Done(m, k', skip, hi)
  {
    if hi > skip {
      assert k[..hi - 1] == k[..hi][..hi - 1] == k'[..hi][..hi - 1] == k'[..hi - 1];
      assert k[hi - 1] == k[..hi][hi - 1] == k'[..hi][hi - 1] == k'[hi - 1];
      SamePrefix(m, k, k', skip, hi - 1);
    }
  }

  lemma {:induction false} NothingBetween(m: State, k: Key, skip: nat, lo: nat, hi: nat)
    requires skip <= lo <= hi <= KEY_BITS
    requires forall layer | lo < layer <= hi :: k[layer - 1] ==> Empty(m, Sib(k, layer))
    ensures Pending(m, k, skip, hi) == Pending(m, k, skip, lo)
    ensures Done(m, k, skip, hi) == Done(m, k, skip, lo)
  {
    if hi > lo {
      NothingBetween(m, k, skip, lo, hi - 1);
      if k[hi - 1] { assert PostOrder(m, Sib(k, hi)) == []; }
    }
  }

  /** The state of the pass while it climbs the path of `k`: everything below depth `layer` and
      left of it is finished. */
  ghost predicate Climbing(m: State, k: Key, skip: nat, layer: nat, cur: Node,
                           pending: seq<(Node, nat)>, trail: Trail)
    requires skip <= layer <= KEY_BITS
  {
    && cur == Sub(m, k[..layer])
    && pending == Pending(m, k, skip, layer)
    && trail == Trail(Done(m, k, skip, layer) + PostOrder(m, k[..layer]), k[..layer])
  }

  function TakeSibling(pending: seq<(Node, nat)>, layer: nat): (Node, seq<(Node, nat)>) {
    if pending != [] && pending[|pending| - 1].1 == layer
    then (pending[|pending| - 1].0, pending[..|pending| - 1])
    else (Terminator, pending)
  }

  function Join(bit: bool, node: Node, sibling: Node): WriteNode {
    if bit then WriteInternal(sibling, node) else WriteInternal(node, sibling)
  }

  lemma SplitAt(k: Key, layer: nat)
    requires 0 < layer <= KEY_BITS
    ensures k[..layer] == k[..layer - 1] + [k[layer - 1]]
    ensures Sib(k, layer) == k[..layer - 1] + [!k[layer - 1]]
  {
  }

  /** Popping the frontier finds the sibling on the path, or rightly finds none. */
  lemma PopSibling(m: State, k: Key, skip: nat, layer: nat)
    requires skip < layer <= KEY_BITS
    requires !k[layer - 1] ==> Empty(m, Sib(k, layer))
    ensures TakeSibling(Pending(m, k, skip, layer), layer - skip)
            == (Sub(m, Sib(k, layer)), Pending(m, k, skip, layer - 1))
  {
    PendingBelow(m, k, skip, layer - 1);
    SubKind(m, Sib(k, layer));
  }

  lemma JoinChildren(m: State, k: Key, layer: nat)
    requires 0 < layer <= KEY_BITS && Sub(m, k[..layer - 1]).Internal?
    ensures Join(k[layer - 1], Sub(m, k[..layer]), Sub(m, Sib(k, layer))).Written() == Sub(m, k[..layer - 1])
  {
    SplitAt(k, layer);
    SubKind(m, k[..layer - 1]);
  }

  lemma JoinTrail(m: State, k: Key, skip: nat, layer: nat)
    requires skip < layer <= KEY_BITS && Sub(m, k[..layer - 1]).Internal?
    requires !k[layer - 1] ==> Empty(m, Sib(k, layer))
    ensures Done(m, k, skip, layer) + PostOrder(m, k[..layer]) + [(k[..layer - 1], Sub(m, k[..layer - 1]))]
            == Done(m, k, skip, layer - 1) + PostOrder(m, k[..layer - 1])
  {
    SplitAt(k, layer);
    var node := [(k[..layer - 1], Sub(m, k[..layer - 1]))];
    if k[layer - 1] {
      assert PostOrder(m, k[..layer - 1]) == PostOrder(m, Sib(k, layer)) + PostOrder(m, k[..layer]) + node;
    } else {
      assert PostOrder(m, Sib(k, layer)) == [];
      assert PostOrder(m, k[..layer - 1]) == PostOrder(m, k[..layer]) + node;
    }
  }

  lemma ClimbStep(m: State, k: Key, skip: nat, layer: nat, cur: Node,
                  pending: seq<(Node, nat)>, trail: Trail)
    requires skip < layer <= KEY_BITS && Climbing(m, k, skip, layer, cur, pending, trail)
    requires Sub(m, k[..layer - 1]).Internal?
    requires !k[layer - 1] ==> Empty(m, Sib(k, layer))
    ensures var (sibling, rest) := TakeSibling(pending, layer - skip);
            var v := Join(k[layer - 1], cur, sibling);
            Climbing(m, k, skip, layer - 1, v.Written(), rest, Visit(trail, v))
  {
    PopSibling(m, k, skip, layer);
    JoinChildren(m, k, layer);
    JoinTrail(m, k, skip, layer);
    assert k[..layer][..layer - 1] + [] == k[..layer - 1];
  }

  // ----- neighbours in sorted order

  /** How much `ops[i]` shares with its neighbours bounds what it shares with any key on that side. */
  lemma FarShare(ops: seq<Op>, i: nat, j: nat)
    requires Ascending(ops) && i < |ops| && j < |ops|
    ensures j < i ==> SharedBits(ops[j].0, ops[i].0) <= SharedBits(ops[i - 1].0, ops[i].0)
    ensures j > i ==> SharedBits(ops[i].0, ops[j].0) <= SharedBits(ops[i].0, ops[i + 1].0)
  {
    if j < i - 1 {
      assert Before(ops, j, i - 1) && Before(ops, i - 1, i);
      SharedBitsBetween(ops[j].0, ops[i - 1].0, ops[i].0);
    }
    if j > i + 1 {
      assert Before(ops, i, i + 1) && Before(ops, i + 1, j);
      SharedBitsBetween(ops[i].0, ops[i + 1].0, ops[j].0);
    }
  }

  lemma CoveredShare(k: Key, k': Key, n: nat)
    requires n <= KEY_BITS && Covers(k[..n], k')
    ensures SharedBits(k, k') >= n && SharedBits(k', k) >= n
  {
    SharedBitsIs(k, k', n);
    SharedBitsIs(k', k, n);
  }

  /** A depth below both branching points holds `ops[i]` alone. */
  lemma LeafAlone(ops: seq<Op>, i: nat, depth: nat)
    requires Ascending(ops) && i < |ops| && depth <= KEY_BITS
    requires i > 0 ==> SharedBits(ops[i - 1].0, ops[i].0) < depth
    requires i + 1 < |ops| ==> SharedBits(ops[i].0, ops[i + 1].0) < depth
    ensures Sub(MapOf(ops), ops[i].0[..depth]) == Leaf(LeafData(ops[i].0, ops[i].1))
  {
    var k, m := ops[i].0, MapOf(ops);
    forall k' | k' in m && Covers(k[..depth], k') ensures k' == k {
      var j := MapOfIndex(ops, k');
      FarShare(ops, i, j);
      CoveredShare(k, k', depth);
    }
    MapOfAt(ops, i);
    assert Only(m, k[..depth], k);
    SubKind(m, k[..depth]);
  }

  lemma UnderSibling(k: Key, k': Key, layer: nat)
    requires 0 < layer <= KEY_BITS && Covers(Sib(k, layer), k')
    ensures k != k' && SharedBits(k, k') == SharedBits(k', k) == layer - 1
    ensures Less(k', k) <==> k[layer - 1]
  {
    assert forall i :: 0 <= i < layer ==> k'[i] == Sib(k, layer)[i];
    assert k'[..layer - 1] == k[..layer - 1];
    SharedBitsIs(k, k', layer - 1);
    SharedBitsIs(k', k, layer - 1);
  }

  lemma NotBoth(ops: seq<Op>, i: nat, j: nat)
    requires Ascending(ops) && i < |ops| && j < |ops|
    ensures i < j ==> Less(ops[i].0, ops[j].0)
    ensures i < j ==> !Less(ops[j].0, ops[i].0)
  {
    if i < j {
      assert Before(ops, i, j);
      var n := SharedBits(ops[i].0, ops[j].0);
      SharedBitsIs(ops[j].0, ops[i].0, n);
    }
  }

  /** Keys below the sibling at `layer` share exactly `layer - 1` bits; none do off the branching
      points on that side. */
  lemma SiblingEmpty(ops: seq<Op>, i: nat, layer: nat)
    requires Ascending(ops) && i < |ops| && 0 < layer <= KEY_BITS
    requires i > 0 && ops[i].0[layer - 1] ==> SharedBits(ops[i - 1].0, ops[i].0) < layer - 1
    requires i + 1 < |ops| && !ops[i].0[layer - 1] ==> SharedBits(ops[i].0, ops[i + 1].0) < layer - 1
    ensures Empty(MapOf(ops), Sib(ops[i].0, layer))
  {
    var k := ops[i].0;
    forall k' | k' in MapOf(ops) ensures !Covers(Sib(k, layer), k') {
      var j := MapOfIndex(ops, k');
      NotBoth(ops, i, j);
      NotBoth(ops, j, i);
      FarShare(ops, i, j);
      if Covers(Sib(k, layer), k') { UnderSibling(k, k', layer); }
    }
  }

  /** Above a branching point two keys lie below. */
  lemma BranchInternal(ops: seq<Op>, i: nat, depth: nat)
    requires Ascending(ops) && 0 < i < |ops| && depth <= SharedBits(ops[i - 1].0, ops[i].0)
    ensures Sub(MapOf(ops), ops[i].0[..depth]).Internal?
  {
    var a, b := ops[i - 1].0, ops[i].0;
    var n := SharedBits(a, b);
    assert a[..depth] == a[..n][..depth] == b[..n][..depth] == b[..depth];
    assert Before(ops, i - 1, i);
    MapOfAt(ops, i - 1);
    MapOfAt(ops, i);
    SubInternal(MapOf(ops), b[..depth], a, b);
  }

  lemma SharedAfter(k: Key, k': Key, prefix: Path)
    requires Covers(prefix, k) && Covers(prefix, k')
    ensures SharedBits(k', k) == SharedBits(k, k') == |prefix| + SharedBits(k[|prefix|..], k'[|prefix|..])
  {
    var s := |prefix|;
    var n := SharedBits(k[s..], k'[s..]);
    assert k[..s + n] == k[..s] + k[s..][..n] && k'[..s + n] == k'[..s] + k'[s..][..n];
    SharedBitsIs(k, k', s + n);
    SharedBitsIs(k', k, s + n);
  }

  /** The depth of the internal node where `ops[i]` and `ops[i + 1]` part. */
  ghost function Fork(ops: seq<Op>, i: nat): nat
    requires i + 1 < |ops|
  {
    SharedBits(ops[i].0, ops[i + 1].0)
  }

  /** Where the leaf of `ops[i]` goes: below both of its forks. */
  ghost function LeafLayer(ops: seq<Op>, i: nat): nat
    requires i < |ops| && |ops| > 1
  {
    if i == 0 then Fork(ops, 0) + 1
    else if i + 1 == |ops| then Fork(ops, i - 1) + 1
    else Max(Fork(ops, i - 1), Fork(ops, i)) + 1
  }

  /** Between its left fork and its leaf, nothing hangs left of the path of `ops[i]`. */
  lemma LeafFrontier(ops: seq<Op>, i: nat, skip: nat)
    requires i < |ops| && |ops| > 1 && Ascending(ops) && skip < LeafLayer(ops, i) <= KEY_BITS
    requires i > 0 ==> skip <= Fork(ops, i - 1)
    ensures var lo := if i > 0 then Fork(ops, i - 1) + 1 else skip;
            var m, k, layer := MapOf(ops), ops[i].0, LeafLayer(ops, i);
            && Pending(m, k, skip, layer) == Pending(m, k, skip, lo)
            && Done(m, k, skip, layer) == Done(m, k, skip, lo)
  {
    var lo := if i > 0 then Fork(ops, i - 1) + 1 else skip;
    var m, k := MapOf(ops), ops[i].0;
    forall layer | lo < layer <= LeafLayer(ops, i) ensures k[layer - 1] ==> Empty(m, Sib(k, layer)) {
      if k[layer - 1] { SiblingEmpty(ops, i, layer); }
    }
    NothingBetween(m, k, skip, lo, LeafLayer(ops, i));
  }

  ghost predicate CanJoin(m: State, k: Key, layer: nat)
    requires 0 < layer <= KEY_BITS
  {
    Sub(m, k[..layer - 1]).Internal? && (!k[layer - 1] ==> Empty(m, Sib(k, layer)))
  }

  lemma CanClimb(ops: seq<Op>, i: nat, lo: nat)
    requires 0 < i < |ops| && Ascending(ops) && Fork(ops, i - 1) < KEY_BITS
    requires i + 1 < |ops| ==> lo == Fork(ops, i) + 1
    ensures forall layer | lo < layer <= Fork(ops, i - 1) + 1 :: CanJoin(MapOf(ops), ops[i].0, layer)
  {
    forall layer | lo < layer <= Fork(ops, i - 1) + 1 ensures CanJoin(MapOf(ops), ops[i].0, layer) {
      BranchInternal(ops, i, layer - 1);
      if !ops[i].0[layer - 1] { SiblingEmpty(ops, i, layer); }
    }
  }

  /** The state between two keys: the pass stands on the finished left sibling of the next key,
      just below the point where the two part. */
  ghost predicate AtFork(m: State, a: Key, b: Key, skip: nat, pending: seq<(Node, nat)>, trail: Trail) {
    var d := SharedBits(a, b);
    && skip <= d < KEY_BITS
    && pending == Pending(m, b, skip, d + 1)
    && trail == Trail(Done(m, b, skip, d + 1), a[..d + 1])
  }

  lemma LeafMove(a: Key, k: Key, d: nat, layer: nat, leaf: WriteNode)
    requires d < layer <= KEY_BITS && a[..d] == k[..d]
    requires leaf.WriteLeaf? && leaf.goUp && leaf.bits == k[d..layer]
    ensures leaf.Move(a[..d + 1]) == k[..layer]
  {
    assert a[..d + 1][..d] == a[..d];
  }

  lemma LeafAfterFork(m: State, a: Key, k: Key, skip: nat, layer: nat,
                      pending: seq<(Node, nat)>, trail: Trail, leaf: WriteNode)
    requires AtFork(m, a, k, skip, pending, trail) && SharedBits(a, k) < layer <= KEY_BITS
    requires leaf.WriteLeaf? && leaf.goUp && leaf.bits == k[SharedBits(a, k)..layer]
    requires Sub(m, k[..layer]) == leaf.Written()
    requires Pending(m, k, skip, layer) == Pending(m, k, skip, SharedBits(a, k) + 1)
    requires Done(m, k, skip, layer) == Done(m, k, skip, SharedBits(a, k) + 1)
    ensures Climbing(m, k, skip, layer, leaf.Written(), pending, Visit(trail, leaf))
  {
    LeafMove(a, k, SharedBits(a, k), layer, leaf);
  }

  lemma LeafFirst(m: State, k: Key, prefix: Path, layer: nat, leaf: WriteNode)
    requires Covers(prefix, k) && |prefix| < layer <= KEY_BITS
    requires leaf.WriteLeaf? && !leaf.goUp && leaf.bits == k[|prefix|..layer]
    requires Sub(m, k[..layer]) == leaf.Written()
    requires Pending(m, k, |prefix|, layer) == [] && Done(m, k, |prefix|, layer) == []
    ensures Climbing(m, k, |prefix|, layer, leaf.Written(), [], Visit(Trail([], prefix), leaf))
  {
    assert prefix == k[..|prefix|];
    assert leaf.Move(prefix) == k[..layer];
  }

  lemma HandOver(m: State, a: Key, b: Key, skip: nat, layer: nat, rel: nat,
                 cur: Node, pending: seq<(Node, nat)>, trail: Trail)
    requires Less(a, b) && a in m && skip < layer == SharedBits(a, b) + 1 <= KEY_BITS
    requires Climbing(m, a, skip, layer, cur, pending, trail)
    requires layer == skip + rel
    ensures AtFork(m, a, b, skip, pending + [(cur, rel)], trail)
  {
    assert Sib(b, layer) == a[..layer];
    assert Covers(a[..layer], a);
    SamePrefix(m, a, b, skip, layer - 1);
  }

  lemma LastRound(m: State, k: Key, prefix: Path, cur: Node, pending: seq<(Node, nat)>, trail: Trail)
    requires Covers(prefix, k) && Climbing(m, k, |prefix|, |prefix|, cur, pending, trail)
    ensures pending + [(cur, 0)] == [(Sub(m, prefix), 0)]
    ensures trail == Trail(PostOrder(m, prefix), prefix)
  {
    assert k[..|prefix|] == prefix;
    assert Done(m, k, |prefix|, |prefix|) + PostOrder(m, prefix) == PostOrder(m, prefix);
  }

  // ----- the pass

  /** What the visitor must have written when the pass over `ops` is over. */
  ghost function Visited(ops: seq<Op>, prefix: Path): Trail
    requires |prefix| <= KEY_BITS && Ascending(ops)
  {
    Trail(if ops == [] then [(prefix, Terminator)] else PostOrder(MapOf(ops), prefix), prefix)
  }

  /** The state before round `i`. */
  ghost predicate Between(ops: seq<Op>, i: nat, prefix: Path, pending: seq<(Node, nat)>, trail: Trail)
    requires |prefix| <= KEY_BITS && i <= |ops| && Ascending(ops)
  {
    if i == 0 then pending == [] && trail == Trail([], prefix)
    else if i == |ops| then pending == [(Sub(MapOf(ops), prefix), 0)] && trail == Visited(ops, prefix)
    else AtFork(MapOf(ops), ops[i - 1].0, ops[i].0, |prefix|, pending, trail)
  }

  lemma StartRound(ops: seq<Op>, i: nat, prefix: Path, layer: nat,
                   pending: seq<(Node, nat)>, trail: Trail, leaf: WriteNode)
    requires i < |ops| && |ops| > 1 && Ascending(ops) && Covers(prefix, ops[i].0)
    requires |prefix| < layer == LeafLayer(ops, i) <= KEY_BITS && Between(ops, i, prefix, pending, trail)
    requires leaf == WriteLeaf(i > 0, ops[i].0[if i > 0 then Fork(ops, i - 1) else |prefix|..layer],
                               LeafData(ops[i].0, ops[i].1))
    ensures Climbing(MapOf(ops), ops[i].0, |prefix|, layer, leaf.Written(), pending, Visit(trail, leaf))
  {
    var m, k := MapOf(ops), ops[i].0;
    LeafAlone(ops, i, layer);
    LeafFrontier(ops, i, |prefix|);
    if i > 0 {
      LeafAfterFork(m, ops[i - 1].0, k, |prefix|, layer, pending, trail, leaf);
    } else {
      LeafFirst(m, k, prefix, layer, leaf);
    }
  }

  lemma SingleVisit(prefix: Path, v: WriteNode)
    requires !v.Up() && v.Down() == []
    ensures Replay(prefix, [v]) == Trail([(prefix, v.Written())], prefix)
  {
    ReplaySnoc(prefix, [], v);
    assert [] + [v] == [v] && prefix + [] == prefix;
  }

  method BuildTrie(skip: nat, ops: seq<Op>, ghost prefix: Path) returns (root: Node, visits: seq<WriteNode>)
    requires skip == |prefix| <= KEY_BITS
    requires Ascending(ops) && forall op | op in ops :: Covers(prefix, op.0)
    ensures root == Sub(MapOf(ops), prefix)
    ensures Replay(prefix, visits) == Visited(ops, prefix)
    ensures visits != [] && !visits[0].Up()
  {
    if |ops| == 0 {
      SingleVisit(prefix, WriteTerminator);
      return Terminator, [WriteTerminator];
    }
    if |ops| == 1 {
      var leaf := WriteLeaf(false, [], LeafData(ops[0].0, ops[0].1));
      assert ops[0].0[..skip] == prefix;
      LeafAlone(ops, 0, skip);
      SingleVisit(prefix, leaf);
      return leaf.Written(), [leaf];
    }
    var pending: seq<(Node, nat)> := [];
    visits := [];
    for i := 0 to |ops|
      invariant Between(ops, i, prefix, pending, Replay(prefix, visits))
      invariant i > 0 <==> visits != []
      invariant i > 0 ==> !visits[0].Up()
    {
      pending, visits := BuildLeaf(skip, ops, i, prefix, pending, visits);
    }
    root := pending[|pending| - 1].0;
  }

  /** Where to put the leaf of `ops[i]` and how far to hash up from it, in layers below `skip`. */
  method LeafPosition(skip: nat, ops: seq<Op>, i: nat, ghost prefix: Path)
    returns (leafDepth: nat, hashUpLayers: nat, downStart: nat)
    requires skip == |prefix| <= KEY_BITS && i < |ops| && |ops| > 1
    requires Ascending(ops) && forall op | op in ops :: Covers(prefix, op.0)
    ensures skip < skip + leafDepth == LeafLayer(ops, i) <= KEY_BITS
    ensures downStart == if i > 0 then Fork(ops, i - 1) else skip
    ensures hashUpLayers <= leafDepth
    ensures i + 1 < |ops| ==> skip <= Fork(ops, i) < KEY_BITS
    ensures skip + leafDepth - hashUpLayers == if i + 1 < |ops| then Fork(ops, i) + 1 else skip
    ensures hashUpLayers > 0 ==> i > 0 && skip + leafDepth == Fork(ops, i - 1) + 1
  {
    var k := ops[i].0;
    if i > 0 { SharedAfter(ops[i - 1].0, k, prefix); assert Before(ops, i - 1, i); }
    if i + 1 < |ops| { SharedAfter(ops[i + 1].0, k, prefix); assert Before(ops, i, i + 1); }
    var n1 := if i > 0 then Some(SharedBits(ops[i - 1].0[skip..], k[skip..])) else None;
    var n2 := if i + 1 < |ops| then Some(SharedBits(ops[i + 1].0[skip..], k[skip..])) else None;
    match (n1, n2) {
      case (None, Some(n2)) => leafDepth, hashUpLayers := n2 + 1, 0;
      case (Some(n1), None) => leafDepth, hashUpLayers := n1 + 1, n1 + 1;
      case (Some(n1), Some(n2)) => leafDepth, hashUpLayers := Max(n1, n2) + 1, if n1 < n2 then 0 else n1 - n2;
    }
    downStart := skip + if n1.Some? then n1.value else 0;
  }

  /** One round of the pass: place the leaf of `ops[i]` and hash up to just below the point where
      the next key parts from it. */
  method BuildLeaf(skip: nat, ops: seq<Op>, i: nat, ghost prefix: Path,
                   pending0: seq<(Node, nat)>, visits0: seq<WriteNode>)
    returns (pending: seq<(Node, nat)>, visits: seq<WriteNode>)
    requires skip == |prefix| <= KEY_BITS && i < |ops| && |ops| > 1
    requires Ascending(ops) && forall op | op in ops :: Covers(prefix, op.0)
    requires Between(ops, i, prefix, pending0, Replay(prefix, visits0))
    ensures Between(ops, i + 1, prefix, pending, Replay(prefix, visits))
    ensures visits != []
    ensures if visits0 == [] then visits[0].Up() == (i > 0) else visits[0] == visits0[0]
  {
    hide Sub, Pending, Done, PostOrder, Less, SharedFrom, Climbing;
    ghost var m := MapOf(ops);
    var k := ops[i].0;
    var leafDepth, hashUpLayers, downStart := LeafPosition(skip, ops, i, prefix);
    var leaf := WriteLeaf(i > 0, k[downStart..skip + leafDepth], LeafData(k, ops[i].1));
    ReplaySnoc(prefix, visits0, leaf);
    StartRound(ops, i, prefix, LeafLayer(ops, i), pending0, Replay(prefix, visits0), leaf);
    ghost var endLayer := if i + 1 < |ops| then Fork(ops, i) + 1 else skip;
    if hashUpLayers > 0 { CanClimb(ops, i, endLayer); }
    var lastNode;
    var rest;
    lastNode, rest, visits :=
      HashUp(m, skip, k, leafDepth, hashUpLayers, leaf.Written(), pending0, visits0 + [leaf], prefix,
             LeafLayer(ops, i), endLayer);
    var layer := leafDepth - hashUpLayers;
    pending := rest + [(lastNode, layer)];
    if i + 1 < |ops| {
      assert Before(ops, i, i + 1);
      MapOfAt(ops, i);
      HandOver(m, k, ops[i + 1].0, skip, endLayer, layer, lastNode, rest, Replay(prefix, visits));
    } else {
      LastRound(m, k, prefix, lastNode, rest, Replay(prefix, visits));
    }
  }

  /** Hash up from depth `start` by `layers`, taking pending left siblings on the way. */
  method HashUp(ghost m: State, skip: nat, k: Key, start: nat, layers: nat, node: Node, pending0: seq<(Node, nat)>,
                visits0: seq<WriteNode>, ghost prefix: Path, ghost startLayer: nat, ghost endLayer: nat)
    returns (lastNode: Node, pending: seq<(Node, nat)>, visits: seq<WriteNode>)
    requires visits0 != [] && layers <= start && startLayer == skip + start <= KEY_BITS
             && endLayer == startLayer - layers
    requires Climbing(m, k, skip, startLayer, node, pending0, Replay(prefix, visits0))
    requires forall layer | endLayer < layer <= startLayer :: CanJoin(m, k, layer)
    ensures Climbing(m, k, skip, endLayer, lastNode, pending, Replay(prefix, visits))
    ensures visits != [] && visits[0] == visits0[0]
  {
    lastNode, pending, visits := node, pending0, visits0;
    var layer := start;
    for up := 0 to layers
      invariant layer == start - up && visits != [] && visits[0] == visits0[0]
      invariant Climbing(m, k, skip, skip + layer, lastNode, pending, Replay(prefix, visits))
    {
      assert CanJoin(m, k, skip + layer);
      ClimbStep(m, k, skip, skip + layer, lastNode, pending, Replay(prefix, visits));
      var (sibling, rest) := TakeSibling(pending, layer);
      var v := Join(k[skip + layer - 1], lastNode, sibling);
      ReplaySnoc(prefix, visits, v);
      visits, pending, lastNode, layer := visits + [v], rest, v.Written(), layer - 1;
    }
  }
}
