/** A flat view of paged node storage, and what it means for it to hold a canonical trie. Slots that
    are not reachable from the root may hold anything. */
module Memory {
  import opened Trie
  import opened Update

  /** What is stored at every position; the root node at the empty path. */
  type Mem = f: imap<Path, Node> | forall p: Path :: |p| <= KEY_BITS ==> p in f
    ghost witness imap p: Path | |p| <= KEY_BITS :: Terminator

  /** The nodes reachable from `x` are exactly the canonical sub-trie of `m` there. */
  ghost predicate Holds(mem: Mem, m: State, x: Path)
    requires |x| <= KEY_BITS
    decreases KEY_BITS - |x|
  {
    && mem[x] == Sub(m, x)
    && (Sub(m, x).Internal? && |x| < KEY_BITS ==> Holds(mem, m, x + [false]) && Holds(mem, m, x + [true]))
  }

  ghost predicate SameBelow(mem: Mem, mem': Mem, x: Path) {
    forall y: Path | Covers(x, y) && |y| <= KEY_BITS :: mem[y] == mem'[y]
  }

  ghost predicate SameOutside(mem: Mem, mem': Mem, x: Path) {
    forall y: Path | !Covers(x, y) && |y| <= KEY_BITS :: mem[y] == mem'[y]
  }

  lemma CoversExtend(x: Path, bit: bool, y: Path)
    requires Covers(x + [bit], y)
    ensures Covers(x, y)
  {
    assert y[..|x|] == (x + [bit])[..|x|] == x;
  }

  lemma {:induction false} HoldsFrame(mem: Mem, mem': Mem, m: State, m': State, x: Path)
    requires |x| <= KEY_BITS && Holds(mem, m, x) && SameBelow(mem, mem', x) && AgreeUnder(m, m', x)
    ensures Holds(mem', m', x)
    decreases KEY_BITS - |x|
  {
    hide Sub;
    SubFrame(m, m', x);
    assert Covers(x, x);
    if Sub(m, x).Internal? && |x| < KEY_BITS {
      forall bit: bool ensures Holds(mem', m', x + [bit]) {
        BelowChild(mem, mem', m, m', x, bit);
        HoldsFrame(mem, mem', m, m', x + [bit]);
      }
    }
  }

  lemma BelowChild(mem: Mem, mem': Mem, m: State, m': State, x: Path, bit: bool)
    requires |x| < KEY_BITS && SameBelow(mem, mem', x) && AgreeUnder(m, m', x)
    ensures SameBelow(mem, mem', x + [bit]) && AgreeUnder(m, m', x + [bit])
  {
    forall y: Path | Covers(x + [bit], y) && |y| <= KEY_BITS ensures mem[y] == mem'[y] { CoversExtend(x, bit, y); }
    forall k: Key | Covers(x + [bit], k)
      ensures (k in m <==> k in m') && (k in m ==> m[k] == m'[k])
    {
      CoversExtend(x, bit, k);
    }
  }

  /** Every strict ancestor of `x`, from depth `d` on, is internal. */
  ghost predicate Reachable(m: State, x: Path, d: nat)
    requires |x| <= KEY_BITS
  {
    forall i | d <= i < |x| :: Sub(m, x[..i]).Internal?
  }

  lemma {:induction false} HoldsBelow(mem: Mem, m: State, x: Path, d: nat)
    requires d <= |x| <= KEY_BITS && Holds(mem, m, x[..d]) && Reachable(m, x, d)
    ensures Holds(mem, m, x)
    decreases |x| - d
  {
    hide Sub;
    if d == |x| {
      assert x[..d] == x;
    } else {
      assert Sub(m, x[..d]).Internal?;
      assert x[..d + 1] == if x[d] then x[..d] + [true] else x[..d] + [false];
      HoldsBelow(mem, m, x, d + 1);
    }
  }

  /** The sibling of a reachable position is reachable too. */
  lemma HoldsSibling(mem: Mem, m: State, x: Path, layer: nat)
    requires 0 < layer <= |x| <= KEY_BITS && Holds(mem, m, []) && Reachable(m, x, 0)
    ensures Holds(mem, m, Sib(x, layer))
  {
    hide Sub, Holds;
    var s := Sib(x, layer);
    forall i | 0 <= i < |s| ensures Sub(m, s[..i]).Internal? { assert s[..i] == x[..i]; }
    assert s[..0] == [];
    HoldsBelow(mem, m, s, 0);
  }

  // ----- memory filled by the visitor of a build

  /** All written nodes are in place, and so are the terminators their internal nodes imply. */
  ghost predicate InPlace(mem: Mem, written: seq<(Path, Node)>) {
    forall i | 0 <= i < |written| :: EntryInPlace(mem, written[i])
  }

  ghost predicate EntryInPlace(mem: Mem, e: (Path, Node)) {
    && |e.0| <= KEY_BITS && mem[e.0] == e.1
    && (e.1.Internal? ==>
          && |e.0| < KEY_BITS
          && (e.1.left.Terminator? ==> mem[e.0 + [false]] == Terminator)
          && (e.1.right.Terminator? ==> mem[e.0 + [true]] == Terminator))
  }

  lemma InPlaceParts(mem: Mem, a: seq<(Path, Node)>, b: seq<(Path, Node)>)
    requires InPlace(mem, a + b)
    ensures InPlace(mem, a) && InPlace(mem, b)
  {
    assert forall i | 0 <= i < |a| :: a[i] == (a + b)[i];
    assert forall i | 0 <= i < |b| :: b[i] == (a + b)[|a| + i];
  }

  /** A memory with the whole post-order in place holds the trie. */
  lemma {:induction false} HoldsFromPostOrder(mem: Mem, m: State, x: Path)
    requires |x| <= KEY_BITS && InPlace(mem, PostOrder(m, x))
    requires Sub(m, x).Terminator? ==> mem[x] == Terminator
    ensures Holds(mem, m, x)
    decreases KEY_BITS - |x|
  {
    SubKind(m, x);
    hide Sub;
    if Sub(m, x).Internal? {
      var l, r := PostOrder(m, x + [false]), PostOrder(m, x + [true]);
      InPlaceParts(mem, l + r, [(x, Sub(m, x))]);
      InPlaceParts(mem, l, r);
      assert EntryInPlace(mem, [(x, Sub(m, x))][0]);
      HoldsFromPostOrder(mem, m, x + [false]);
      HoldsFromPostOrder(mem, m, x + [true]);
    } else if Sub(m, x).Leaf? {
      assert EntryInPlace(mem, PostOrder(m, x)[0]);
    }
  }

  // ----- the order of a post-order walk

  /** `a` lies left of `b`: the two part, and `a` goes left. */
  ghost predicate LeftOf(a: Path, b: Path) {
    var s := SharedBits(a, b);
    s < |a| && s < |b| && Less(a, b)
  }

  /** `a` is visited before `b`: it lies left of it, or properly below it. */
  ghost predicate Earlier(a: Path, b: Path) {
    LeftOf(a, b) || (Covers(b, a) && a != b)
  }

  ghost predicate EarlierAt(w: seq<(Path, Node)>, i: nat, j: nat)
    requires i < |w| && j < |w|
  {
    Earlier(w[i].0, w[j].0)
  }

  ghost predicate InWalkOrder(w: seq<(Path, Node)>) {
    forall i, j | 0 <= i < j < |w| :: EarlierAt(w, i, j)
  }

  /** Each entry is the true, non-empty node at a position reachable from `x`. */
  ghost predicate TrueEntry(m: State, x: Path, e: (Path, Node)) {
    && Covers(x, e.0) && |e.0| <= KEY_BITS && e.1 == Sub(m, e.0) && !e.1.Terminator?
    && Reachable(m, e.0, |x|)
  }

  ghost predicate TrueEntries(m: State, x: Path, w: seq<(Path, Node)>) {
    forall i | 0 <= i < |w| :: TrueEntry(m, x, w[i])
  }

  lemma LeftOfSides(x: Path, a: Path, b: Path)
    requires Covers(x + [false], a) && Covers(x + [true], b)
    ensures LeftOf(a, b)
  {
    assert a[..|x|] == (x + [false])[..|x|] == x && b[..|x|] == (x + [true])[..|x|] == x;
    SharedBitsIs(a, b, |x|);
  }

  lemma {:induction false} PostOrderWalk(m: State, x: Path)
    requires |x| <= KEY_BITS
    ensures InWalkOrder(PostOrder(m, x)) && TrueEntries(m, x, PostOrder(m, x))
    decreases KEY_BITS - |x|
  {
    SubKind(m, x);
    hide Sub, LeftOf;
    if Sub(m, x).Internal? {
      PostOrderWalk(m, x + [false]);
      PostOrderWalk(m, x + [true]);
      WalkJoin(m, x, PostOrder(m, x + [false]), PostOrder(m, x + [true]));
    } else if Sub(m, x).Leaf? {
      assert TrueEntry(m, x, (x, Sub(m, x)));
    }
  }

  lemma LiftEntry(m: State, x: Path, bit: bool, e: (Path, Node))
    requires |x| < KEY_BITS && Sub(m, x).Internal? && TrueEntry(m, x + [bit], e)
    ensures TrueEntry(m, x, e) && |e.0| > |x|
  {
    hide Sub;
    CoversExtend(x, bit, e.0);
    assert e.0[..|x|] == x;
  }

  lemma WalkJoin(m: State, x: Path, l: seq<(Path, Node)>, r: seq<(Path, Node)>)
    requires |x| < KEY_BITS && Sub(m, x).Internal?
    requires InWalkOrder(l) && TrueEntries(m, x + [false], l)
    requires InWalkOrder(r) && TrueEntries(m, x + [true], r)
    ensures InWalkOrder(l + r + [(x, Sub(m, x))]) && TrueEntries(m, x, l + r + [(x, Sub(m, x))])
  {
    hide Sub, LeftOf;
    var w := l + r + [(x, Sub(m, x))];
    forall i | 0 <= i < |w| ensures TrueEntry(m, x, w[i]) && (i < |w| - 1 ==> |w[i].0| > |x|) {
      if i < |l| {
        assert TrueEntry(m, x + [false], l[i]);
        LiftEntry(m, x, false, l[i]);
      } else if i < |l| + |r| {
        assert TrueEntry(m, x + [true], r[i - |l|]);
        LiftEntry(m, x, true, r[i - |l|]);
      }
    }
    forall i, j | 0 <= i < j < |w| ensures EarlierAt(w, i, j) {
      if j < |l| {
        assert EarlierAt(l, i, j);
      } else if j == |w| - 1 {
        assert TrueEntry(m, x, w[i]);
      } else if |l| <= i {
        assert EarlierAt(r, i - |l|, j - |l|);
      } else {
        assert TrueEntry(m, x + [false], l[i]) && TrueEntry(m, x + [true], r[j - |l|]);
        LeftOfSides(x, w[i].0, w[j].0);
      }
    }
  }

  // ----- one visitor command

  ghost predicate ProperlyBelow(x: Path, y: Path) { Covers(x, y) && |y| > |x| }

  /** What a command that places a leaf may touch: its own slot and slots below `anchor`. */
  ghost predicate TouchedBy(mem: Mem, mem': Mem, at: Path, anchor: Path) {
    forall y: Path | |y| <= KEY_BITS && y != at && !ProperlyBelow(anchor, y) :: mem'[y] == mem[y]
  }

  lemma SnocInPlace(mem: Mem, w: seq<(Path, Node)>, j: nat)
    requires j < |w| && InPlace(mem, w[..j]) && EntryInPlace(mem, w[j])
    ensures InPlace(mem, w[..j + 1])
  {
    var done := w[..j + 1];
    forall i | 0 <= i < |done| ensures EntryInPlace(mem, done[i]) {
      if i < j { assert EntryInPlace(mem, w[..j][i]); }
    }
  }

  /** An entry whose slots were not touched stays in place. */
  lemma EntryKept(mem: Mem, mem': Mem, e: (Path, Node))
    requires EntryInPlace(mem, e) && mem'[e.0] == mem[e.0]
    requires e.1.Internal? && e.1.left.Terminator? ==> mem'[e.0 + [false]] == Terminator
    requires e.1.Internal? && e.1.right.Terminator? ==> mem'[e.0 + [true]] == Terminator
    ensures EntryInPlace(mem', e)
  {
  }

  lemma FirstLeafStep(mem': Mem, w: seq<(Path, Node)>)
    requires w != [] && |w[0].0| <= KEY_BITS && w[0].1.Leaf? && mem'[w[0].0] == w[0].1
    ensures InPlace(mem', w[..1])
  {
    assert InPlace(mem', w[..0]);
    SnocInPlace(mem', w, 0);
  }

  /** In walk order a leaf follows a finished left child: it lies below that child's sibling, and
      nothing written before does. */
  lemma LeafFollows(m: State, x: Path, w: seq<(Path, Node)>, j: nat)
    requires InWalkOrder(w) && TrueEntries(m, x, w) && 0 < j < |w| && w[j].1.Leaf?
    ensures LeftOf(w[j - 1].0, w[j].0)
    ensures forall i | 0 <= i < j :: LeftOf(w[i].0, w[j].0)
  {
    hide Sub, LeftOf;
    forall i | 0 <= i < j ensures LeftOf(w[i].0, w[j].0) {
      assert EarlierAt(w, i, j);
      assert TrueEntry(m, x, w[i]) && TrueEntry(m, x, w[j]);
      if Covers(w[j].0, w[i].0) && w[i].0 != w[j].0 { NothingBelowLeaf(m, x, w[j], w[i].0); }
    }
  }

  lemma NothingBelowLeaf(m: State, x: Path, leaf: (Path, Node), y: Path)
    requires TrueEntry(m, x, leaf) && leaf.1.Leaf? && |y| <= KEY_BITS && Covers(leaf.0, y) && leaf.0 != y
    ensures !Reachable(m, y, |x|)
  {
    hide Sub;
    assert y[..|leaf.0|] == leaf.0;
  }

  lemma UnderOther(at: Path, e: Path)
    requires at != [] && Covers(Sib(at, |at|), e)
    ensures SharedBits(e, at) == SharedBits(at, e) == |at| - 1 && |e| >= |at| && e[|at| - 1] == !at[|at| - 1]
  {
    var s := Sib(at, |at|);
    assert e[..|at| - 1] == s[..|at| - 1] == at[..|at| - 1];
    assert e[|at| - 1] == s[|at| - 1];
    SharedBitsIs(e, at, |at| - 1);
    SharedBitsIs(at, e, |at| - 1);
  }

  lemma NotUnderSibling(e: Path, at: Path, leaf: Path)
    requires Earlier(e, at) || e == at
    requires at != [] && LeftOf(at, leaf) && Covers(Sib(at, |at|), leaf)
    ensures !Covers(Sib(at, |at|), e)
  {
    UnderOther(at, leaf);
    if Covers(Sib(at, |at|), e) { UnderOther(at, e); }
  }

  /** Placing the leaf after a finished left child keeps all earlier entries. */
  lemma LeafStep(mem: Mem, mem': Mem, m: State, x: Path, w: seq<(Path, Node)>, j: nat)
    requires InWalkOrder(w) && TrueEntries(m, x, w) && 0 < j < |w| && w[j].1.Leaf?
    requires w[j - 1].0 != [] && Covers(Sib(w[j - 1].0, |w[j - 1].0|), w[j].0)
    requires InPlace(mem, w[..j]) && mem'[w[j].0] == w[j].1
    requires TouchedBy(mem, mem', w[j].0, Sib(w[j - 1].0, |w[j - 1].0|))
    ensures InPlace(mem', w[..j + 1])
  {
    hide Sub, LeftOf, InWalkOrder;
    var at, leaf := w[j - 1].0, w[j].0;
    var anchor := Sib(at, |at|);
    LeafFollows(m, x, w, j);
    assert TrueEntry(m, x, w[j]);
    forall i | 0 <= i < j ensures EntryInPlace(mem', w[..j][i]) {
      assert EntryInPlace(mem, w[..j][i]) && TrueEntry(m, x, w[i]);
      LeafStepEntry(mem, mem', m, x, w, j, i);
    }
    SnocInPlace(mem', w, j);
  }

  lemma LeafStepEntry(mem: Mem, mem': Mem, m: State, x: Path, w: seq<(Path, Node)>, j: nat, i: nat)
    requires InWalkOrder(w) && TrueEntries(m, x, w) && 0 <= i < j < |w| && w[j].1.Leaf?
    requires w[j - 1].0 != [] && Covers(Sib(w[j - 1].0, |w[j - 1].0|), w[j].0)
    requires LeftOf(w[i].0, w[j].0) && LeftOf(w[j - 1].0, w[j].0) && EntryInPlace(mem, w[i])
    requires TouchedBy(mem, mem', w[j].0, Sib(w[j - 1].0, |w[j - 1].0|))
    ensures EntryInPlace(mem', w[i])
  {
    hide Sub, LeftOf, ProperlyBelow, Reachable;
    var e, at, leaf := w[i], w[j - 1].0, w[j].0;
    var anchor := Sib(at, |at|);
    assert TrueEntry(m, x, w[i]) && TrueEntry(m, x, w[j]);
    if i < j - 1 { assert EarlierAt(w, i, j - 1); }
    NotUnderSibling(e.0, at, leaf);
    EarlierIsOther(e.0, leaf);
    SubKind(m, e.0);
    NotBelow(anchor, e.0);
    EntryKept(mem, mem', e);
  }

  lemma EarlierIsOther(a: Path, b: Path)
    requires Earlier(a, b)
    ensures a != b
  {
  }

  lemma NotBelow(anchor: Path, e: Path)
    requires !Covers(anchor, e)
    ensures !ProperlyBelow(anchor, e) && !ProperlyBelow(anchor, e + [false]) && !ProperlyBelow(anchor, e + [true])
  {
    assert forall bit: bool :: |anchor| <= |e| ==> (e + [bit])[..|anchor|] == e[..|anchor|];
  }

  /** Hashing a node up over its sibling, emptying that sibling where the node says so, keeps all
      earlier entries. */
  lemma InternalStep(mem: Mem, mem': Mem, m: State, x: Path, w: seq<(Path, Node)>, j: nat, v: WriteNode)
    requires InWalkOrder(w) && TrueEntries(m, x, w) && 0 < j < |w| && w[j].1.Internal?
    requires w[j - 1].0 != [] && w[j].0 == w[j - 1].0[..|w[j - 1].0| - 1]
    requires v.WriteInternal? && v.Written() == w[j].1
    requires InPlace(mem, w[..j]) && mem'[w[j].0] == w[j].1
    requires OnlyEmpties(mem, mem', w[j].0, Sib(w[j - 1].0, |w[j - 1].0|), v.Zeroes(w[j - 1].0))
    ensures InPlace(mem', w[..j + 1])
  {
    hide OnlyEmpties, Earlier, InWalkOrder, SharedFrom;
    var at, here := w[j - 1].0, w[j].0;
    assert TrueEntry(m, x, w[j]) && TrueEntry(m, x, w[j - 1]);
    SubKind(m, here);
    LastTurn(at);
    InternalHere(mem, mem', here, at[|at| - 1], w[j].1, v.Zeroes(at));
    hide Sub;
    forall i | 0 <= i < j ensures EntryInPlace(mem', w[..j][i]) {
      assert EntryInPlace(mem, w[..j][i]) && TrueEntry(m, x, w[i]);
      WalkEarlier(w, i, j);
      InternalStepEntry(mem, mem', m, w[i], here, Sib(at, |at|), v.Zeroes(at));
    }
    SnocInPlace(mem', w, j);
  }

  lemma WalkEarlier(w: seq<(Path, Node)>, i: nat, j: nat)
    requires InWalkOrder(w) && i < j < |w|
    ensures Earlier(w[i].0, w[j].0)
  {
    assert EarlierAt(w, i, j);
  }

  /** Besides the slot at `here`, only the sibling may change, and only to become empty. */
  ghost predicate OnlyEmpties(mem: Mem, mem': Mem, here: Path, sib: Path, zero: bool) {
    forall y: Path | |y| <= KEY_BITS && y != here :: mem'[y] == if zero && y == sib then Terminator else mem[y]
  }

  lemma LastTurn(at: Path)
    requires at != []
    ensures at == at[..|at| - 1] + [at[|at| - 1]] && Sib(at, |at|) == at[..|at| - 1] + [!at[|at| - 1]]
  {
  }

  lemma InternalHere(mem: Mem, mem': Mem, here: Path, side: bool, node: Node, zero: bool)
    requires |here| < KEY_BITS && node.Internal? && mem'[here] == node
    requires if side then !node.right.Terminator? else !node.left.Terminator?
    requires zero <==> if side then node.left.Terminator? else node.right.Terminator?
    requires OnlyEmpties(mem, mem', here, here + [!side], zero)
    ensures EntryInPlace(mem', (here, node))
  {
  }

  lemma InternalStepEntry(mem: Mem, mem': Mem, m: State, e: (Path, Node), here: Path, sib: Path, zero: bool)
    requires |e.0| <= KEY_BITS && EntryInPlace(mem, e) && e.1 == Sub(m, e.0) && !e.1.Terminator? && Earlier(e.0, here)
    requires |here| < KEY_BITS && |sib| <= KEY_BITS && Sub(m, here).Internal? && (zero ==> Sub(m, sib) == Terminator)
    requires OnlyEmpties(mem, mem', here, sib, zero)
    ensures EntryInPlace(mem', e)
  {
    SubKind(m, e.0);
    hide Sub;
    EarlierIsOther(e.0, here);
    EntryKept(mem, mem', e);
  }

  // ----- the commands of a build, in memory

  /** Where the visitor stands before command `j`. */
  ghost function StandsAt(x: Path, w: seq<(Path, Node)>, j: nat): Path
    requires j <= |w|
  {
    if j == 0 then x else w[j - 1].0
  }

  ghost predicate Writes(x: Path, w: seq<(Path, Node)>, visits: seq<WriteNode>, j: nat)
    requires j < |w| == |visits|
  {
    w[j] == (visits[j].Move(StandsAt(x, w, j)), visits[j].Written())
  }

  lemma {:induction false} ReplayWrites(x: Path, visits: seq<WriteNode>)
    ensures var t := Replay(x, visits);
            && |t.written| == |visits| && t.at == StandsAt(x, t.written, |visits|)
            && forall j | 0 <= j < |visits| :: Writes(x, t.written, visits, j)
  {
    if visits != [] {
      var init := visits[..|visits| - 1];
      ReplayWrites(x, init);
      var w, w' := Replay(x, visits).written, Replay(x, init).written;
      forall j | 0 <= j < |visits| ensures Writes(x, w, visits, j) {
        if j < |init| { assert Writes(x, w', init, j); }
      }
    }
  }

  /** Every command after the first goes up from a node properly below the start, and a leaf then
      comes down on the other side. */
  lemma CommandShape(m: State, x: Path, w: seq<(Path, Node)>, visits: seq<WriteNode>, j: nat)
    requires |x| <= KEY_BITS && j < |w| == |visits| && InWalkOrder(w) && TrueEntries(m, x, w)
    requires Writes(x, w, visits, j) && !visits[0].Up()
    ensures var at, v := StandsAt(x, w, j), visits[j];
            && Covers(x, at) && |v.Move(at)| <= KEY_BITS && !v.WriteTerminator?
            && (v.Up() <==> j > 0) && (j > 0 ==> |at| > |x|)
            && (j > 0 && v.WriteLeaf? ==>
                  v.Down() != [] && v.Down()[0] == !at[|at| - 1] && Covers(Sib(at, |at|), v.Move(at)))
  {
    hide Sub, Reachable, LeftOf;
    var at, v := StandsAt(x, w, j), visits[j];
    assert TrueEntry(m, x, w[j]);
    if j > 0 {
      assert TrueEntry(m, x, w[j - 1]) && EarlierAt(w, j - 1, j);
      NextIsNotBelow(at, w[j].0);
      if v.WriteLeaf? {
        LeafFollows(m, x, w, j);
        LeafComesDown(v, at);
      }
    }
  }

  lemma NextIsNotBelow(a: Path, b: Path)
    requires Earlier(a, b)
    ensures !Covers(a, b)
  {
  }

  lemma LeafComesDown(v: WriteNode, at: Path)
    requires v.WriteLeaf? && v.Up() && at != [] && LeftOf(at, v.Move(at))
    ensures v.Down() != [] && v.Down()[0] == !at[|at| - 1] && Covers(Sib(at, |at|), v.Move(at))
  {
    var n := |at| - 1;
    assert v.Move(at)[..n] == at[..n];
    SharedBitsIs(at, v.Move(at), n);
    assert v.Down() != [] ==> v.Move(at)[n] == v.Down()[0];
    assert v.Down() != [] ==> v.Move(at)[..n + 1] == at[..n] + [v.Down()[0]];
  }

  /** What one command leaves in memory. */
  ghost predicate Obeyed(mem: Mem, mem': Mem, v: WriteNode, at: Path, anchor: Path)
    requires |v.Move(at)| <= KEY_BITS
  {
    && mem'[v.Move(at)] == v.Written()
    && (!v.WriteInternal? ==> TouchedBy(mem, mem', v.Move(at), anchor))
    && (v.WriteInternal? && at != [] ==> OnlyEmpties(mem, mem', v.Move(at), Sib(at, |at|), v.Zeroes(at)))
  }

  /** Obeying the next command of a build keeps everything written so far in place. */
  lemma CommandInPlace(mem: Mem, mem': Mem, m: State, x: Path, w: seq<(Path, Node)>, visits: seq<WriteNode>, j: nat,
                       anchor: Path)
    requires |x| <= KEY_BITS && j < |w| == |visits| && InWalkOrder(w) && TrueEntries(m, x, w)
    requires Writes(x, w, visits, j) && !visits[0].Up() && |w[j].0| <= KEY_BITS
    requires InPlace(mem, w[..j]) && Obeyed(mem, mem', visits[j], StandsAt(x, w, j), anchor)
    requires j > 0 && visits[j].WriteLeaf? && w[j - 1].0 != [] ==> anchor == Sib(w[j - 1].0, |w[j - 1].0|)
    ensures InPlace(mem', w[..j + 1])
  {
    hide Sub, LeftOf, Earlier, Reachable, InPlace, InWalkOrder;
    CommandShape(m, x, w, visits, j);
    var v := visits[j];
    if j == 0 {
      FirstLeafStep(mem', w);
    } else if v.WriteLeaf? {
      LeafStep(mem, mem', m, x, w, j);
    } else {
      InternalStep(mem, mem', m, x, w, j, v);
    }
  }

  lemma NotBelowInside(x: Path, anchor: Path, y: Path)
    requires Covers(x, anchor)
    ensures ProperlyBelow(anchor, y) ==> Covers(x, y)
  {
    assert ProperlyBelow(anchor, y) ==> y[..|x|] == anchor[..|x|];
  }

  /** One command stays below the start. */
  lemma CommandInside(mem: Mem, mem': Mem, x: Path, v: WriteNode, at: Path, anchor: Path)
    requires |v.Move(at)| <= KEY_BITS && Obeyed(mem, mem', v, at, anchor)
    requires Covers(x, v.Move(at)) && Covers(x, anchor) && (v.WriteInternal? ==> Covers(x, at) && |at| > |x|)
    ensures SameOutside(mem, mem', x)
  {
    forall y: Path | !Covers(x, y) && |y| <= KEY_BITS ensures mem[y] == mem'[y] {
      NotBelowInside(x, anchor, y);
      if v.WriteInternal? { assert Sib(at, |at|)[..|x|] == at[..|x|] == x; }
    }
  }

  lemma OutsideTransitive(a: Mem, b: Mem, c: Mem, x: Path)
    requires SameOutside(a, b, x) && SameOutside(b, c, x)
    ensures SameOutside(a, c, x)
  {
  }

  /** The first `j` commands of the build of `ops` below `x` are obeyed. */
  ghost predicate BuiltTo(mem: Mem, ops: seq<Op>, x: Path, w: seq<(Path, Node)>, j: nat)
    requires |x| <= KEY_BITS && j <= |w|
  {
    if ops == [] then j > 0 ==> mem[x] == Terminator else InPlace(mem, w[..j])
  }

  /** The commands that build `ops` below `x`, with what they write. */
  ghost predicate Builds(ops: seq<Op>, x: Path, w: seq<(Path, Node)>, visits: seq<WriteNode>) {
    && |x| <= KEY_BITS && |w| == |visits| > 0 && !visits[0].Up()
    && (forall j | 0 <= j < |w| :: Writes(x, w, visits, j))
    && w[|w| - 1].0 == x
    && if ops == [] then w == [(x, Terminator)] else w == PostOrder(MapOf(ops), x)
  }

  ghost predicate CanObey(x: Path, at: Path, v: WriteNode) {
    && Covers(x, at) && |v.Move(at)| <= KEY_BITS && Covers(x, v.Move(at))
    && (v.Up() ==> |at| > |x|) && (!v.Up() ==> at == x)
    && (v.Up() && v.WriteLeaf? ==> v.Down() != [] && v.Down()[0] == !at[|at| - 1])
  }

  lemma BuildCommand(ops: seq<Op>, x: Path, w: seq<(Path, Node)>, visits: seq<WriteNode>, j: nat)
    requires Builds(ops, x, w, visits) && j < |w|
    ensures CanObey(x, StandsAt(x, w, j), visits[j])
    ensures visits[j].Move(StandsAt(x, w, j)) == StandsAt(x, w, j + 1) && (visits[j].Up() <==> j > 0)
    ensures StandsAt(x, w, j + 1) == x <==> j + 1 == |w|
    ensures visits[j].WriteTerminator? ==> ops == []
    ensures visits[j].WriteInternal? ==> ops != [] && Sub(MapOf(ops), StandsAt(x, w, j + 1)).Internal?
  {
    hide PostOrder, MapOf, Sub, LeftOf, Earlier, InWalkOrder;
    assert Writes(x, w, visits, j);
    if ops != [] {
      PostOrderWalk(MapOf(ops), x);
      CommandShape(MapOf(ops), x, w, visits, j);
      assert TrueEntry(MapOf(ops), x, w[j]);
      if j + 1 < |w| {
        WalkEarlier(w, j, |w| - 1);
        EarlierIsOther(w[j].0, x);
      }
    }
  }

  lemma BuildStep(mem: Mem, mem': Mem, ops: seq<Op>, x: Path, w: seq<(Path, Node)>, visits: seq<WriteNode>, j: nat,
                  anchor: Path)
    requires Builds(ops, x, w, visits) && j < |w| && CanObey(x, StandsAt(x, w, j), visits[j])
    requires BuiltTo(mem, ops, x, w, j) && Obeyed(mem, mem', visits[j], StandsAt(x, w, j), anchor)
    requires Covers(x, anchor)
    requires j > 0 && visits[j].WriteLeaf? && w[j - 1].0 != [] ==> anchor == Sib(w[j - 1].0, |w[j - 1].0|)
    ensures BuiltTo(mem', ops, x, w, j + 1) && SameOutside(mem, mem', x)
  {
    hide PostOrder, MapOf, Sub, LeftOf, Earlier, Obeyed, InPlace, InWalkOrder, TrueEntries, SameOutside;
    assert Writes(x, w, visits, j);
    CommandInside(mem, mem', x, visits[j], StandsAt(x, w, j), anchor);
    if ops != [] {
      PostOrderWalk(MapOf(ops), x);
      CommandInPlace(mem, mem', MapOf(ops), x, w, visits, j, anchor);
    } else {
      ObeyedHere(mem, mem', visits[j], StandsAt(x, w, j), anchor);
    }
  }

  lemma ObeyedHere(mem: Mem, mem': Mem, v: WriteNode, at: Path, anchor: Path)
    requires |v.Move(at)| <= KEY_BITS && Obeyed(mem, mem', v, at, anchor)
    ensures mem'[v.Move(at)] == v.Written()
  {
  }

  /** The whole build is in memory once all its commands are obeyed. */
  lemma BuildInPlace(mem: Mem, ops: seq<Op>, x: Path, w: seq<(Path, Node)>, visits: seq<WriteNode>)
    requires Ascending(ops) && (forall op | op in ops :: Covers(x, op.0)) && Builds(ops, x, w, visits)
    requires BuiltTo(mem, ops, x, w, |w|)
    ensures Holds(mem, MapOf(ops), x)
  {
    var m := MapOf(ops);
    SubKind(m, x);
    if ops != [] {
      MapOfAt(ops, 0);
      assert w[..|w|] == w;
      HoldsFromPostOrder(mem, m, x);
    }
  }

  lemma BuildsFromReplay(ops: seq<Op>, x: Path, visits: seq<WriteNode>)
    requires |x| <= KEY_BITS && Ascending(ops)
    requires Replay(x, visits) == Visited(ops, x) && visits != [] && !visits[0].Up()
    ensures Builds(ops, x, Replay(x, visits).written, visits)
  {
    ReplayWrites(x, visits);
  }

  // ----- where a command may write

  lemma AllBelowLonger(x: Path, bits: Path)
    ensures forall y: Path :: ProperlyBelow(x + bits, y) ==> ProperlyBelow(x, y)
  {
    forall y: Path | ProperlyBelow(x + bits, y) ensures ProperlyBelow(x, y) {
      assert y[..|x|] == (x + bits)[..|x|] == x;
    }
  }

  /** The position below which a command that places a leaf may enter fresh pages. */
  ghost function Anchor(v: WriteNode, at: Path): Path {
    if v.Up() && v.Down() != [] && at != [] then Sib(at, |at|) else at
  }

  lemma LeafMoves(v: WriteNode, at: Path)
    requires !v.WriteInternal? && (v.Up() ==> at != [] && v.Down() != [] && v.Down()[0] == !at[|at| - 1])
    ensures v.Move(at) == if v.Up() then Anchor(v, at) + v.Down()[1..] else Anchor(v, at) + v.Down()
  {
    if v.Up() { assert v.Down() == [v.Down()[0]] + v.Down()[1..]; }
  }

  /** The territory a command may write in lies below the start of its build. */
  lemma AnchorInside(x: Path, at: Path, v: WriteNode)
    requires CanObey(x, at, v)
    ensures Covers(x, Anchor(v, at))
  {
    if v.Up() && v.Down() != [] && at != [] { assert Sib(at, |at|)[..|x|] == at[..|x|] == x; }
  }

  /** Moving, emptying the sibling where told to, and writing obeys a command. */
  lemma ObeyedBy(mem: Mem, mid: Mem, v: WriteNode, at: Path)
    requires |v.Move(at)| <= KEY_BITS && |at| <= KEY_BITS && (v.WriteInternal? ==> at != [])
    requires !v.WriteInternal? ==>
               forall y: Path | |y| <= KEY_BITS && !ProperlyBelow(Anchor(v, at), y) :: mid[y] == mem[y]
    requires v.WriteInternal? ==>
               mid == if v.Zeroes(at) then mem[Sib(at, |at|) := Terminator] else mem
    ensures Obeyed(mem, mid[v.Move(at) := v.Written()], v, at, Anchor(v, at))
  {
    hide ProperlyBelow, Anchor;
  }
}
