/** The state of a left-to-right walk over a trie in memory: left of the position all is finished,
    right of it nothing is touched. */
module WalkState {
  import opened Trie
  import opened Memory

  // ----- left and right

  lemma LeftCovered(a: Path, b: Path, a': Path, b': Path)
    requires LeftOf(a, b) && Covers(a, a') && Covers(b, b')
    ensures LeftOf(a', b')
  {
    var n := SharedBits(a, b);
    assert a'[..n] == a[..n] == b[..n] == b'[..n] && a'[n] == a[n] && b'[n] == b[n];
    SharedBitsIs(a', b', n);
  }

  lemma LeftTransitive(a: Path, b: Path, c: Path)
    requires LeftOf(a, b) && LeftOf(b, c)
    ensures LeftOf(a, c)
  {
    SharedBitsBetween(a, b, c);
  }

  lemma LeftApart(a: Path, b: Path)
    requires LeftOf(a, b)
    ensures !Covers(a, b) && !Covers(b, a) && !LeftOf(b, a) && SharedBits(a, b) < |a| && SharedBits(a, b) < |b|
  {
    SharedBitsIs(b, a, SharedBits(a, b));
  }

  lemma LeftSibling(x: Path, layer: nat)
    requires 0 < layer <= |x|
    ensures if x[layer - 1] then LeftOf(Sib(x, layer), x) else LeftOf(x, Sib(x, layer))
  {
    var s := Sib(x, layer);
    assert s[..layer - 1] == x[..layer - 1];
    SharedBitsIs(s, x, layer - 1);
    SharedBitsIs(x, s, layer - 1);
  }

  /** A position and one right of it, cut just below the point where they part. */
  lemma LeftCut(a: Path, b: Path, i: nat, j: nat)
    requires LeftOf(a, b) && SharedBits(a, b) < i <= |a| && SharedBits(a, b) < j <= |b|
    ensures LeftOf(a[..i], b[..j]) && SharedBits(a[..i], b[..j]) == SharedBits(a, b)
  {
    var n := SharedBits(a, b);
    assert a[..i][..n] == a[..n] == b[..n] == b[..j][..n];
    SharedBitsIs(a[..i], b[..j], n);
  }

  // ----- the state of a walk

  /** Below `x` memory and map are as they were at the start. */
  ghost predicate Untouched(mem: Mem, m: State, mem0: Mem, m0: State, x: Path) {
    SameBelow(mem0, mem, x) && AgreeUnder(m0, m, x)
  }

  /** Right of `at` nothing has changed. */
  ghost predicate RightUntouched(mem: Mem, m: State, mem0: Mem, m0: State, at: Path) {
    && (forall y: Path | |y| <= KEY_BITS && LeftOf(at, y) :: mem[y] == mem0[y])
    && (forall k: Key | LeftOf(at, k) :: (k in m0 <==> k in m) && (k in m0 ==> m0[k] == m[k]))
  }

  /** Each left sibling on the path of `at`, below depth `top`, is finished. */
  ghost predicate LeftFinished(mem: Mem, m: State, top: nat, at: Path)
    requires |at| <= KEY_BITS
  {
    forall layer | top < layer <= |at| && at[layer - 1] :: Holds(mem, m, Sib(at, layer))
  }

  /** About to work at `at`: a position of the trie at the start. */
  ghost predicate Arrived(mem: Mem, m: State, mem0: Mem, m0: State, top: nat, at: Path) {
    && top <= |at| <= KEY_BITS && Holds(mem0, m0, []) && Reachable(m0, at, 0)
    && RightUntouched(mem, m, mem0, m0, at) && LeftFinished(mem, m, top, at)
  }

  /** Also finished below `at` itself. */
  ghost predicate Finished(mem: Mem, m: State, mem0: Mem, m0: State, top: nat, at: Path) {
    Arrived(mem, m, mem0, m0, top, at) && Holds(mem, m, at)
  }

  lemma RightIsUntouched(mem: Mem, m: State, mem0: Mem, m0: State, at: Path, x: Path)
    requires RightUntouched(mem, m, mem0, m0, at) && LeftOf(at, x)
    ensures Untouched(mem, m, mem0, m0, x)
  {
    forall y: Path | Covers(x, y) ensures LeftOf(at, y) { LeftCovered(at, x, at, y); }
  }

  lemma RightHolds(mem: Mem, m: State, mem0: Mem, m0: State, at: Path, on: Path, layer: nat)
    requires RightUntouched(mem, m, mem0, m0, at) && 0 < layer <= |on| <= KEY_BITS
    requires Holds(mem0, m0, []) && Reachable(m0, on, 0) && LeftOf(at, Sib(on, layer))
    ensures Holds(mem, m, Sib(on, layer))
  {
    hide Holds, Sub, LeftOf, SameBelow, AgreeUnder, RightUntouched, Reachable;
    HoldsSibling(mem0, m0, on, layer);
    RightIsUntouched(mem, m, mem0, m0, at, Sib(on, layer));
    HoldsFrame(mem0, mem, m0, m, Sib(on, layer));
  }

  /** The walk starts anywhere. */
  lemma Start(mem0: Mem, m0: State, top: nat, at: Path)
    requires Holds(mem0, m0, []) && top <= |at| <= KEY_BITS && Reachable(m0, at, 0)
    ensures Arrived(mem0, m0, mem0, m0, top, at)
  {
    hide Holds, Sub;
    forall layer | top < layer <= |at| && at[layer - 1] ensures Holds(mem0, m0, Sib(at, layer)) {
      HoldsSibling(mem0, m0, at, layer);
    }
  }

  /** While climbing, the sibling is finished or untouched: either way it holds the current trie. */
  lemma SiblingHolds(mem: Mem, m: State, mem0: Mem, m0: State, top: nat, at: Path)
    requires Finished(mem, m, mem0, m0, top, at) && |at| > top
    ensures Holds(mem, m, Sib(at, |at|))
  {
    hide Holds, Sub, Reachable, RightUntouched, LeftOf;
    LeftSibling(at, |at|);
    if !at[|at| - 1] { RightHolds(mem, m, mem0, m0, at, at, |at|); }
  }

  /** Moving on to a position on the right, once climbed to just below the fork or to the top. */
  lemma MoveOn(mem: Mem, m: State, mem0: Mem, m0: State, top: nat, at: Path, to: Path)
    requires Finished(mem, m, mem0, m0, top, at) && LeftOf(at, to) && top <= |to| <= KEY_BITS && Reachable(m0, to, 0)
    requires SharedBits(at, to) == |at| - 1 || |at| == top
    ensures Arrived(mem, m, mem0, m0, top, to)
  {
    hide Holds, Sub, Reachable;
    forall y: Path | LeftOf(to, y) ensures LeftOf(at, y) { LeftTransitive(at, to, y); }
    forall layer | top < layer <= |to| && to[layer - 1] ensures Holds(mem, m, Sib(to, layer)) {
      MoveOnLayer(mem, m, mem0, m0, top, at, to, layer);
    }
  }

  lemma MoveOnLayer(mem: Mem, m: State, mem0: Mem, m0: State, top: nat, at: Path, to: Path, layer: nat)
    requires Finished(mem, m, mem0, m0, top, at) && LeftOf(at, to) && top <= |to| <= KEY_BITS && Reachable(m0, to, 0)
    requires SharedBits(at, to) == |at| - 1 || |at| == top
    requires top < layer <= |to| && to[layer - 1]
    ensures Holds(mem, m, Sib(to, layer))
  {
    hide Holds, Sub, Reachable, RightUntouched;
    var n := SharedBits(at, to);
    if layer <= n {
      assert at[..n][layer - 1] == to[..n][layer - 1] && at[..n][..layer - 1] == to[..n][..layer - 1];
      assert at[..layer - 1] == to[..layer - 1];
      assert Sib(at, layer) == Sib(to, layer);
    } else if layer == n + 1 {
      assert at == at[..n] + [at[n]];
      assert Sib(to, layer) == at;
    } else {
      hide LeftOf;
      LeftCut(at, to, |at|, layer - 1);
      assert at[..|at|] == at;
      LeftCovered(at, to[..layer - 1], at, Sib(to, layer));
      RightHolds(mem, m, mem0, m0, at, to, layer);
    }
  }

  /** The map with everything below `x` taken from `n`. */
  ghost function Replaced(m: State, x: Path, n: State): State {
    (map k | k in m && !Covers(x, k) :: m[k]) + (map k | k in n && Covers(x, k) :: n[k])
  }

  /** Only what lies below the position was replaced. */
  lemma Replace(mem: Mem, mem': Mem, m: State, n: State, mem0: Mem, m0: State, top: nat, at: Path)
    requires Arrived(mem, m, mem0, m0, top, at) && SameOutside(mem, mem', at) && Holds(mem', n, at)
    ensures Finished(mem', Replaced(m, at, n), mem0, m0, top, at)
  {
    hide Holds, Sub, Reachable, LeftOf, RightUntouched, LeftFinished;
    ReplaceRight(mem, mem', m, n, mem0, m0, at);
    ReplaceLeft(mem, mem', m, n, top, at);
    HoldsFrame(mem', mem', n, Replaced(m, at, n), at);
  }

  lemma ReplaceRight(mem: Mem, mem': Mem, m: State, n: State, mem0: Mem, m0: State, at: Path)
    requires RightUntouched(mem, m, mem0, m0, at) && SameOutside(mem, mem', at)
    ensures RightUntouched(mem', Replaced(m, at, n), mem0, m0, at)
  {
    hide LeftOf;
    forall y: Path | LeftOf(at, y) ensures !Covers(at, y) { LeftApart(at, y); }
  }

  lemma ReplaceLeft(mem: Mem, mem': Mem, m: State, n: State, top: nat, at: Path)
    requires |at| <= KEY_BITS && LeftFinished(mem, m, top, at) && SameOutside(mem, mem', at)
    ensures LeftFinished(mem', Replaced(m, at, n), top, at)
  {
    hide Holds, LeftOf, SameOutside;
    forall layer | top < layer <= |at| && at[layer - 1] ensures Holds(mem', Replaced(m, at, n), Sib(at, layer)) {
      LeftSibling(at, layer);
      Beside(mem, mem', m, Replaced(m, at, n), at, Sib(at, layer));
    }
  }

  /** What does not meet the changed part stays as it is. */
  lemma Beside(mem: Mem, mem': Mem, m: State, m': State, at: Path, x: Path)
    requires |x| <= KEY_BITS && SameOutside(mem, mem', at) && Holds(mem, m, x) && (LeftOf(x, at) || LeftOf(at, x))
    requires forall k: Key | !Covers(at, k) :: (k in m <==> k in m') && (k in m ==> m[k] == m'[k])
    ensures Holds(mem', m', x)
  {
    hide Holds, Sub, LeftOf;
    forall y: Path | Covers(x, y) ensures !Covers(at, y) { Disjoint(x, at, y); }
    HoldsFrame(mem, mem', m, m', x);
  }

  lemma Disjoint(x: Path, at: Path, y: Path)
    requires (LeftOf(x, at) || LeftOf(at, x)) && Covers(x, y)
    ensures !Covers(at, y)
  {
    hide LeftOf, SharedFrom;
    if LeftOf(x, at) {
      LeftCovered(x, at, y, at);
      LeftApart(y, at);
    } else {
      LeftCovered(at, x, at, y);
      LeftApart(at, y);
    }
  }

  /** Climbing a step: the parent takes the combination of both children, which may only be
      overwritten when the parent has no children. */
  lemma Climb(mem: Mem, mem': Mem, m: State, mem0: Mem, m0: State, top: nat, at: Path)
    requires Finished(mem, m, mem0, m0, top, at) && |at| > top
    requires mem'[at[..|at| - 1]] == Sub(m, at[..|at| - 1])
    requires forall y: Path | |y| <= KEY_BITS && y != at[..|at| - 1] && y != at && y != Sib(at, |at|) ::
               mem'[y] == mem[y]
    requires Sub(m, at[..|at| - 1]).Internal? ==> mem'[at] == mem[at] && mem'[Sib(at, |at|)] == mem[Sib(at, |at|)]
    ensures Finished(mem', m, mem0, m0, top, at[..|at| - 1])
  {
    hide Holds, Sub, LeftOf, Reachable;
    var up := at[..|at| - 1];
    assert at == up + [at[|at| - 1]] && Sib(at, |at|) == up + [!at[|at| - 1]];
    assert SameOutside(mem, mem', up);
    forall i | 0 <= i < |up| ensures up[..i] == at[..i] {}
    ClimbReachable(m0, at);
    forall y: Path | |y| <= KEY_BITS && LeftOf(up, y) ensures LeftOf(at, y) && mem'[y] == mem[y] {
      LeftCovered(up, y, at, y);
      LeftApart(up, y);
    }
    forall layer | top < layer <= |up| && up[layer - 1] ensures Holds(mem', m, Sib(up, layer)) {
      assert Sib(up, layer) == Sib(at, layer);
      LeftSibling(up, layer);
      Beside(mem, mem', m, m, up, Sib(up, layer));
    }
    SiblingHolds(mem, m, mem0, m0, top, at);
    ClimbHolds(mem, mem', m, up);
  }

  lemma ClimbReachable(m0: State, at: Path)
    requires 0 < |at| <= KEY_BITS && Reachable(m0, at, 0)
    ensures Reachable(m0, at[..|at| - 1], 0)
  {
    hide Sub;
    var up := at[..|at| - 1];
    forall i | 0 <= i < |up| ensures Sub(m0, up[..i]).Internal? { assert up[..i] == at[..i]; }
  }

  lemma ClimbHolds(mem: Mem, mem': Mem, m: State, up: Path)
    requires |up| < KEY_BITS && Holds(mem, m, up + [false]) && Holds(mem, m, up + [true])
    requires mem'[up] == Sub(m, up)
    requires forall y: Path | |y| <= KEY_BITS && y != up && y != up + [false] && y != up + [true] :: mem'[y] == mem[y]
    requires Sub(m, up).Internal? ==> mem'[up + [false]] == mem[up + [false]] && mem'[up + [true]] == mem[up + [true]]
    ensures Holds(mem', m, up)
  {
    hide Sub;
    if Sub(m, up).Internal? {
      HoldsFrame(mem, mem', m, m, up + [false]);
      HoldsFrame(mem, mem', m, m, up + [true]);
    }
  }

  // ----- what lies behind a walk

  /** Below the position or left of it. */
  ghost predicate Behind(y: Path, at: Path) { Covers(at, y) || LeftOf(y, at) }

  lemma BehindUp(y: Path, at: Path)
    requires at != [] && Behind(y, at)
    ensures Behind(y, at[..|at| - 1])
  {
    var up := at[..|at| - 1];
    if Covers(at, y) {
      assert y[..|up|] == at[..|up|] == up;
    } else {
      var n := SharedBits(y, at);
      if n < |up| {
        assert at[..|at|] == at && y[..|y|] == y;
        LeftCut(y, at, |y|, |up|);
      } else {
        assert y[..|up|] == y[..n][..|up|] == at[..n][..|up|] == up;
      }
    }
  }

  lemma BehindOn(y: Path, at: Path, to: Path)
    requires Behind(y, at) && LeftOf(at, to)
    ensures LeftOf(y, to)
  {
    hide LeftOf;
    if Covers(at, y) { LeftCovered(at, to, y, to); } else { LeftTransitive(y, at, to); }
  }

  /** A finished top stays left of the walk while it climbs within another. */
  lemma TopStaysLeft(p: Path, at: Path)
    requires LeftOf(p, at) && |p| < |at|
    ensures LeftOf(p, at[..|at| - 1])
  {
    assert p[..|p|] == p && at[..|at|] == at;
    LeftCut(p, at, |p|, |at| - 1);
  }

  // ----- memory with grafts

  ghost predicate BelowAny(grafts: set<Path>, y: Path) {
    exists g | g in grafts :: ProperlyBelow(g, y)
  }

  /** Memory in which whatever lies below a graft is taken from elsewhere. */
  ghost function Grafted(mem: Mem, grafts: set<Path>, under: Mem): Mem {
    imap y: Path | |y| <= KEY_BITS :: if BelowAny(grafts, y) then under[y] else mem[y]
  }

  ghost predicate AllBehind(grafts: set<Path>, at: Path) {
    forall g | g in grafts :: Behind(g, at)
  }

  ghost predicate AllLeft(grafts: set<Path>, at: Path) {
    forall g | g in grafts :: LeftOf(g, at)
  }

  /** Replacing below `at`, right of all grafts, looks the same with and without them. */
  lemma ReplaceGrafted(v: Mem, v': Mem, grafts: set<Path>, under: Mem, at: Path, n: State)
    requires |at| <= KEY_BITS && AllLeft(grafts, at) && SameOutside(v, v', at) && Holds(v', n, at)
    ensures SameOutside(Grafted(v, grafts, under), Grafted(v', grafts, under), at)
    ensures Holds(Grafted(v', grafts, under), n, at)
  {
    hide Holds, Sub, LeftOf;
    forall y: Path | Covers(at, y) ensures !BelowAny(grafts, y) {
      forall g | g in grafts ensures !ProperlyBelow(g, y) { Disjoint(at, g, y); }
    }
    HoldsFrame(v', Grafted(v', grafts, under), n, n, at);
  }

  ghost function Under(under: Mem, at: Path, below: Mem): Mem {
    imap y: Path | |y| <= KEY_BITS :: if ProperlyBelow(at, y) then below[y] else under[y]
  }

  /** The node is the root, at `at`, of the sub-trie of `n` that `below` holds. */
  ghost predicate FitsOver(below: Mem, at: Path, node: Node, n: State) {
    |at| <= KEY_BITS && Holds(below[at := node], n, at)
  }

  /** Placing a node over its own sub-trie. */
  lemma PlaceGrafted(v: Mem, grafts: set<Path>, under: Mem, at: Path, node: Node, below: Mem, n: State)
    requires AllLeft(grafts, at) && FitsOver(below, at, node, n)
    ensures var f' := Grafted(v[at := node], grafts + {at}, Under(under, at, below));
            SameOutside(Grafted(v, grafts, under), f', at) && Holds(f', n, at)
  {
    hide Holds, Sub, LeftOf;
    var f' := Grafted(v[at := node], grafts + {at}, Under(under, at, below));
    forall y: Path | |y| <= KEY_BITS
      ensures if Covers(at, y) then f'[y] == below[at := node][y] else f'[y] == Grafted(v, grafts, under)[y]
    {
      PlaceGraftedAt(v, grafts, under, at, node, below, y);
    }
    HoldsFrame(below[at := node], f', n, n, at);
  }

  lemma PlaceGraftedAt(v: Mem, grafts: set<Path>, under: Mem, at: Path, node: Node, below: Mem, y: Path)
    requires |y| <= KEY_BITS && AllLeft(grafts, at)
    ensures var f' := Grafted(v[at := node], grafts + {at}, Under(under, at, below));
            if Covers(at, y) then f'[y] == below[at := node][y] else f'[y] == Grafted(v, grafts, under)[y]
  {
    hide LeftOf;
    if Covers(at, y) {
      forall g | g in grafts ensures !ProperlyBelow(g, y) { Disjoint(at, g, y); }
      if y != at { assert ProperlyBelow(at, y) && at in grafts + {at}; }
    } else {
      assert BelowAny(grafts + {at}, y) == BelowAny(grafts, y);
    }
  }

  /** The position, its sibling and its ancestors are not below a graft. */
  lemma NotGrafted(grafts: set<Path>, at: Path, x: Path)
    requires AllBehind(grafts, at)
    requires Covers(x, at) || (at != [] && x == Sib(at, |at|))
    ensures !BelowAny(grafts, x)
  {
    forall g | g in grafts ensures !ProperlyBelow(g, x) {
      assert Behind(g, at);
      CutOffBehind(g, at, x);
    }
  }

  lemma CutOffBehind(g: Path, at: Path, x: Path)
    requires Behind(g, at)
    requires Covers(x, at) || (at != [] && x == Sib(at, |at|))
    ensures !ProperlyBelow(g, x)
  {
    hide LeftOf;
    if ProperlyBelow(g, x) { AboveAt(g, at, x); }
    if LeftOf(g, at) { LeftApart(g, at); }
  }

  lemma AboveAt(g: Path, at: Path, x: Path)
    requires ProperlyBelow(g, x) && (Covers(x, at) || (at != [] && x == Sib(at, |at|)))
    ensures Covers(g, at) && |g| < |at|
  {
    assert g == x[..|g|] == at[..|g|];
  }
}
