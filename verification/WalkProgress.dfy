/** All there is to say about a page walk in progress, and how advancing, working and climbing keep it. */
module WalkProgress {
  import opened Trie
  import opened TriePos
  import opened Memory
  import opened PagedMemory
  import opened WalkState
  import opened PageStack
  import PathProofs

  /** Memory and map as they are and as they were at the start, the depth at which the walk ends, the
      positions worked at and those placed, the pages put out and the child page roots reported. */
  datatype Progress = Progress(mem: Mem, m: State, mem0: Mem, m0: State, top: nat, visited: set<Path>,
                               grafts: set<Path>, output: UpdatedPages, roots: seq<(Path, Node)>)

  /** Pages newly put out lie below `x`. */
  ghost predicate PutOutBelow(output: UpdatedPages, output': UpdatedPages, x: Path) {
    forall y: Path | y != [] && PageOf(y) in output' :: PageOf(y) in output || ProperlyBelow(x, y)
  }

  lemma PutOutNothing(output: UpdatedPages, x: Path)
    ensures PutOutBelow(output, output, x)
  {
  }

  lemma PutOutTransitive(a: UpdatedPages, b: UpdatedPages, c: UpdatedPages, x: Path)
    requires PutOutBelow(a, b, x) && PutOutBelow(b, c, x)
    ensures PutOutBelow(a, c, x)
  {
  }

  lemma PutOutWider(output: UpdatedPages, output': UpdatedPages, x: Path, top: Path)
    requires PutOutBelow(output, output', x) && Covers(top, x)
    ensures PutOutBelow(output, output', top)
  {
    AllBelowLonger(top, x[|top|..]);
    assert top + x[|top|..] == x;
  }

  ghost predicate PutOutBehind(output: UpdatedPages, at: Path) {
    forall y: Path | y != [] && PageOf(y) in output :: Behind(y, at)
  }

  ghost predicate PutOutLeft(output: UpdatedPages, at: Path) {
    forall y: Path | y != [] && PageOf(y) in output :: LeftOf(y, at)
  }

  /** A reported child page root: finished, at the top of the walk. */
  ghost predicate RootFinished(mem: Mem, m: State, e: (Path, Node), top: nat, at: Path) {
    |e.0| == top <= KEY_BITS && Behind(e.0, at) && Holds(mem, m, e.0) && mem[e.0] == e.1
  }

  ghost predicate RootBefore(roots: seq<(Path, Node)>, i: nat, j: nat)
    requires i < |roots| && j < |roots|
  {
    LeftOf(roots[i].0, roots[j].0)
  }

  ghost predicate RootsFinished(mem: Mem, m: State, roots: seq<(Path, Node)>, top: nat, at: Path) {
    && (forall i | 0 <= i < |roots| :: RootFinished(mem, m, roots[i], top, at))
    && (forall i, j | 0 <= i < j < |roots| :: RootBefore(roots, i, j))
  }

  ghost predicate RootsLeft(roots: seq<(Path, Node)>, at: Path) {
    forall i | 0 <= i < |roots| :: LeftOf(roots[i].0, at)
  }

  ghost predicate UnderRoot(roots: seq<(Path, Node)>, x: Path) {
    exists i | 0 <= i < |roots| :: Covers(roots[i].0, x)
  }

  ghost predicate Used(visited: set<Path>, x: Path) {
    exists v | v in visited :: Covers(x, v)
  }

  /** Each position worked at lies below a reported root or in the part now worked on, and each
      root has one below it. */
  ghost predicate Accounted(visited: set<Path>, roots: seq<(Path, Node)>, part: Path) {
    && (forall v | v in visited :: Covers(part, v) || UnderRoot(roots, v))
    && (forall i | 0 <= i < |roots| :: Used(visited, roots[i].0))
  }

  /** Below a graft at the bottom of a page, that is, in other pages. */
  ghost predicate InGraft(grafts: set<Path>, y: Path) {
    exists g | g in grafts :: |g| % DEPTH == 0 && ProperlyBelow(g, y)
  }

  ghost predicate Fits(grafts: set<Path>, roots: seq<(Path, Node)>, part: Path, y: Path) {
    (Covers(part, y) || UnderRoot(roots, y)) && !InGraft(grafts, y)
  }

  /** The pages put out lie below the reported roots or in the part now worked on, and none below a
      graft. */
  ghost predicate PutOutFits(output: UpdatedPages, grafts: set<Path>, roots: seq<(Path, Node)>, part: Path) {
    forall y: Path | y != [] && PageOf(y) in output :: Fits(grafts, roots, part, y)
  }

  /** Climbing puts out at most the page that is left. */
  ghost predicate PutOutOne(output: UpdatedPages, output': UpdatedPages, p: Path)
    requires p != []
  {
    forall id | id in output' :: id in output || (id == PageOf(p) && DepthInPage(|p|) == 1)
  }

  lemma PutOutSame(output: UpdatedPages, output': UpdatedPages, p: Path, q: Path)
    requires p != [] && PutOutOne(output, output', p) && |p| == |q| && PageOf(p) == PageOf(q)
    ensures PutOutOne(output, output', q)
  {
  }

  lemma OneIsBelow(output: UpdatedPages, output': UpdatedPages, p: Path)
    requires p != [] && PutOutOne(output, output', p)
    ensures PutOutBelow(output, output', p[..|p| - 1])
  {
    hide PageOf;
    if DepthInPage(|p|) == 1 { StemOnly(p); }
  }

  /** Pages on the way that are not stacked yet were not put out. */
  lemma WaitsAhead(pages: PageSet, output: UpdatedPages, at: Path, to: Path, top: nat, bottom: nat)
    requires to != [] && Below(at, to, top) && PutOutBehind(output, at) && DEPTH * bottom + 1 > |at|
    requires forall n | bottom <= n <= |PageOf(to)| :: PageOf(to)[..n] in pages.pages
    ensures Waiting(pages, output, PageOf(to), bottom)
  {
    hide LeftOf, PageOf, Below, Behind;
    forall n | bottom <= n <= |PageOf(to)| ensures PageOf(to)[..n] !in output {
      PagePrefix(to, n);
      AheadOfPages(at, to, n, top);
    }
  }

  /** All is done left of `at` and below it, and nothing right of it. */
  ghost predicate DoneAt(w: Progress, at: Path) {
    && Finished(w.mem, w.m, w.mem0, w.m0, w.top, at)
    && AllBehind(w.grafts, at) && PutOutBehind(w.output, at) && RootsFinished(w.mem, w.m, w.roots, w.top, at)
    && Accounted(w.visited, w.roots, at[..w.top]) && Used(w.visited, at)
    && PutOutFits(w.output, w.grafts, w.roots, at[..w.top])
    && (w.top > 0 && |at| == w.top ==> w.roots != [] && w.roots[|w.roots| - 1].0 == at)
  }

  /** All is done left of `at`, and nothing below it or right of it. */
  ghost predicate ReadyAt(w: Progress, at: Path) {
    && Arrived(w.mem, w.m, w.mem0, w.m0, w.top, at) && Untouched(w.mem, w.m, w.mem0, w.m0, at)
    && AllLeft(w.grafts, at) && PutOutLeft(w.output, at)
    && RootsFinished(w.mem, w.m, w.roots, w.top, at) && RootsLeft(w.roots, at)
    && Accounted(w.visited, w.roots, at[..w.top]) && PutOutFits(w.output, w.grafts, w.roots, at[..w.top])
  }

  // ----- moving on

  lemma NewWalk(w: Progress, to: Path)
    requires w.mem == w.mem0 && w.m == w.m0 && w.grafts == {} && w.visited == {} && w.output == map[] && w.roots == []
    requires Holds(w.mem0, w.m0, []) && w.top <= |to| <= KEY_BITS && Reachable(w.m0, to, 0)
    ensures ReadyAt(w, to)
  {
    hide Holds, Reachable, LeftOf;
    Start(w.mem0, w.m0, w.top, to);
  }

  lemma LastOn(at: Path, last: Path, to: Path)
    requires (at == last || LeftOf(at, last)) && LeftOf(last, to)
    ensures LeftOf(at, to)
  {
    if at != last { LeftTransitive(at, last, to); }
  }

  lemma LessOn(at: Path, last: Path, to: Path)
    requires (at == last || LeftOf(at, last)) && Less(last, to) && (at == last ==> !Covers(at, to))
    ensures LeftOf(at, to)
  {
    if at != last {
      SharedBitsBetween(at, last, to);
    }
  }

  lemma Onward(mem: Mem, m: State, mem0: Mem, m0: State, top: nat, at: Path, to: Path)
    requires Finished(mem, m, mem0, m0, top, at) && Below(at, to, top) && top <= |to| <= KEY_BITS
             && Reachable(m0, to, 0)
    ensures Arrived(mem, m, mem0, m0, top, to) && Untouched(mem, m, mem0, m0, to)
  {
    hide Holds, Untouched, LeftOf;
    MoveOn(mem, m, mem0, m0, top, at, to);
    RightIsUntouched(mem, m, mem0, m0, at, to);
  }

  lemma OnwardBehind(grafts: set<Path>, output: UpdatedPages, at: Path, to: Path)
    requires LeftOf(at, to) && AllBehind(grafts, at) && PutOutBehind(output, at)
    ensures AllLeft(grafts, to) && PutOutLeft(output, to)
  {
    hide LeftOf, PageOf;
    forall y: Path | Behind(y, at) ensures LeftOf(y, to) { BehindOn(y, at, to); }
  }

  lemma OnwardRoots(mem: Mem, m: State, roots: seq<(Path, Node)>, top: nat, at: Path, to: Path)
    requires LeftOf(at, to) && RootsFinished(mem, m, roots, top, at)
    ensures RootsFinished(mem, m, roots, top, to) && RootsLeft(roots, to)
  {
    hide LeftOf, Holds;
    forall i | 0 <= i < |roots| ensures RootFinished(mem, m, roots[i], top, to) && LeftOf(roots[i].0, to) {
      assert RootFinished(mem, m, roots[i], top, at);
      BehindOn(roots[i].0, at, to);
    }
  }

  lemma OnwardAccounted(visited: set<Path>, roots: seq<(Path, Node)>, at: Path, to: Path, top: nat)
    requires top <= |at| && top <= |to| && Accounted(visited, roots, at[..top]) && Below(at, to, top)
    requires |at| == top ==> roots != [] && roots[|roots| - 1].0 == at
    ensures Accounted(visited, roots, to[..top])
  {
    if |at| == top {
      assert at[..top] == at;
      forall v: Path | Covers(at, v) ensures UnderRoot(roots, v) { assert Covers(roots[|roots| - 1].0, v); }
    } else {
      var n := SharedBits(at, to);
      assert at[..top] == at[..n][..top] == to[..n][..top] == to[..top];
    }
  }

  lemma OnwardFits(output: UpdatedPages, grafts: set<Path>, roots: seq<(Path, Node)>, at: Path, to: Path, top: nat)
    requires top <= |at| && top <= |to| && PutOutFits(output, grafts, roots, at[..top]) && Below(at, to, top)
    requires |at| == top ==> roots != [] && roots[|roots| - 1].0 == at
    ensures PutOutFits(output, grafts, roots, to[..top])
  {
    hide PageOf, InGraft;
    if |at| == top {
      assert at[..top] == at;
      forall v: Path | Covers(at, v) ensures UnderRoot(roots, v) { assert Covers(roots[|roots| - 1].0, v); }
    } else {
      var n := SharedBits(at, to);
      assert at[..top] == at[..n][..top] == to[..n][..top] == to[..top];
    }
  }

  lemma MoveWalk(w: Progress, at: Path, to: Path)
    requires DoneAt(w, at) && Below(at, to, w.top) && w.top <= |to| <= KEY_BITS && Reachable(w.m0, to, 0)
    ensures ReadyAt(w, to)
  {
    hide AllBehind, PutOutBehind, PutOutLeft, PutOutFits, AllLeft, RootsFinished, RootsLeft, Accounted, Untouched,
      LeftOf;
    hide Holds, Reachable, RightUntouched, LeftFinished;
    Onward(w.mem, w.m, w.mem0, w.m0, w.top, at, to);
    OnwardBehind(w.grafts, w.output, at, to);
    OnwardRoots(w.mem, w.m, w.roots, w.top, at, to);
    LeftApart(at, to);
    OnwardAccounted(w.visited, w.roots, at, to, w.top);
    OnwardFits(w.output, w.grafts, w.roots, at, to, w.top);
  }

  // ----- working at a position

  lemma Settle(mem: Mem, mem': Mem, m: State, n: State, mem0: Mem, m0: State, top: nat, at: Path,
               roots: seq<(Path, Node)>)
    requires Arrived(mem, m, mem0, m0, top, at) && SameOutside(mem, mem', at) && Holds(mem', n, at)
    requires RootsFinished(mem, m, roots, top, at) && RootsLeft(roots, at)
    ensures Finished(mem', Replaced(m, at, n), mem0, m0, top, at)
    ensures RootsFinished(mem', Replaced(m, at, n), roots, top, at)
  {
    hide LeftOf, Holds, Finished;
    Replace(mem, mem', m, n, mem0, m0, top, at);
    forall i | 0 <= i < |roots| ensures RootFinished(mem', Replaced(m, at, n), roots[i], top, at) {
      assert RootFinished(mem, m, roots[i], top, at);
      LeftApart(roots[i].0, at);
      Beside(mem, mem', m, Replaced(m, at, n), at, roots[i].0);
    }
  }

  lemma SettleBehind(grafts: set<Path>, output: UpdatedPages, output': UpdatedPages, at: Path)
    requires AllLeft(grafts, at) && PutOutLeft(output, at) && PutOutBelow(output, output', at)
    ensures AllBehind(grafts, at) && AllBehind(grafts + {at}, at) && PutOutBehind(output', at)
  {
    hide LeftOf, PageOf;
  }

  lemma SettleAccounted(visited: set<Path>, roots: seq<(Path, Node)>, at: Path, top: nat)
    requires top <= |at| && Accounted(visited, roots, at[..top])
    ensures Accounted(visited + {at}, roots, at[..top]) && Used(visited + {at}, at)
  {
    assert at in visited + {at} && Covers(at, at);
    forall i | 0 <= i < |roots| ensures Used(visited + {at}, roots[i].0) {
      var v :| v in visited && Covers(roots[i].0, v);
      assert v in visited + {at};
    }
  }

  lemma SettleFits(output: UpdatedPages, output': UpdatedPages, grafts: set<Path>, grafts': set<Path>,
                   roots: seq<(Path, Node)>, at: Path, top: nat)
    requires top <= |at| && PutOutFits(output, grafts, roots, at[..top]) && PutOutBelow(output, output', at)
    requires AllLeft(grafts, at) && PutOutLeft(output, at)
    requires grafts' == grafts || (grafts' == grafts + {at} && output' == output)
    ensures PutOutFits(output', grafts', roots, at[..top])
  {
    hide PageOf, LeftOf;
    forall y: Path | y != [] && PageOf(y) in output' ensures Fits(grafts', roots, at[..top], y) {
      if PageOf(y) in output {
        assert LeftOf(y, at) && Fits(grafts, roots, at[..top], y);
        LeftApart(y, at);
      } else {
        assert y[..top] == at[..top];
        forall g | g in grafts ensures !ProperlyBelow(g, y) { Disjoint(at, g, y); }
      }
    }
  }

  /** The node found on arrival is the one the initial trie has there. */
  lemma FindsOld(w: Progress, at: Path)
    requires ReadyAt(w, at)
    ensures |at| <= KEY_BITS && w.mem[at] == Sub(w.m0, at)
  {
    hide LeftOf, Sub, AllLeft, PutOutLeft, RootsFinished, RootsLeft, Accounted, RightUntouched, LeftFinished;
    assert at[..0] == [] && Covers(at, at);
    HoldsBelow(w.mem0, w.m0, at, 0);
  }

  lemma SettleWalk(w: Progress, w': Progress, at: Path, n: State)
    requires ReadyAt(w, at) && SameOutside(w.mem, w'.mem, at) && Holds(w'.mem, n, at) && (w.top > 0 ==> |at| > w.top)
    requires PutOutBelow(w.output, w'.output, at) && w'.m == Replaced(w.m, at, n)
    requires w' == w.(mem := w'.mem, m := w'.m, output := w'.output, grafts := w'.grafts, visited := w.visited + {at})
    requires w'.grafts == w.grafts || (w'.grafts == w.grafts + {at} && w'.output == w.output)
    ensures DoneAt(w', at)
  {
    hide AllBehind, PutOutBehind, PutOutBelow, PutOutLeft, PutOutFits, AllLeft, RootsFinished, RootsLeft, Accounted,
      Used, Untouched, LeftOf;
    hide Holds, Reachable, RightUntouched, LeftFinished, SameOutside, Replaced;
    Settle(w.mem, w'.mem, w.m, n, w.mem0, w.m0, w.top, at, w.roots);
    SettleBehind(w.grafts, w.output, w'.output, at);
    SettleAccounted(w.visited, w.roots, at, w.top);
    SettleFits(w.output, w'.output, w.grafts, w'.grafts, w.roots, at, w.top);
  }

  // ----- climbing

  /** Combining a node with its sibling: only those two may be cleared, and only for a lone leaf. */
  ghost predicate Combined(mem: Mem, mem': Mem, p: Path, next: Node)
    requires 0 < |p| <= KEY_BITS
  {
    var s := Sib(p, |p|);
    && next == PathProofs.CompactStep(p[|p| - 1], mem[p], mem[s])
    && (next.Internal? ==> mem' == mem)
    && forall y: Path | |y| <= KEY_BITS && y != p && y != s :: mem'[y] == mem[y]
  }

  /** What two siblings combine to. */
  lemma StepNode(bit: bool, node: Node, sibling: Node)
    ensures PathProofs.CompactStep(bit, node, sibling)
            == if node.Terminator? && sibling.Terminator? then Terminator
               else if node.Leaf? && sibling.Terminator? then node
               else if node.Terminator? && sibling.Leaf? then sibling
               else if bit then Internal(sibling, node) else Internal(node, sibling)
  {
  }

  lemma SiblingStem(p: Path)
    requires p != []
    ensures Sib(p, |p|)[..|p| - 1] == p[..|p| - 1] && PageOf(Sib(p, |p|)) == PageOf(p)
  {
    hide PageOf;
    SiblingPage(p);
  }

  lemma CombinedKept(mem: Mem, p: Path, next: Node)
    requires 0 < |p| <= KEY_BITS && next == PathProofs.CompactStep(p[|p| - 1], mem[p], mem[Sib(p, |p|)])
    ensures Combined(mem, mem, p, next)
  {
  }

  lemma CombinedCleared(mem: Mem, p: Path, x: Path, next: Node)
    requires 0 < |p| <= KEY_BITS && next == PathProofs.CompactStep(p[|p| - 1], mem[p], mem[Sib(p, |p|)])
    requires !next.Internal? && (x == p || x == Sib(p, |p|))
    ensures Combined(mem, mem[x := Terminator], p, next)
  {
  }

  /** Also writing the combined node above the two. */
  ghost predicate Compacted(mem: Mem, mem': Mem, p: Path)
    requires 0 < |p| <= KEY_BITS
  {
    var s, up := Sib(p, |p|), p[..|p| - 1];
    && mem'[up] == PathProofs.CompactStep(p[|p| - 1], mem[p], mem[s])
    && (mem'[up].Internal? ==> mem'[p] == mem[p] && mem'[s] == mem[s])
    && forall y: Path | |y| <= KEY_BITS && y != up && y != p && y != s :: mem'[y] == mem[y]
  }

  lemma CompactedBy(mem: Mem, mid: Mem, p: Path, next: Node)
    requires 0 < |p| <= KEY_BITS && Combined(mem, mid, p, next)
    ensures Compacted(mem, mid[p[..|p| - 1] := next], p)
  {
    hide PathProofs.CompactStep;
  }

  /** What one climbed layer does to memory. */
  ghost predicate Climbed(mem: Mem, mem': Mem, m: State, p: Path)
    requires 0 < |p| <= KEY_BITS
  {
    var s, up := Sib(p, |p|), p[..|p| - 1];
    && mem'[up] == Sub(m, up)
    && (Sub(m, up).Internal? ==> mem'[p] == mem[p] && mem'[s] == mem[s])
    && forall y: Path | |y| <= KEY_BITS && y != up && y != p && y != s :: mem'[y] == mem[y]
  }

  lemma ClimbedNode(mem: Mem, mem': Mem, m: State, p: Path)
    requires 0 < |p| <= KEY_BITS && Climbed(mem, mem', m, p)
    ensures mem'[p[..|p| - 1]] == Sub(m, p[..|p| - 1])
  {
  }

  lemma WholeBelow(w: Progress, p: Path)
    requires DoneAt(w, p) && |p| > w.top
    ensures |p| <= KEY_BITS && w.mem[p] == Sub(w.m, p) && w.mem[Sib(p, |p|)] == Sub(w.m, Sib(p, |p|))
    ensures AllBehind(w.grafts, p)
  {
    hide Sub, AllBehind, PutOutBehind, RootsFinished, Accounted, LeftOf;
    SiblingHolds(w.mem, w.m, w.mem0, w.m0, w.top, p);
  }

  /** The walk stands below internal nodes of the initial trie. */
  lemma ParentInternal(w: Progress, p: Path)
    requires DoneAt(w, p) && p != []
    ensures |p| <= KEY_BITS && Sub(w.m0, p[..|p| - 1]).Internal?
  {
    hide Sub, Holds, AllBehind, PutOutBehind, RootsFinished, Accounted, LeftOf, RightUntouched, LeftFinished;
  }

  lemma DoneDepth(w: Progress, p: Path)
    requires DoneAt(w, p)
    ensures w.top <= |p| <= KEY_BITS
  {
  }

  lemma ClimbFinished(mem: Mem, mem': Mem, m: State, mem0: Mem, m0: State, top: nat, p: Path)
    requires top < |p| <= KEY_BITS && Finished(mem, m, mem0, m0, top, p) && Climbed(mem, mem', m, p)
    ensures Finished(mem', m, mem0, m0, top, p[..|p| - 1]) && Holds(mem', m, p[..|p| - 1])
  {
    hide Sub, Arrived;
    Climb(mem, mem', m, mem0, m0, top, p);
  }

  lemma ClimbBehind(grafts: set<Path>, output: UpdatedPages, output': UpdatedPages, p: Path)
    requires p != [] && AllBehind(grafts, p) && PutOutBehind(output, p) && PutOutBelow(output, output', p[..|p| - 1])
    ensures AllBehind(grafts, p[..|p| - 1]) && PutOutBehind(output', p[..|p| - 1])
  {
    hide LeftOf, PageOf;
    forall y: Path | Behind(y, p) ensures Behind(y, p[..|p| - 1]) { BehindUp(y, p); }
  }

  lemma ClimbRoots(mem: Mem, mem': Mem, m: State, roots: seq<(Path, Node)>, roots': seq<(Path, Node)>, top: nat,
                   p: Path)
    requires top < |p| <= KEY_BITS && Climbed(mem, mem', m, p) && RootsFinished(mem, m, roots, top, p)
    requires roots' == roots || (roots' == roots + [(p[..|p| - 1], mem'[p[..|p| - 1]])] && |p| - 1 == top)
    requires Holds(mem', m, p[..|p| - 1])
    ensures RootsFinished(mem', m, roots', top, p[..|p| - 1])
  {
    hide Holds, Sub, LeftOf, Climbed;
    var up := p[..|p| - 1];
    forall i | 0 <= i < |roots| ensures RootFinished(mem', m, roots[i], top, up) && LeftOf(roots[i].0, up) {
      ClimbRoot(mem, mem', m, roots[i], top, p);
    }
    forall i, j | 0 <= i < j < |roots'| ensures RootBefore(roots', i, j) {
      if j < |roots| { assert RootBefore(roots, i, j); }
    }
  }

  lemma ClimbRoot(mem: Mem, mem': Mem, m: State, e: (Path, Node), top: nat, p: Path)
    requires top < |p| <= KEY_BITS && Climbed(mem, mem', m, p) && RootFinished(mem, m, e, top, p)
    ensures RootFinished(mem', m, e, top, p[..|p| - 1]) && LeftOf(e.0, p[..|p| - 1])
  {
    hide Holds, Sub, LeftOf;
    var up := p[..|p| - 1];
    TopStaysLeft(e.0, p);
    LeftApart(e.0, up);
    forall y: Path | !Covers(up, y) && |y| <= KEY_BITS ensures mem[y] == mem'[y] {
      assert p[..|up|] == up && Sib(p, |p|)[..|up|] == up;
    }
    Beside(mem, mem', m, m, up, e.0);
  }

  lemma ClimbAccounted(visited: set<Path>, roots: seq<(Path, Node)>, roots': seq<(Path, Node)>, p: Path, top: nat)
    requires top < |p| && Accounted(visited, roots, p[..top]) && Used(visited, p)
    requires roots' == roots || (roots < roots' && |roots'| == |roots| + 1 && roots'[|roots|].0 == p[..|p| - 1])
    ensures Accounted(visited, roots', p[..|p| - 1][..top]) && Used(visited, p[..|p| - 1])
  {
    assert p[..|p| - 1][..top] == p[..top];
    forall x: Path | UnderRoot(roots, x) ensures UnderRoot(roots', x) {
      var i :| 0 <= i < |roots| && Covers(roots[i].0, x);
      assert Covers(roots'[i].0, x);
    }
    var v :| v in visited && Covers(p, v);
    assert v[..|p| - 1] == p[..|p| - 1];
  }

  lemma ClimbFits(output: UpdatedPages, output': UpdatedPages, grafts: set<Path>, roots: seq<(Path, Node)>,
                  roots': seq<(Path, Node)>, p: Path, top: nat)
    requires top < |p| && PutOutFits(output, grafts, roots, p[..top]) && PutOutOne(output, output', p)
    requires AllBehind(grafts, p) && roots <= roots'
    ensures PutOutFits(output', grafts, roots', p[..|p| - 1][..top])
  {
    hide PageOf, LeftOf;
    var up := p[..|p| - 1];
    assert up[..top] == p[..top];
    forall y: Path | y != [] && PageOf(y) in output' ensures Fits(grafts, roots', up[..top], y) {
      if PageOf(y) in output {
        assert Fits(grafts, roots, p[..top], y);
        if UnderRoot(roots, y) {
          var i :| 0 <= i < |roots| && Covers(roots[i].0, y);
          assert Covers(roots'[i].0, y);
        }
      } else {
        StemOnly(p);
        assert y[..top] == up[..top];
        forall g | g in grafts && |g| % DEPTH == 0 ensures !ProperlyBelow(g, y) {
          assert Behind(g, p);
          GraftNotInPage(g, p, y);
        }
      }
    }
  }

  /** What lies below the bottom of a page lies in other pages. */
  lemma GraftNotInPage(g: Path, p: Path, y: Path)
    requires p != [] && DepthInPage(|p|) == 1 && y != [] && PageOf(y) == PageOf(p) && Behind(g, p) && |g| % DEPTH == 0
    ensures !ProperlyBelow(g, y)
  {
    hide LeftOf;
    StemOnly(p);
    var up := p[..|p| - 1];
    assert ProperlyBelow(g, y) ==> |PageOf(y)| >= |g| / DEPTH;
    assert |up| == DEPTH * |PageOf(p)|;
    assert ProperlyBelow(g, y) ==> p[..|g|] == up[..|g|] == y[..|g|] == g;
    if LeftOf(g, p) { LeftApart(g, p); }
  }

  lemma ClimbWalk(w: Progress, w': Progress, p: Path)
    requires DoneAt(w, p) && w.top < |p| <= KEY_BITS && Climbed(w.mem, w'.mem, w.m, p)
    requires PutOutOne(w.output, w'.output, p)
    requires w' == w.(mem := w'.mem, output := w'.output, roots := w'.roots)
    requires w'.roots == w.roots + if 0 < w.top == |p| - 1 then [(p[..|p| - 1], w'.mem[p[..|p| - 1]])] else []
    ensures DoneAt(w', p[..|p| - 1])
  {
    hide AllBehind, PutOutBehind, PutOutBelow, PutOutOne, PutOutFits, RootsFinished, Accounted, LeftOf, Climbed, Used;
    hide Holds, Reachable, RightUntouched, LeftFinished;
    ClimbFinished(w.mem, w'.mem, w.m, w.mem0, w.m0, w.top, p);
    OneIsBelow(w.output, w'.output, p);
    ClimbBehind(w.grafts, w.output, w'.output, p);
    ClimbFits(w.output, w'.output, w.grafts, w.roots, w'.roots, p, w.top);
    ClimbRoots(w.mem, w'.mem, w.m, w.roots, w'.roots, w.top, p);
    ClimbAccounted(w.visited, w.roots, w'.roots, p, w.top);
  }

  // ----- the end

  ghost predicate RootReported(mem: Mem, m: State, e: (Path, Node), top: nat) {
    |e.0| == top <= KEY_BITS && Holds(mem, m, e.0) && mem[e.0] == e.1
  }

  /** The reported roots, from left to right, head finished sub-tries. */
  ghost predicate RootsReported(mem: Mem, m: State, roots: seq<(Path, Node)>, top: nat) {
    && (forall i | 0 <= i < |roots| :: RootReported(mem, m, roots[i], top))
    && (forall i, j | 0 <= i < j < |roots| :: RootBefore(roots, i, j))
  }

  /** The positions worked at lie below the reported roots, with at least one below each. */
  ghost predicate AllUnder(visited: set<Path>, roots: seq<(Path, Node)>) {
    (forall v | v in visited :: UnderRoot(roots, v)) && forall i | 0 <= i < |roots| :: Used(visited, roots[i].0)
  }

  ghost predicate PutOutUnder(output: UpdatedPages, roots: seq<(Path, Node)>) {
    forall y: Path | y != [] && PageOf(y) in output :: UnderRoot(roots, y)
  }

  ghost predicate NoneInGraft(output: UpdatedPages, grafts: set<Path>) {
    forall y: Path | y != [] && PageOf(y) in output :: !InGraft(grafts, y)
  }

  lemma EndOfWalk(w: Progress, at: Path)
    requires DoneAt(w, at) && |at| <= w.top
    ensures w.top == 0 ==> Holds(w.mem, w.m, [])
    ensures w.top > 0 ==> RootsReported(w.mem, w.m, w.roots, w.top) && AllUnder(w.visited, w.roots)
    ensures w.top > 0 ==> PutOutUnder(w.output, w.roots)
    ensures NoneInGraft(w.output, w.grafts)
  {
    hide Holds, LeftOf, PageOf;
    if w.top == 0 {
      assert at == [];
    } else {
      forall i | 0 <= i < |w.roots| ensures RootReported(w.mem, w.m, w.roots[i], w.top) {
        assert RootFinished(w.mem, w.m, w.roots[i], w.top, at);
      }
      assert at[..w.top] == at;
      forall v: Path | Covers(at, v) ensures UnderRoot(w.roots, v) { assert Covers(w.roots[|w.roots| - 1].0, v); }
    }
  }

  // ----- grafts

  lemma GraftedNowhere(s: Store, under: Mem)
    ensures Grafted(s.View(), {}, under) == s.View()
  {
    hide IndexOf, PageOf, Store.Slot;
  }

  lemma ReadyLeft(w: Progress, at: Path)
    requires ReadyAt(w, at)
    ensures |at| <= KEY_BITS && AllLeft(w.grafts, at)
  {
  }

  lemma GraftedHere(v: Mem, under: Mem, w: Progress, at: Path)
    requires ReadyAt(w, at) && w.mem == Grafted(v, w.grafts, under)
    ensures |at| <= KEY_BITS && w.mem[at] == v[at]
  {
    hide LeftOf;
    assert AllBehind(w.grafts, at);
    NotGrafted(w.grafts, at, at);
  }

  lemma GraftedAt(v: Mem, grafts: set<Path>, under: Mem, p: Path)
    requires 0 < |p| <= KEY_BITS && AllBehind(grafts, p)
    ensures var f := Grafted(v, grafts, under); f[p] == v[p] && f[Sib(p, |p|)] == v[Sib(p, |p|)]
  {
    hide AllBehind, BelowAny;
    NotGrafted(grafts, p, p);
    NotGrafted(grafts, p, Sib(p, |p|));
  }

  lemma ClimbedGrafted(v: Mem, v': Mem, grafts: set<Path>, under: Mem, m: State, p: Path)
    requires 0 < |p| <= KEY_BITS && AllBehind(grafts, p)
    requires v[p] == Sub(m, p) && v[Sib(p, |p|)] == Sub(m, Sib(p, |p|))
    requires Compacted(v, v', p)
    ensures Climbed(Grafted(v, grafts, under), Grafted(v', grafts, under), m, p)
    ensures Grafted(v', grafts, under)[p[..|p| - 1]] == v'[p[..|p| - 1]]
  {
    hide Sub, AllBehind, BelowAny, PathProofs.CompactStep;
    assert p[..|p|] == p;
    PathProofs.CompactStepExact(m, p, |p|);
    NotGrafted(grafts, p, p[..|p| - 1]);
  }

  // ----- working at a position, with grafts

  lemma ReplaceWalk(v: Mem, v': Mem, grafts: set<Path>, under: Mem, m: State, mem0: Mem, m0: State, top: nat,
                    visited: set<Path>, output: UpdatedPages, output': UpdatedPages, roots: seq<(Path, Node)>, at: Path,
                    n: State)
    requires ReadyAt(Progress(Grafted(v, grafts, under), m, mem0, m0, top, visited, grafts, output, roots), at)
    requires |at| <= KEY_BITS && SameOutside(v, v', at) && Holds(v', n, at) && PutOutBelow(output, output', at)
    requires top > 0 ==> |at| > top
    ensures DoneAt(Progress(Grafted(v', grafts, under), Replaced(m, at, n), mem0, m0, top, visited + {at}, grafts,
                            output', roots), at)
  {
    hide Holds, SameOutside, PutOutBelow, Replaced, Grafted, ReadyAt, DoneAt, AllLeft;
    var w := Progress(Grafted(v, grafts, under), m, mem0, m0, top, visited, grafts, output, roots);
    ReadyLeft(w, at);
    ReplaceGrafted(v, v', grafts, under, at, n);
    SettleWalk(w, Progress(Grafted(v', grafts, under), Replaced(m, at, n), mem0, m0, top, visited + {at}, grafts,
                           output', roots), at, n);
  }

  lemma PlaceWalk(v: Mem, grafts: set<Path>, under: Mem, m: State, mem0: Mem, m0: State, top: nat, visited: set<Path>,
                  output: UpdatedPages, roots: seq<(Path, Node)>, at: Path, node: Node, below: Mem, n: State)
    requires ReadyAt(Progress(Grafted(v, grafts, under), m, mem0, m0, top, visited, grafts, output, roots), at)
    requires FitsOver(below, at, node, n) && (top > 0 ==> |at| > top)
    ensures |at| <= KEY_BITS
    ensures DoneAt(Progress(Grafted(v[at := node], grafts + {at}, Under(under, at, below)), Replaced(m, at, n), mem0,
                            m0, top, visited + {at}, grafts + {at}, output, roots), at)
  {
    hide Holds, SameOutside, PutOutBelow, Replaced, Grafted, ReadyAt, DoneAt, AllLeft, FitsOver, Under;
    var w := Progress(Grafted(v, grafts, under), m, mem0, m0, top, visited, grafts, output, roots);
    ReadyLeft(w, at);
    PlaceGrafted(v, grafts, under, at, node, below, n);
    PutOutNothing(output, at);
    SettleWalk(w, Progress(Grafted(v[at := node], grafts + {at}, Under(under, at, below)), Replaced(m, at, n), mem0, m0,
                           top, visited + {at}, grafts + {at}, output, roots), at, n);
  }
}
