/** Updating a whole trie with page walkers: one walker for everything, or one per group of child
    pages and a last one that joins their results in the root page. */
module PageUpdate {
  import opened Wrappers
  import opened Trie
  import opened Update
  import opened Ops
  import opened TriePos
  import opened CountLeaves
  import opened Memory
  import opened PagedMemory
  import opened WalkState
  import opened WalkProgress
  import opened PageWalk
  import opened PageRecords
  import opened LivePages

  /** The operations below one terminal of the trie, and the leaf found there, if any. A task without writes only
      reads. */
  datatype Task = Task(at: Path, prior: Option<LeafData>, ops: seq<KeyOp>, writes: bool)

  ghost predicate TaskOk(m0: State, t: Task) {
    && |t.at| <= KEY_BITS && Reachable(m0, t.at, 0)
    && Sub(m0, t.at) == (if t.prior.Some? then Leaf(t.prior.value) else Terminator)
    && OpsAscending(t.ops) && OpsFit(t)
  }

  ghost predicate OpsFit(t: Task) { OpsUnder(t.ops, t.at) && (!t.writes ==> t.ops == []) }

  ghost predicate TaskBefore(tasks: seq<Task>, i: nat, j: nat)
    requires i < |tasks| && j < |tasks|
  {
    Less(tasks[i].at, tasks[j].at)
  }

  ghost predicate TasksOk(m0: State, tasks: seq<Task>) {
    && (forall i | 0 <= i < |tasks| :: TaskOk(m0, tasks[i]))
    && (forall i, j | 0 <= i < j < |tasks| :: TaskBefore(tasks, i, j))
  }

  /** The pages on the way to a position are stored. */
  ghost predicate WayStored(pages: PageSet, at: Path) {
    at != [] ==> forall n | 0 <= n <= |PageOf(at)| :: PageOf(at)[..n] in pages.pages
  }

  ghost predicate WaysStored(pages: PageSet, tasks: seq<Task>) {
    forall i | 0 <= i < |tasks| :: WayStored(pages, tasks[i].at)
  }

  /** The map after the first `n` tasks. */
  ghost function Updated(m: State, tasks: seq<Task>, n: nat): State
    requires n <= |tasks|
  {
    if n == 0 then m else ApplyOps(Updated(m, tasks, n - 1), tasks[n - 1].ops)
  }

  // ----- what a task does to the map

  lemma InternalAbove(m0: State, a: Path, b: Path)
    requires |b| <= KEY_BITS && Covers(a, b) && a != b && Reachable(m0, b, 0)
    ensures Sub(m0, a).Internal?
  {
    hide Sub;
    assert b[..|a|] == a;
  }

  /** Of two different terminals neither lies below the other. */
  lemma TerminalsApart(m0: State, a: Path, b: Path)
    requires |a| <= KEY_BITS && |b| <= KEY_BITS && Reachable(m0, b, 0) && !Sub(m0, a).Internal? && Less(a, b)
    ensures LeftOf(a, b)
  {
    hide Sub, Reachable;
    if Covers(a, b) { InternalAbove(m0, a, b); }
  }

  lemma PriorMap(m0: State, t: Task)
    requires TaskOk(m0, t)
    ensures AgreeUnder(LeafMap(t.prior), m0, t.at)
    ensures t.prior.Some? ==> Covers(t.at, t.prior.value.keyPath)
  {
    SubKind(m0, t.at);
  }

  /** Splicing in the old leaf and rebuilding below the terminal applies the operations. */
  lemma TaskEffect(m0: State, m: State, t: Task)
    requires TaskOk(m0, t) && AgreeUnder(m0, m, t.at)
    ensures var spliced := LeafOpsSpliced(t.prior, t.ops);
            && Ascending(spliced) && (forall op | op in spliced :: Covers(t.at, op.0))
            && Replaced(m, t.at, MapOf(spliced)) == ApplyOps(m, t.ops)
  {
    hide Sub, MapOf, LeafOpsSpliced, ApplyOps;
    PriorMap(m0, t);
    SplicedEffect(t.prior, t.ops);
    SplicedUnder(t.prior, t.ops, t.at);
    ApplyAgree(LeafMap(t.prior), m, t.ops, t.at);
    forall k: Key | !Covers(t.at, k) ensures SameAt(m, ApplyOps(m, t.ops), k) { ApplyElsewhere(m, t.ops, t.at, k); }
    ReplacedIs(m, t.at, MapOf(LeafOpsSpliced(t.prior, t.ops)), ApplyOps(m, t.ops));
  }

  ghost predicate SameAt(m: State, m': State, k: Key) {
    (k in m <==> k in m') && (k in m ==> m[k] == m'[k])
  }

  lemma ReplacedIs(m: State, x: Path, n: State, m': State)
    requires AgreeUnder(n, m', x) && forall k: Key | !Covers(x, k) :: SameAt(m, m', k)
    ensures Replaced(m, x, n) == m'
  {
    forall k: Key ensures SameAt(Replaced(m, x, n), m', k) {
      if Covers(x, k) {} else { assert SameAt(m, m', k); }
    }
  }

  ghost predicate LeavesAlone(t: Task, k: Key) {
    t.ops == [] || (OpsUnder(t.ops, t.at) && !Covers(t.at, k))
  }

  /** Tasks elsewhere leave a key alone. */
  lemma {:induction false} UpdatedElsewhere(m: State, tasks: seq<Task>, n: nat, k: Key)
    requires n <= |tasks| && forall i | 0 <= i < n :: LeavesAlone(tasks[i], k)
    ensures SameAt(m, Updated(m, tasks, n), k)
  {
    if n > 0 {
      UpdatedElsewhere(m, tasks, n - 1, k);
      assert LeavesAlone(tasks[n - 1], k);
      if tasks[n - 1].ops != [] { ApplyElsewhere(Updated(m, tasks, n - 1), tasks[n - 1].ops, tasks[n - 1].at, k); }
    }
  }

  lemma {:induction false} UpdatedAgree(m: State, m': State, tasks: seq<Task>, n: nat, x: Path)
    requires n <= |tasks| && AgreeUnder(m, m', x)
    ensures AgreeUnder(Updated(m, tasks, n), Updated(m', tasks, n), x)
  {
    if n > 0 {
      UpdatedAgree(m, m', tasks, n - 1, x);
      ApplyAgree(Updated(m, tasks, n - 1), Updated(m', tasks, n - 1), tasks[n - 1].ops, x);
    }
  }

  /** Earlier tasks have not touched what lies below the next one. */
  lemma TaskUntouched(m0: State, tasks: seq<Task>, n: nat)
    requires TasksOk(m0, tasks) && n < |tasks|
    ensures AgreeUnder(m0, Updated(m0, tasks, n), tasks[n].at)
  {
    hide Sub, LeftOf;
    forall k: Key | Covers(tasks[n].at, k) ensures SameAt(m0, Updated(m0, tasks, n), k) {
      forall i | 0 <= i < n ensures LeavesAlone(tasks[i], k) {
        assert TaskOk(m0, tasks[i]) && TaskOk(m0, tasks[n]) && TaskBefore(tasks, i, n);
        TerminalsApart(m0, tasks[i].at, tasks[n].at);
        Disjoint(tasks[n].at, tasks[i].at, k);
      }
      UpdatedElsewhere(m0, tasks, n, k);
    }
  }

  // ----- one walker

  /** The positions written at. */
  ghost function Positions(tasks: seq<Task>, n: nat): set<Path>
    requires n <= |tasks|
  {
    set i | 0 <= i < n && tasks[i].writes :: tasks[i].at
  }

  lemma NextTask(m0: State, tasks: seq<Task>, n: nat)
    requires TasksOk(m0, tasks) && n < |tasks|
    ensures TaskOk(m0, tasks[n]) && (n > 0 ==> LeftOf(tasks[n - 1].at, tasks[n].at))
    ensures var spliced := LeafOpsSpliced(tasks[n].prior, tasks[n].ops);
            && Ascending(spliced) && (forall op | op in spliced :: Covers(tasks[n].at, op.0))
            && Replaced(Updated(m0, tasks, n), tasks[n].at, MapOf(spliced)) == Updated(m0, tasks, n + 1)
  {
    hide Sub, LeftOf, LeafOpsSpliced, MapOf, Replaced, ApplyOps;
    assert TaskOk(m0, tasks[n]);
    TaskUntouched(m0, tasks, n);
    TaskEffect(m0, Updated(m0, tasks, n), tasks[n]);
    if n > 0 {
      assert TaskOk(m0, tasks[n - 1]) && TaskBefore(tasks, n - 1, n);
      TerminalsApart(m0, tasks[n - 1].at, tasks[n].at);
    }
  }

  /** Hand all tasks, in order, to a new walker: it works where something is written and goes on past the rest. */
  method RunTasks(w: PageWalker, tasks: seq<Task>)
    requires w.Valid() && w.journal.model == w.m0 && w.journal.grafts == {} && w.journal.visited == {}
             && w.lastPosition == None
    requires TasksOk(w.m0, tasks) && WaysStored(w.pages, tasks) && forall i | 0 <= i < |tasks| :: w.InScope(tasks[i].at)
    modifies w
    ensures w.Valid()
    ensures w.journal.model == Updated(w.m0, tasks, |tasks|)
    ensures w.journal.grafts == {} && w.journal.visited == Positions(tasks, |tasks|)
  {
    hide PageWalker.Valid, PageWalker.Standing, Sub, LeftOf, PageWalker.InScope, Reachable, ApplyOps, Replaced, MapOf,
      LeafOpsSpliced, TasksOk;
    for n := 0 to |tasks|
      invariant w.Valid() && w.journal.model == Updated(w.m0, tasks, n)
      invariant w.journal.grafts == {} && w.journal.visited == Positions(tasks, n)
      invariant w.lastPosition == if n == 0 then None else Some(tasks[n - 1].at)
    {
      NextTask(w.m0, tasks, n);
      assert WayStored(w.pages, tasks[n].at);
      w.Onto(tasks[n].at);
      if tasks[n].writes {
        w.AdvanceAndReplace(tasks[n].at, LeafOpsSpliced(tasks[n].prior, tasks[n].ops));
      } else {
        ReadsOnly(w.m0, tasks, n);
        Pass(w, tasks[n].at);
      }
    }
  }

  lemma ReadsOnly(m: State, tasks: seq<Task>, n: nat)
    requires n < |tasks| && TaskOk(m, tasks[n]) && !tasks[n].writes
    ensures Updated(m, tasks, n + 1) == Updated(m, tasks, n) && Positions(tasks, n + 1) == Positions(tasks, n)
  {
    hide Sub, Reachable;
  }

  /** Go on past a position to the right. */
  method Pass(w: PageWalker, at: Path)
    requires w.Valid() && |at| <= KEY_BITS && w.InScope(at)
    requires w.lastPosition.Some? ==> LeftOf(w.lastPosition.value, at)
    modifies w
    ensures w.Valid() && w.lastPosition == Some(at) && w.journal == old(w.journal)
  {
    hide LeftOf, PageWalker.InScope, PageWalker.Begun, PageWalker.Untried;
    w.Onto(at);
    w.Advance(at);
    if w.journal.begun { LeftApart(w.position, at); }
    w.OnTheWay();
  }

  function Merged(pages: PageSet, output: UpdatedPages): PageSet {
    PageSet(pages.pages + (map id | id in output :: output[id].page), pages.garbage)
  }

  lemma MergedMem(s: Store)
    requires s.stack == [] && forall x | x in s.tops :: x == []
    ensures s.View() == StoredMem(s.root, Merged(s.pages, s.output))
  {
    hide IndexOf, PageOf;
    var t := Store(s.root, map[], 0, [], map[], Merged(s.pages, s.output));
    assert forall id: PageId :: s.PageAt(id) == t.PageAt(id);
  }

  /** One walker for the whole trie: the root it returns, and the pages it puts out, are those of the
      updated map. */
  method UpdateAll(root: Node, pages: PageSet, tasks: seq<Task>, ghost m0: State)
    returns (newRoot: Node, output: UpdatedPages)
    requires Holds(StoredMem(root, pages), m0, []) && TasksOk(m0, tasks) && WaysStored(pages, tasks)
    ensures newRoot == Root(Updated(m0, tasks, |tasks|))
    ensures Holds(StoredMem(newRoot, Merged(pages, output)), Updated(m0, tasks, |tasks|), [])
    ensures Recorded(pages, m0, output) && LiveAt(Updated(m0, tasks, |tasks|), m0, output, {}, 0, [])
  {
    hide PageWalker.Valid, PageWalker.Standing, PageWalker.View, Holds, TasksOk, WaysStored, Updated, Positions,
      Recorded, LiveAt;
    var w := new PageWalker(root, None, pages, m0);
    RunTasks(w, tasks);
    w.StillStanding();
    var out := w.Conclude();
    newRoot, output := out.root, out.pages;
    Whole(w);
  }

  lemma Whole(w: PageWalker)
    requires w.Concluded() && w.parentPage == None && w.journal.grafts == {}
    ensures w.root == Root(w.journal.model)
    ensures Holds(StoredMem(w.root, Merged(w.pages, w.output)), w.journal.model, [])
  {
    hide Store.View, StoredMem, Grafted;
    w.NoGrafts();
    MergedMem(w.Storage());
    RootOf(w.root, Merged(w.pages, w.output));
  }

  lemma RootOf(root: Node, pages: PageSet)
    ensures StoredMem(root, pages)[[]] == root
  {
  }

  // ----- walkers below the root page, joined in the root page

  /** The position lies in a page properly below the given one. */
  predicate InPart(parent: PageId, at: Path) {
    at != [] && |parent| < |PageOf(at)| && PageOf(at)[..|parent|] == parent
  }

  /** One walker below a parent page: the nodes it reports for that page head the finished parts of
      the updated trie, all tasks lie below those, and so do all pages it puts out. */
  method UpdateBelow(parent: PageId, root: Node, pages: PageSet, tasks: seq<Task>, ghost m0: State)
    returns (roots: seq<(Path, Node)>, output: UpdatedPages, ghost mem: Mem)
    requires Holds(StoredMem(root, pages), m0, []) && TasksOk(m0, tasks) && WaysStored(pages, tasks)
    requires forall i | 0 <= i < |tasks| :: InPart(parent, tasks[i].at)
    ensures RootsReported(mem, Updated(m0, tasks, |tasks|), roots, DEPTH * (|parent| + 1))
    ensures AllUnder(Positions(tasks, |tasks|), roots) && PutOutUnder(output, roots)
    ensures SameDeeper(mem, StoredMem(root, Merged(pages, output)), DEPTH * (|parent| + 1))
    ensures Recorded(pages, m0, output)
            && LiveAt(Updated(m0, tasks, |tasks|), m0, output, {}, DEPTH * (|parent| + 1), [])
  {
    hide PageWalker.Valid, PageWalker.Standing, Recorded, LiveAt, Holds, TasksOk, WaysStored, Updated, Positions,
      Store.View, RootsReported, AllUnder, PutOutUnder;
    var w := new PageWalker(root, Some(parent), pages, m0);
    RunTasks(w, tasks);
    w.StillStanding();
    var out := w.Conclude();
    roots, output, mem := out.roots, out.pages, w.View();
    w.NoGrafts();
    BelowTops(w.Storage(), root, w.Top());
  }

  ghost predicate SameDeeper(mem: Mem, mem': Mem, top: nat) {
    forall x: Path | top < |x| <= KEY_BITS :: mem[x] == mem'[x]
  }

  lemma BelowTops(s: Store, root: Node, top: nat)
    requires s.stack == [] && forall x | x in s.tops :: |x| == top
    ensures SameDeeper(s.View(), StoredMem(root, Merged(s.pages, s.output)), top)
  {
    hide IndexOf, PageOf;
    var t := Store(root, map[], 0, [], map[], Merged(s.pages, s.output));
    assert forall id: PageId :: s.PageAt(id) == t.PageAt(id);
  }

  // ----- placing the reported roots

  ghost function Overlaid(u: State, roots: seq<(Path, Node)>, n: nat, m: State): State
    requires n <= |roots|
  {
    if n == 0 then u else Replaced(Overlaid(u, roots, n - 1, m), roots[n - 1].0, m)
  }

  ghost predicate UnderFirst(roots: seq<(Path, Node)>, n: nat, x: Path)
    requires n <= |roots|
  {
    exists i | 0 <= i < n :: Covers(roots[i].0, x)
  }

  lemma {:induction false} OverlaidAt(u: State, roots: seq<(Path, Node)>, n: nat, m: State, k: Key)
    requires n <= |roots|
    ensures SameAt(if UnderFirst(roots, n, k) then m else u, Overlaid(u, roots, n, m), k)
  {
    if n > 0 {
      OverlaidAt(u, roots, n - 1, m, k);
      assert UnderFirst(roots, n, k) == (UnderFirst(roots, n - 1, k) || Covers(roots[n - 1].0, k));
    }
  }

  ghost function RootPositions(roots: seq<(Path, Node)>, n: nat): set<Path>
    requires n <= |roots|
  {
    set i | 0 <= i < n :: roots[i].0
  }

  /** What lies below the first `n` roots, taken from `mem`. */
  ghost predicate UnderRoots(under: Mem, under': Mem, roots: seq<(Path, Node)>, n: nat, mem: Mem)
    requires n <= |roots|
  {
    forall y: Path | |y| <= KEY_BITS ::
      under'[y] == if BelowAny(RootPositions(roots, n), y) then mem[y] else under[y]
  }

  lemma UnderOneMore(under: Mem, under': Mem, roots: seq<(Path, Node)>, n: nat, mem: Mem)
    requires n < |roots| && UnderRoots(under, under', roots, n, mem)
    ensures UnderRoots(under, Under(under', roots[n].0, mem), roots, n + 1, mem)
  {
    forall y: Path ensures BelowAny(RootPositions(roots, n + 1), y)
                           == (BelowAny(RootPositions(roots, n), y) || ProperlyBelow(roots[n].0, y)) {
      assert RootPositions(roots, n + 1) == RootPositions(roots, n) + {roots[n].0};
      assert ProperlyBelow(roots[n].0, y) ==> roots[n].0 in RootPositions(roots, n + 1);
      assert forall g | g in RootPositions(roots, n) :: g in RootPositions(roots, n + 1);
    }
  }

  /** A reported root may be placed: it is a position of the trie, right of where the walk is. */
  ghost predicate Placeable(w: PageWalker, last: Option<Path>, p: Path) {
    && |p| <= KEY_BITS && Reachable(w.m0, p, 0) && w.InScope(p) && WayStored(w.pages, p)
    && (last.Some? ==> LeftOf(last.value, p))
  }

  lemma ReportedFits(mem: Mem, m: State, e: (Path, Node), top: nat)
    requires RootReported(mem, m, e, top)
    ensures FitsOver(mem, e.0, e.1, m)
  {
    hide Holds;
    assert mem[e.0 := e.1] == mem;
  }

  /** Place all reported roots. */
  method PlaceRoots(w: PageWalker, roots: seq<(Path, Node)>, ghost mem: Mem, ghost m: State, ghost top: nat)
    requires w.Valid() && RootsReported(mem, m, roots, top)
    requires forall i | 0 <= i < |roots| :: Placeable(w, w.lastPosition, roots[i].0)
    modifies w
    ensures w.Valid() && w.journal.model == Overlaid(old(w.journal.model), roots, |roots|, m)
    ensures w.journal.grafts == old(w.journal.grafts) + RootPositions(roots, |roots|)
    ensures UnderRoots(old(w.journal.under), w.journal.under, roots, |roots|, mem)
    ensures w.lastPosition == if roots == [] then old(w.lastPosition) else Some(roots[|roots| - 1].0)
  {
    hide PageWalker.Valid, PageWalker.Standing, Sub, LeftOf, PageWalker.InScope, Reachable, Replaced, Under, FitsOver,
      UnderRoots;
    NoRoots(w.journal.under, roots, mem);
    for n := 0 to |roots|
      invariant w.Valid() && w.journal.model == Overlaid(old(w.journal.model), roots, n, m)
      invariant w.journal.grafts == old(w.journal.grafts) + RootPositions(roots, n)
      invariant UnderRoots(old(w.journal.under), w.journal.under, roots, n, mem)
      invariant w.lastPosition == if n == 0 then old(w.lastPosition) else Some(roots[n - 1].0)
    {
      assert RootReported(mem, m, roots[n], top) && Placeable(w, old(w.lastPosition), roots[n].0);
      assert n > 0 ==> RootBefore(roots, n - 1, n);
      ReportedFits(mem, m, roots[n], top);
      UnderOneMore(old(w.journal.under), w.journal.under, roots, n, mem);
      assert RootPositions(roots, n + 1) == RootPositions(roots, n) + {roots[n].0};
      w.Onto(roots[n].0);
      w.AdvanceAndPlaceNode(roots[n].0, roots[n].1, mem, m);
    }
  }

  lemma NoRoots(under: Mem, roots: seq<(Path, Node)>, mem: Mem)
    ensures UnderRoots(under, under, roots, 0, mem) && RootPositions(roots, 0) == {}
  {
  }

  // ----- cutting the tasks into parts

  /** Where the tasks are cut, neighbours part within the root page. */
  ghost predicate CutOk(tasks: seq<Task>, c: nat) {
    forall i, j | 0 <= i < c <= j < |tasks| :: PartAbove(tasks, i, j)
  }

  ghost predicate PartAbove(tasks: seq<Task>, i: nat, j: nat)
    requires i < |tasks| && j < |tasks|
  {
    SharedBits(tasks[i].at, tasks[j].at) < DEPTH
  }

  /** One terminal in the root page, or terminals in pages below it. */
  predicate IsPart(tasks: seq<Task>, lo: nat, hi: nat)
    requires lo <= hi <= |tasks|
  {
    lo < hi && ((hi == lo + 1 && |tasks[lo].at| <= DEPTH) || forall i | lo <= i < hi :: InPart([], tasks[i].at))
  }

  ghost predicate PartsOk(tasks: seq<Task>, cuts: seq<nat>) {
    && cuts != [] && cuts[0] == 0 && cuts[|cuts| - 1] == |tasks|
    && forall c | 0 <= c < |cuts| - 1 :: PartOk(tasks, cuts[c], cuts[c + 1])
  }

  ghost predicate PartOk(tasks: seq<Task>, lo: nat, hi: nat) {
    lo <= hi <= |tasks| && IsPart(tasks, lo, hi) && CutOk(tasks, lo)
  }

  lemma {:induction false} UpdatedSlice(m: State, tasks: seq<Task>, lo: nat, hi: nat, n: nat)
    requires lo <= hi <= |tasks| && n <= hi - lo
    ensures Updated(Updated(m, tasks, lo), tasks[lo..hi], n) == Updated(m, tasks, lo + n)
  {
    if n > 0 { UpdatedSlice(m, tasks, lo, hi, n - 1); }
  }

  lemma SliceOk(m0: State, pages: PageSet, tasks: seq<Task>, lo: nat, hi: nat)
    requires lo <= hi <= |tasks| && TasksOk(m0, tasks) && WaysStored(pages, tasks)
    ensures TasksOk(m0, tasks[lo..hi]) && WaysStored(pages, tasks[lo..hi])
  {
    hide Sub;
    var slice := tasks[lo..hi];
    forall i | 0 <= i < |slice| ensures TaskOk(m0, slice[i]) && WayStored(pages, slice[i].at) {
      assert TaskOk(m0, tasks[lo + i]) && WayStored(pages, tasks[lo + i].at);
    }
    forall i, j | 0 <= i < j < |slice| ensures TaskBefore(slice, i, j) { assert TaskBefore(tasks, lo + i, lo + j); }
  }

  /** A position that stands for a task in the root page: its own, or cut off at the bottom. */
  ghost predicate StandsFor(p: Path, at: Path) {
    Covers(p, at) && (|p| >= DEPTH || p == at)
  }

  /** Positions that stand for tasks on either side of a cut lie left and right of each other. */
  lemma AcrossCut(m0: State, tasks: seq<Task>, c: nat, i: nat, j: nat, p: Path, q: Path)
    requires TasksOk(m0, tasks) && CutOk(tasks, c) && i < c <= j < |tasks|
    requires StandsFor(p, tasks[i].at) && StandsFor(q, tasks[j].at)
    ensures LeftOf(p, q)
  {
    hide Sub, LeftOf;
    assert TaskOk(m0, tasks[i]) && TaskOk(m0, tasks[j]) && TaskBefore(tasks, i, j) && PartAbove(tasks, i, j);
    TerminalsApart(m0, tasks[i].at, tasks[j].at);
    LeftApart(tasks[i].at, tasks[j].at);
    LeftCut(tasks[i].at, tasks[j].at, |p|, |q|);
    assert tasks[i].at[..|p|] == p && tasks[j].at[..|q|] == q;
  }

  lemma PositionOf(tasks: seq<Task>, v: Path) returns (i: nat)
    requires v in Positions(tasks, |tasks|)
    ensures i < |tasks| && tasks[i].at == v
  {
    i :| 0 <= i < |tasks| && tasks[i].at == v;
  }

  /** Each reported root stands for a task of its part. */
  lemma RootStands(part: seq<Task>, roots: seq<(Path, Node)>, r: nat, mem: Mem, m: State) returns (i: nat)
    requires r < |roots| && RootsReported(mem, m, roots, DEPTH) && AllUnder(Positions(part, |part|), roots)
    ensures i < |part| && StandsFor(roots[r].0, part[i].at) && |roots[r].0| == DEPTH
  {
    hide Holds, Sub, LeftOf, Positions;
    assert RootReported(mem, m, roots[r], DEPTH) && Used(Positions(part, |part|), roots[r].0);
    var v :| v in Positions(part, |part|) && Covers(roots[r].0, v);
    i := PositionOf(part, v);
  }

  lemma PrefixReachable(m0: State, p: Path, at: Path)
    requires |at| <= KEY_BITS && Covers(p, at) && Reachable(m0, at, 0)
    ensures Reachable(m0, p, 0)
  {
    hide Sub;
    forall i | 0 <= i < |p| ensures Sub(m0, p[..i]).Internal? { assert p[..i] == at[..i]; }
  }

  lemma ShallowStored(pages: PageSet, p: Path, at: Path)
    requires Covers(p, at) && |p| == DEPTH && WayStored(pages, at)
    ensures WayStored(pages, p)
  {
    assert PageOf(p) == [] && PageOf(at)[..0] == [];
  }

  lemma SameMaps(m: State, m': State)
    requires forall k: Key :: SameAt(m, m', k)
    ensures m == m'
  {
    assert forall k: Key :: SameAt(m, m', k);
    forall k: Key ensures k in m <==> k in m' { assert SameAt(m, m', k); }
    forall k: Key | k in m ensures m[k] == m'[k] { assert SameAt(m, m', k); }
  }

  /** Overlaying a part's result is running its tasks after those before it. */
  lemma PartEffect(m0: State, u: State, part: seq<Task>, roots: seq<(Path, Node)>)
    requires (forall i | 0 <= i < |part| :: OpsFit(part[i])) && AllUnder(Positions(part, |part|), roots)
    requires forall r | 0 <= r < |roots| :: AgreeUnder(m0, u, roots[r].0)
    ensures Overlaid(u, roots, |roots|, Updated(m0, part, |part|)) == Updated(u, part, |part|)
  {
    hide Updated, ApplyOps, AgreeUnder, Positions, AllUnder, Overlaid, OpsFit;
    forall k: Key ensures SameAt(Overlaid(u, roots, |roots|, Updated(m0, part, |part|)), Updated(u, part, |part|), k) {
      OverlaidAt(u, roots, |roots|, Updated(m0, part, |part|), k);
      PartEffectAt(m0, u, part, roots, k);
    }
    SameMaps(Overlaid(u, roots, |roots|, Updated(m0, part, |part|)), Updated(u, part, |part|));
  }

  lemma PartEffectAt(m0: State, u: State, part: seq<Task>, roots: seq<(Path, Node)>, k: Key)
    requires (forall i | 0 <= i < |part| :: OpsFit(part[i])) && AllUnder(Positions(part, |part|), roots)
    requires forall r | 0 <= r < |roots| :: AgreeUnder(m0, u, roots[r].0)
    ensures SameAt(if UnderFirst(roots, |roots|, k) then Updated(m0, part, |part|) else u, Updated(u, part, |part|), k)
  {
    hide Updated, ApplyOps, OpsUnder, Positions, AgreeUnder, AllUnder, UnderFirst;
    if UnderFirst(roots, |roots|, k) {
      UnderEffect(m0, u, part, roots, k);
    } else {
      forall i | 0 <= i < |part| ensures LeavesAlone(part[i], k) {
        assert OpsFit(part[i]);
        if part[i].writes && Covers(part[i].at, k) { UnderFromTask(part, roots, i, k); }
      }
      UpdatedElsewhere(u, part, |part|, k);
    }
  }

  lemma UnderEffect(m0: State, u: State, part: seq<Task>, roots: seq<(Path, Node)>, k: Key)
    requires UnderFirst(roots, |roots|, k) && forall r | 0 <= r < |roots| :: AgreeUnder(m0, u, roots[r].0)
    ensures SameAt(Updated(m0, part, |part|), Updated(u, part, |part|), k)
  {
    hide Updated;
    var r :| 0 <= r < |roots| && Covers(roots[r].0, k);
    UpdatedAgree(m0, u, part, |part|, roots[r].0);
  }

  lemma UnderFromTask(part: seq<Task>, roots: seq<(Path, Node)>, i: nat, k: Key)
    requires AllUnder(Positions(part, |part|), roots) && i < |part| && part[i].writes && Covers(part[i].at, k)
    ensures UnderFirst(roots, |roots|, k)
  {
    assert part[i].at in Positions(part, |part|);
    var r :| 0 <= r < |roots| && Covers(roots[r].0, part[i].at);
    assert k[..|roots[r].0|] == part[i].at[..|roots[r].0|];
    assert Covers(roots[r].0, k);
  }

  /** Tasks before a part have not touched what lies below its roots. */
  lemma RootUntouched(m0: State, tasks: seq<Task>, lo: nat, j: nat, p: Path)
    requires lo <= j < |tasks| && TasksOk(m0, tasks) && CutOk(tasks, lo) && StandsFor(p, tasks[j].at)
    ensures AgreeUnder(m0, Updated(m0, tasks, lo), p)
  {
    hide Sub, LeftOf, ApplyOps, Updated, OpsUnder;
    forall k: Key | Covers(p, k) ensures SameAt(m0, Updated(m0, tasks, lo), k) {
      forall i | 0 <= i < lo ensures LeavesAlone(tasks[i], k) {
        assert TaskOk(m0, tasks[i]);
        AcrossCut(m0, tasks, lo, i, j, tasks[i].at, p);
        Disjoint(p, tasks[i].at, k);
      }
      UpdatedElsewhere(m0, tasks, lo, k);
    }
  }

  // ----- the pages of all walkers together

  function PageIn(pages: PageSet, output: UpdatedPages, id: PageId): Page {
    if id in output then output[id].page else if id in pages.pages then pages.pages[id] else pages.garbage(id)
  }

  lemma StoredSlot(root: Node, pages: PageSet, output: UpdatedPages, y: Path)
    requires 0 < |y| <= KEY_BITS
    ensures IndexOf(y) < NODES_PER_PAGE
    ensures StoredMem(root, Merged(pages, output))[y] == PageIn(pages, output, PageOf(y))[IndexOf(y)]
  {
    hide PageOf, IndexOf;
    IndexRange(y);
  }

  /** Pages of the walkers below the root page lie below the placed roots, and hold what belongs
      there. */
  ghost predicate SubsOk(root: Node, pages: PageSet, subs: UpdatedPages, grafts: set<Path>, under: Mem) {
    && (forall g | g in grafts :: |g| == DEPTH)
    && (forall y: Path | y != [] && PageOf(y) in subs :: BelowAny(grafts, y))
    && (forall y: Path | |y| <= KEY_BITS && BelowAny(grafts, y) :: SubAt(root, pages, subs, under, y))
  }

  ghost predicate SubAt(root: Node, pages: PageSet, subs: UpdatedPages, under: Mem, y: Path)
    requires |y| <= KEY_BITS
  {
    under[y] == StoredMem(root, Merged(pages, subs))[y]
  }

  lemma InRootPage(y: Path)
    ensures 0 < |y| <= DEPTH ==> PageOf(y) == PageOf([false])
  {
  }

  /** Pages put out below the roots are not the root page, so they lie properly below. */
  lemma ProperlyUnder(output: UpdatedPages, roots: seq<(Path, Node)>, y: Path)
    requires PutOutUnder(output, roots) && y != [] && PageOf(y) in output
    requires forall i | 0 <= i < |roots| :: |roots[i].0| == DEPTH
    ensures BelowAny(RootPositions(roots, |roots|), y)
  {
    InRootPage(y);
    var i :| 0 <= i < |roots| && Covers(roots[i].0, y);
    assert roots[i].0 in RootPositions(roots, |roots|) && ProperlyBelow(roots[i].0, y);
  }

  lemma BelowEither(a: set<Path>, b: set<Path>, y: Path)
    ensures BelowAny(a + b, y) <==> BelowAny(a, y) || BelowAny(b, y)
  {
    assert forall g | g in a || g in b :: g in a + b;
  }

  ghost predicate ApartFrom(grafts: set<Path>, roots: seq<(Path, Node)>) {
    forall g, r | g in grafts && 0 <= r < |roots| :: LeftOf(g, roots[r].0)
  }

  lemma NotBoth(grafts: set<Path>, roots: seq<(Path, Node)>, y: Path)
    requires ApartFrom(grafts, roots) && BelowAny(RootPositions(roots, |roots|), y)
    ensures !BelowAny(grafts, y)
  {
    hide LeftOf;
    var p :| p in RootPositions(roots, |roots|) && ProperlyBelow(p, y);
    var r :| 0 <= r < |roots| && roots[r].0 == p;
    forall g | g in grafts ensures !ProperlyBelow(g, y) { Disjoint(p, g, y); }
  }

  lemma SubsStep(root: Node, pages: PageSet, subs: UpdatedPages, output: UpdatedPages, grafts: set<Path>,
                 under: Mem, under': Mem, roots: seq<(Path, Node)>, mem: Mem)
    requires SubsOk(root, pages, subs, grafts, under) && PutOutUnder(output, roots) && ApartFrom(grafts, roots)
    requires SameDeeper(mem, StoredMem(root, Merged(pages, output)), DEPTH)
    requires UnderRoots(under, under', roots, |roots|, mem)
    requires forall i | 0 <= i < |roots| :: |roots[i].0| == DEPTH
    ensures SubsOk(root, pages, subs + output, grafts + RootPositions(roots, |roots|), under')
  {
    hide PageOf, LeftOf, StoredMem, PutOutUnder, RootPositions, BelowAny, SameDeeper, ApartFrom, UnderRoots;
    var all := grafts + RootPositions(roots, |roots|);
    forall g | g in all ensures |g| == DEPTH { RootDepth(roots, g); }
    forall y: Path | y != [] && PageOf(y) in subs + output ensures BelowAny(all, y) {
      BelowEither(grafts, RootPositions(roots, |roots|), y);
      if PageOf(y) in output { ProperlyUnder(output, roots, y); }
    }
    forall y: Path | |y| <= KEY_BITS && BelowAny(all, y) ensures SubAt(root, pages, subs + output, under', y) {
      BelowEither(grafts, RootPositions(roots, |roots|), y);
      SubsStepAt(root, pages, subs, output, grafts, under, under', roots, mem, y);
    }
  }

  lemma RootDepth(roots: seq<(Path, Node)>, g: Path)
    requires forall i | 0 <= i < |roots| :: |roots[i].0| == DEPTH
    ensures g in RootPositions(roots, |roots|) ==> |g| == DEPTH
  {
  }

  lemma SubsStepAt(root: Node, pages: PageSet, subs: UpdatedPages, output: UpdatedPages, grafts: set<Path>,
                   under: Mem, under': Mem, roots: seq<(Path, Node)>, mem: Mem, y: Path)
    requires SubsOk(root, pages, subs, grafts, under) && PutOutUnder(output, roots) && ApartFrom(grafts, roots)
    requires SameDeeper(mem, StoredMem(root, Merged(pages, output)), DEPTH)
    requires UnderRoots(under, under', roots, |roots|, mem)
    requires forall i | 0 <= i < |roots| :: |roots[i].0| == DEPTH
    requires |y| <= KEY_BITS && (BelowAny(grafts, y) || BelowAny(RootPositions(roots, |roots|), y))
    ensures SubAt(root, pages, subs + output, under', y)
  {
    hide PageOf, IndexOf, LeftOf, StoredMem, PutOutUnder, RootPositions, ApartFrom, BelowAny;
    BelowIsDeep(grafts, roots, y);
    StoredSlot(root, pages, subs, y);
    StoredSlot(root, pages, output, y);
    StoredSlot(root, pages, subs + output, y);
    if BelowAny(RootPositions(roots, |roots|), y) {
      NotBoth(grafts, roots, y);
      assert PageOf(y) !in subs;
    } else {
      if PageOf(y) in output { ProperlyUnder(output, roots, y); }
      assert SubAt(root, pages, subs, under, y);
    }
  }

  lemma BelowIsDeep(grafts: set<Path>, roots: seq<(Path, Node)>, y: Path)
    requires forall g | g in grafts :: |g| == DEPTH
    requires forall i | 0 <= i < |roots| :: |roots[i].0| == DEPTH
    requires BelowAny(grafts, y) || BelowAny(RootPositions(roots, |roots|), y)
    ensures |y| > DEPTH
  {
  }

  /** With the root walker's pages on top, the stored memory is the grafted one. */
  lemma AllTogether(newRoot: Node, root: Node, pages: PageSet, subs: UpdatedPages, output: UpdatedPages,
                    grafts: set<Path>, under: Mem, y: Path)
    requires SubsOk(root, pages, subs, grafts, under) && NoneInGraft(output, grafts) && |y| <= KEY_BITS
    ensures StoredMem(newRoot, Merged(pages, subs + output))[y]
            == Grafted(StoredMem(newRoot, Merged(pages, output)), grafts, under)[y]
  {
    hide PageOf, IndexOf, StoredMem;
    if y == [] {
      RootOf(newRoot, Merged(pages, subs + output));
      RootOf(newRoot, Merged(pages, output));
      assert !BelowAny(grafts, y);
    } else {
      StoredSlot(newRoot, pages, subs + output, y);
      StoredSlot(newRoot, pages, output, y);
      StoredSlot(root, pages, subs, y);
      if BelowAny(grafts, y) {
        assert SubAt(root, pages, subs, under, y);
        assert InGraft(grafts, y);
      }
    }
  }

  // ----- the joined update

  /** The root walker after the tasks up to `n`, with the pages of the walkers below it in `subs`. */
  ghost predicate Joining(w: PageWalker, root: Node, pages: PageSet, tasks: seq<Task>, n: nat, subs: UpdatedPages)
    reads w
  {
    && w.Valid() && w.parentPage == None && w.pages == pages
    && n <= |tasks| && w.journal.model == Updated(w.m0, tasks, n)
    && SubsOk(root, pages, subs, w.journal.grafts, w.journal.under) && Recorded(pages, w.m0, subs)
    && SubsLive(w.journal.model, w.m0, subs, w.journal.grafts)
    && (forall g | g in w.journal.grafts :: StandsBefore(tasks, n, g))
    && (w.lastPosition.Some? ==> StandsBefore(tasks, n, w.lastPosition.value))
  }

  ghost predicate StandsBefore(tasks: seq<Task>, n: nat, p: Path)
    requires n <= |tasks|
  {
    exists i | 0 <= i < n :: StandsFor(p, tasks[i].at)
  }

  /** What stands for a task of the part from `lo` on lies right of all before. */
  lemma NewStands(m0: State, tasks: seq<Task>, lo: nat, j: nat, p: Path, q: Path)
    requires TasksOk(m0, tasks) && CutOk(tasks, lo) && lo <= j < |tasks|
    requires StandsBefore(tasks, lo, p) && StandsFor(q, tasks[j].at)
    ensures LeftOf(p, q)
  {
    hide LeftOf, TasksOk, CutOk;
    var i :| 0 <= i < lo && StandsFor(p, tasks[i].at);
    AcrossCut(m0, tasks, lo, i, j, p, q);
  }

  lemma MoreStands(tasks: seq<Task>, lo: nat, hi: nat, p: Path)
    requires lo <= hi <= |tasks| && (StandsBefore(tasks, lo, p) || exists i | lo <= i < hi :: StandsFor(p, tasks[i].at))
    ensures StandsBefore(tasks, hi, p)
  {
  }

  /** A part that is one terminal in the root page. */
  method JoinTask(w: PageWalker, root: Node, pages: PageSet, tasks: seq<Task>, n: nat, ghost subs: UpdatedPages)
    requires n < |tasks| && Joining(w, root, pages, tasks, n, subs) && CutOk(tasks, n)
    requires TasksOk(w.m0, tasks) && WaysStored(pages, tasks)
    modifies w
    ensures Joining(w, root, pages, tasks, n + 1, subs)
  {
    hide PageWalker.Valid, PageWalker.Standing, Sub, LeftOf, Reachable, ApplyOps, Replaced, MapOf, LeafOpsSpliced,
      TasksOk, CutOk, SubsOk, Recorded, SubsLive;
    ghost var m, grafts := w.journal.model, w.journal.grafts;
    NextTask(w.m0, tasks, n);
    assert WayStored(pages, tasks[n].at) && StandsFor(tasks[n].at, tasks[n].at);
    if w.lastPosition.Some? { NewStands(w.m0, tasks, n, n, w.lastPosition.value, tasks[n].at); }
    forall p: Path | StandsBefore(tasks, n, p) ensures StandsBefore(tasks, n + 1, p) { MoreStands(tasks, n, n + 1, p); }
    GraftsBefore(w.m0, tasks, n, m, MapOf(LeafOpsSpliced(tasks[n].prior, tasks[n].ops)), grafts);
    SubsBelow(root, pages, subs, grafts, w.journal.under);
    w.Onto(tasks[n].at);
    w.AdvanceAndReplace(tasks[n].at, LeafOpsSpliced(tasks[n].prior, tasks[n].ops));
    SubsLiveFrame(m, w.journal.model, w.m0, subs, grafts);
  }

  /** A task in the root page leaves what lies below the grafts before it. */
  lemma GraftsBefore(m0: State, tasks: seq<Task>, n: nat, m: State, spliced: State, grafts: set<Path>)
    requires n < |tasks| && TasksOk(m0, tasks) && CutOk(tasks, n) && forall g | g in grafts :: StandsBefore(tasks, n, g)
    ensures forall g | g in grafts :: AgreeUnder(m, Replaced(m, tasks[n].at, spliced), g)
  {
    hide LeftOf, TasksOk, CutOk, Replaced, AgreeUnder, StandsBefore;
    forall g | g in grafts ensures AgreeUnder(m, Replaced(m, tasks[n].at, spliced), g) {
      NewStands(m0, tasks, n, n, g, tasks[n].at);
      LeftApart(g, tasks[n].at);
      ReplacedApart(m, tasks[n].at, spliced, g);
    }
  }

  lemma SubsBelow(root: Node, pages: PageSet, subs: UpdatedPages, grafts: set<Path>, under: Mem)
    requires SubsOk(root, pages, subs, grafts, under)
    ensures AllUnderGrafts(subs, grafts) && forall g | g in grafts :: |g| == DEPTH
  {
    hide SubAt, PageOf;
    forall y: Path | y != [] && PageOf(y) in subs ensures UnderGraft(grafts, Stem(y)) { StemUnder(grafts, y); }
  }

  lemma StemUnder(grafts: set<Path>, y: Path)
    requires y != [] && BelowAny(grafts, y) && forall g | g in grafts :: |g| == DEPTH
    ensures UnderGraft(grafts, Stem(y))
  {
    var g :| g in grafts && ProperlyBelow(g, y);
    assert Stem(y)[..DEPTH] == y[..DEPTH] == g;
  }

  /** What is needed to place the roots a part reports. */
  lemma RootsPlaceable(w: PageWalker, root: Node, pages: PageSet, tasks: seq<Task>, lo: nat, hi: nat,
                       subs: UpdatedPages, roots: seq<(Path, Node)>, mem: Mem, m: State)
    requires Joining(w, root, pages, tasks, lo, subs) && CutOk(tasks, lo) && lo <= hi <= |tasks|
    requires TasksOk(w.m0, tasks) && WaysStored(pages, tasks)
    requires RootsReported(mem, m, roots, DEPTH) && AllUnder(Positions(tasks[lo..hi], hi - lo), roots)
    ensures forall r | 0 <= r < |roots| ::
              && Placeable(w, w.lastPosition, roots[r].0) && |roots[r].0| == DEPTH
              && StandsBefore(tasks, hi, roots[r].0)
              && AgreeUnder(w.m0, Updated(w.m0, tasks, lo), roots[r].0)
    ensures ApartFrom(w.journal.grafts, roots)
  {
    hide PageWalker.Valid, PageWalker.Standing, Sub, LeftOf, Reachable, Updated, TasksOk, CutOk, SubsOk, RootsReported,
      AllUnder, StandsFor, PageOf;
    forall r | 0 <= r < |roots|
      ensures Placeable(w, w.lastPosition, roots[r].0) && |roots[r].0| == DEPTH && StandsBefore(tasks, hi, roots[r].0)
      ensures AgreeUnder(w.m0, Updated(w.m0, tasks, lo), roots[r].0)
      ensures forall g | g in w.journal.grafts :: LeftOf(g, roots[r].0)
    {
      var i := RootStands(tasks[lo..hi], roots, r, mem, m);
      RootPlaceable(w, pages, tasks, lo, lo + i, roots[r].0);
      RootUntouched(w.m0, tasks, lo, lo + i, roots[r].0);
    }
  }

  lemma RootPlaceable(w: PageWalker, pages: PageSet, tasks: seq<Task>, lo: nat, j: nat, p: Path)
    requires w.parentPage == None && w.pages == pages && lo <= j < |tasks| && CutOk(tasks, lo)
    requires TasksOk(w.m0, tasks) && WaysStored(pages, tasks) && StandsFor(p, tasks[j].at) && |p| == DEPTH
    requires forall g | g in w.journal.grafts :: StandsBefore(tasks, lo, g)
    requires w.lastPosition.Some? ==> StandsBefore(tasks, lo, w.lastPosition.value)
    ensures Placeable(w, w.lastPosition, p)
    ensures forall g | g in w.journal.grafts :: LeftOf(g, p)
  {
    hide Sub, LeftOf, CutOk, PageOf;
    assert TaskOk(w.m0, tasks[j]) && WayStored(pages, tasks[j].at);
    PrefixReachable(w.m0, p, tasks[j].at);
    ShallowStored(pages, p, tasks[j].at);
    if w.lastPosition.Some? { NewStands(w.m0, tasks, lo, j, w.lastPosition.value, p); }
    forall g | g in w.journal.grafts ensures LeftOf(g, p) { NewStands(w.m0, tasks, lo, j, g, p); }
  }

  /** A part that a walker of its own handles below the root page. */
  method JoinPart(w: PageWalker, root: Node, pages: PageSet, tasks: seq<Task>, lo: nat, hi: nat, subs: UpdatedPages)
    returns (subs': UpdatedPages)
    requires Joining(w, root, pages, tasks, lo, subs) && CutOk(tasks, lo) && lo <= hi <= |tasks|
    requires TasksOk(w.m0, tasks) && WaysStored(pages, tasks) && Holds(StoredMem(root, pages), w.m0, [])
    requires forall i | lo <= i < hi :: InPart([], tasks[i].at)
    modifies w
    ensures Joining(w, root, pages, tasks, hi, subs')
  {
    hide PageWalker.Valid, PageWalker.Standing, Holds, Sub, LeftOf, Reachable, Updated, TasksOk, WaysStored, CutOk,
      SubsOk, RootsReported, AllUnder;
    hide StoredMem, PutOutUnder, SameDeeper, UnderRoots, ApartFrom, AgreeUnder, InPart, Recorded, SubsLive, LiveAt;
    ghost var m0, m := w.m0, Updated(w.m0, tasks[lo..hi], hi - lo);
    SliceOk(m0, pages, tasks, lo, hi);
    var roots, output, mem := UpdateBelow([], root, pages, tasks[lo..hi], m0);
    RootsPlaceable(w, root, pages, tasks, lo, hi, subs, roots, mem, m);
    PartApplied(m0, tasks, lo, hi, roots);
    ghost var grafts, under, u := w.journal.grafts, w.journal.under, w.journal.model;
    forall p: Path | StandsBefore(tasks, lo, p) ensures StandsBefore(tasks, hi, p) { MoreStands(tasks, lo, hi, p); }
    PlaceRoots(w, roots, mem, m, DEPTH);
    subs' := subs + output;
    RecordedBoth(pages, m0, subs, output);
    SubsStep(root, pages, subs, output, grafts, under, w.journal.under, roots, mem);
    SubsBelow(root, pages, subs, grafts, under);
    PartLive(u, m, m0, subs, output, grafts, roots, w.journal.model);
  }

  /** The pages of a part's own walker are the right ones for the joined trie. */
  lemma PartLive(u: State, n: State, m0: State, subs: UpdatedPages, output: UpdatedPages, grafts: set<Path>,
                 roots: seq<(Path, Node)>, m: State)
    requires SubsLive(u, m0, subs, grafts) && AllUnderGrafts(subs, grafts) && ApartFrom(grafts, roots)
    requires m == Overlaid(u, roots, |roots|, n) && LiveAt(n, m0, output, {}, DEPTH, []) && PutOutUnder(output, roots)
    requires forall i | 0 <= i < |roots| :: |roots[i].0| == DEPTH
    ensures SubsLive(m, m0, subs + output, grafts + RootPositions(roots, |roots|))
  {
    hide SubsLive, LiveAt, LeftOf, PageOf, AgreeUnder, Overlaid, PutOutUnder, AllUnderGrafts, ApartFrom;
    forall g | g in grafts ensures AgreeUnder(u, m, g) { OverlaidLeft(u, n, grafts, roots, g); }
    SubsLiveFrame(u, m, m0, subs, grafts);
    forall g | g in RootPositions(roots, |roots|) ensures AgreeUnder(n, m, g) { OverlaidUnder(u, n, roots, g); }
    RootsAbove(output, roots);
    SubsLiveMore(m, n, m0, subs, output, grafts, RootPositions(roots, |roots|));
  }

  lemma OverlaidLeft(u: State, n: State, grafts: set<Path>, roots: seq<(Path, Node)>, g: Path)
    requires g in grafts && ApartFrom(grafts, roots)
    ensures AgreeUnder(u, Overlaid(u, roots, |roots|, n), g)
  {
    hide LeftOf, Overlaid;
    forall k: Key | Covers(g, k) ensures SameAt(u, Overlaid(u, roots, |roots|, n), k) {
      forall r | 0 <= r < |roots| ensures !Covers(roots[r].0, k) { LeftMisses(g, roots[r].0, k); }
      OverlaidAt(u, roots, |roots|, n, k);
    }
  }

  lemma OverlaidUnder(u: State, n: State, roots: seq<(Path, Node)>, g: Path)
    requires g in RootPositions(roots, |roots|)
    ensures AgreeUnder(n, Overlaid(u, roots, |roots|, n), g)
  {
    hide Overlaid;
    var r :| 0 <= r < |roots| && roots[r].0 == g;
    forall k: Key | Covers(g, k) ensures SameAt(n, Overlaid(u, roots, |roots|, n), k) {
      assert Covers(roots[r].0, k);
      OverlaidAt(u, roots, |roots|, n, k);
    }
  }

  lemma RootsAbove(output: UpdatedPages, roots: seq<(Path, Node)>)
    requires PutOutUnder(output, roots) && forall i | 0 <= i < |roots| :: |roots[i].0| == DEPTH
    ensures AllUnderGrafts(output, RootPositions(roots, |roots|))
  {
    hide PageOf, PutOutUnder;
    forall y: Path | y != [] && PageOf(y) in output ensures UnderGraft(RootPositions(roots, |roots|), Stem(y)) {
      ProperlyUnder(output, roots, y);
      StemUnder(RootPositions(roots, |roots|), y);
    }
  }

  lemma RecordedBoth(pages: PageSet, m0: State, a: UpdatedPages, b: UpdatedPages)
    requires Recorded(pages, m0, a) && Recorded(pages, m0, b)
    ensures Recorded(pages, m0, a + b)
  {
    hide PageOf, PageRecorded;
  }

  lemma PartApplied(m0: State, tasks: seq<Task>, lo: nat, hi: nat, roots: seq<(Path, Node)>)
    requires lo <= hi <= |tasks| && TasksOk(m0, tasks) && AllUnder(Positions(tasks[lo..hi], hi - lo), roots)
    requires forall r | 0 <= r < |roots| :: AgreeUnder(m0, Updated(m0, tasks, lo), roots[r].0)
    ensures Overlaid(Updated(m0, tasks, lo), roots, |roots|, Updated(m0, tasks[lo..hi], hi - lo))
            == Updated(m0, tasks, hi)
  {
    hide Sub, Updated, AllUnder, AgreeUnder, Overlaid, OpsUnder;
    var part := tasks[lo..hi];
    forall i | 0 <= i < |part| ensures OpsFit(part[i]) { assert TaskOk(m0, tasks[lo + i]); }
    PartEffect(m0, Updated(m0, tasks, lo), part, roots);
    UpdatedSlice(m0, tasks, lo, hi, hi - lo);
  }

  /** One walker per part below the root page, joined by a walker over the root page: the root and
      the stored trie are the same as with one walker for everything. */
  method UpdateSplit(root: Node, pages: PageSet, tasks: seq<Task>, cuts: seq<nat>, ghost m0: State)
    returns (newRoot: Node, output: UpdatedPages)
    requires Holds(StoredMem(root, pages), m0, []) && TasksOk(m0, tasks) && WaysStored(pages, tasks)
    requires PartsOk(tasks, cuts)
    ensures newRoot == Root(Updated(m0, tasks, |tasks|))
    ensures Holds(StoredMem(newRoot, Merged(pages, output)), Updated(m0, tasks, |tasks|), [])
    ensures Recorded(pages, m0, output) && LiveAt(Updated(m0, tasks, |tasks|), m0, output, {}, 0, [])
  {
    hide PageWalker.Valid, PageWalker.Standing, Recorded, LiveAt, SubsLive, Holds, Sub, Updated, TasksOk, WaysStored,
      CutOk, SubsOk, StoredMem, InPart;
    var w := new PageWalker(root, None, pages, m0);
    var subs: UpdatedPages := map[];
    NothingJoined(root, pages, w.journal.under, tasks, m0);
    NoneRecorded(pages, m0);
    SubsLiveFirst(m0, m0);
    for c := 0 to |cuts| - 1
      invariant Joining(w, root, pages, tasks, cuts[c], subs)
    {
      var lo, hi := cuts[c], cuts[c + 1];
      assert PartOk(tasks, lo, hi);
      if hi == lo + 1 && |tasks[lo].at| <= DEPTH {
        JoinTask(w, root, pages, tasks, lo, subs);
      } else {
        subs := JoinPart(w, root, pages, tasks, lo, hi, subs);
      }
    }
    w.StillStanding();
    var out := w.Conclude();
    newRoot, output := out.root, subs + out.pages;
    Joined(w, root, pages, subs);
    RecordedBoth(pages, m0, subs, out.pages);
    SubsBelow(root, pages, subs, w.journal.grafts, w.journal.under);
    LiveJoin(w.journal.model, m0, subs, out.pages, w.journal.grafts);
  }

  lemma NoneRecorded(pages: PageSet, m0: State)
    ensures Recorded(pages, m0, map[])
  {
  }

  lemma NothingJoined(root: Node, pages: PageSet, under: Mem, tasks: seq<Task>, m0: State)
    ensures SubsOk(root, pages, map[], {}, under) && Updated(m0, tasks, 0) == m0
  {
  }

  lemma Joined(w: PageWalker, root: Node, pages: PageSet, subs: UpdatedPages)
    requires w.Concluded() && w.parentPage == None && w.pages == pages
    requires SubsOk(root, pages, subs, w.journal.grafts, w.journal.under)
    ensures w.root == Root(w.journal.model)
    ensures Holds(StoredMem(w.root, Merged(pages, subs + w.output)), w.journal.model, [])
  {
    hide Store.View, StoredMem, Grafted, SubsOk, NoneInGraft, Sub;
    MergedMem(w.Storage());
    var mem := StoredMem(w.root, Merged(pages, subs + w.output));
    forall y: Path | |y| <= KEY_BITS ensures mem[y] == w.Full()[y] {
      AllTogether(w.root, root, pages, subs, w.output, w.journal.grafts, w.journal.under, y);
    }
    HoldsFrame(w.Full(), mem, w.journal.model, w.journal.model, []);
    RootOf(w.root, Merged(pages, subs + w.output));
  }
}
