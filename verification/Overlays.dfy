/** Chains of in-memory overlays: finding the newest change of a page or a value through an index, while
    ancestors are committed from the old end. */
module Overlays {
  import opened Wrappers
  import opened TriePos
  import opened SeqnIndex

  type KeyPath = nat
  type DirtyPage = nat
  type ValueChange = Option<seq<nat>>
  type Root = nat

  datatype State = Live | Dropped | Committed

  class Status {
    var state: State

    constructor ()
      ensures state == Live
    {
      state := Live;
    }

    method Commit()
      modifies this
      ensures state == Committed
    {
      state := Committed;
    }

    method Drop()
      modifies this
      ensures state == if old(state) == Live then Dropped else old(state)
    {
      if state == Live { state := Dropped; }
    }
  }

  /** The changes of one overlay. */
  class Data {
    const pages: map<PageId, DirtyPage>
    const values: map<KeyPath, ValueChange>
    const status: Status
    const parentStatus: Option<Status>
    /** Whether anything still holds on to it. */
    var alive: bool
    /** The data of all its ancestors, oldest first. */
    ghost const history: seq<Data>

    constructor (pages: map<PageId, DirtyPage>, values: map<KeyPath, ValueChange>, parentStatus: Option<Status>,
                 ghost history: seq<Data>)
      ensures this.pages == pages && this.values == values && this.parentStatus == parentStatus
              && this.history == history
      ensures alive && fresh(status) && status.state == Live
    {
      this.pages, this.values, this.parentStatus, this.history, alive := pages, values, parentStatus, history, true;
      status := new Status();
    }
  }

  datatype Overlay = Overlay(prevRoot: Root, root: Root, pages: Index<PageId>, values: Index<KeyPath>, data: Data,
                             seqn: nat, ancestors: seq<Data>)

  // ----- chains

  /** From the first ancestor to the data itself. */
  ghost function Line(d: Data): seq<Data> { d.history + [d] }

  ghost predicate ParentOk(d: Data) {
    d.parentStatus == if d.history == [] then None else Some(d.history[|d.history| - 1].status)
  }

  ghost predicate AncestorOk(d: Data, s: nat)
    requires s < |d.history|
  {
    d.history[s].history == d.history[..s] && ParentOk(d.history[s])
  }

  ghost predicate Chained(d: Data) {
    ParentOk(d) && forall s | 0 <= s < |d.history| :: AncestorOk(d, s)
  }

  ghost function PageSets(line: seq<Data>): seq<set<PageId>> {
    seq(|line|, s requires 0 <= s < |line| => line[s].pages.Keys)
  }

  ghost function ValueSets(line: seq<Data>): seq<set<KeyPath>> {
    seq(|line|, s requires 0 <= s < |line| => line[s].values.Keys)
  }

  /** The overlay knows its ancestors, newest first, down to some point, and its index covers all
      changes from there on. */
  ghost predicate OverlayOk(o: Overlay) {
    && Chained(o.data) && o.seqn == |o.data.history| && |o.ancestors| <= o.seqn
    && (forall i | 0 <= i < |o.ancestors| :: o.ancestors[i] == o.data.history[o.seqn - 1 - i])
    && Covers(o.pages, PageSets(Line(o.data)), o.seqn - |o.ancestors|)
    && Covers(o.values, ValueSets(Line(o.data)), o.seqn - |o.ancestors|)
  }

  datatype LiveOverlay = LiveOverlay(parent: Option<Overlay>, ancestorData: seq<Data>, minSeqn: nat) {
    ghost predicate Ok() {
      if parent.None? then ancestorData == [] && minSeqn == 0
      else
        && OverlayOk(parent.value) && ancestorData <= parent.value.ancestors
        && minSeqn == parent.value.seqn - |ancestorData|
    }

    /** The data that can be searched, newest first. */
    ghost function Searched(): seq<Data> {
      if parent.None? then [] else [parent.value.data] + ancestorData
    }

    /** The page change the index points to. */
    function Page(id: PageId): Option<DirtyPage>
      requires Ok()
    {
      if parent.None? || id !in parent.value.pages.latest || parent.value.pages.latest[id] < minSeqn then None
      else
        var diff := parent.value.pages.latest[id] - minSeqn;
        PageBacked(this, id);
        if diff == |ancestorData| then Some(parent.value.data.pages[id])
        else Some(ancestorData[|ancestorData| - diff - 1].pages[id])
    }

    /** The value change the index points to. */
    function Value(k: KeyPath): Option<ValueChange>
      requires Ok()
    {
      if parent.None? || k !in parent.value.values.latest || parent.value.values.latest[k] < minSeqn then None
      else
        var diff := parent.value.values.latest[k] - minSeqn;
        ValueBacked(this, k);
        if diff == |ancestorData| then Some(parent.value.data.values[k])
        else Some(ancestorData[|ancestorData| - diff - 1].values[k])
    }
  }

  /** Newest-first search. */
  ghost function NewestPage(list: seq<Data>, id: PageId): Option<DirtyPage> {
    if list == [] then None else if id in list[0].pages then Some(list[0].pages[id]) else NewestPage(list[1..], id)
  }

  ghost function NewestValue(list: seq<Data>, k: KeyPath): Option<ValueChange> {
    if list == [] then None else if k in list[0].values then Some(list[0].values[k]) else NewestValue(list[1..], k)
  }

  // ----- the index agrees with the search

  /** What is searched is the line of data from the newest down to the minimum. */
  lemma SearchedIs(l: LiveOverlay, j: nat)
    requires l.Ok() && l.parent.Some? && j <= |l.ancestorData|
    ensures l.Searched()[j] == Line(l.parent.value.data)[l.parent.value.seqn - j]
  {
    hide Chained, Covers;
    if j > 0 { assert l.ancestorData[j - 1] == l.parent.value.ancestors[j - 1]; }
  }

  lemma PageBacked(l: LiveOverlay, id: PageId)
    requires l.Ok() && l.parent.Some? && id in l.parent.value.pages.latest
             && l.parent.value.pages.latest[id] >= l.minSeqn
    ensures var diff := l.parent.value.pages.latest[id] - l.minSeqn;
            && diff <= |l.ancestorData|
            && id in l.Searched()[|l.ancestorData| - diff].pages
            && if diff == |l.ancestorData| then id in l.parent.value.data.pages
               else id in l.ancestorData[|l.ancestorData| - diff - 1].pages
  {
    hide Chained, Covers;
    var o := l.parent.value;
    var s := o.pages.latest[id];
    IsWritten(o.pages, PageSets(Line(o.data)), o.seqn - |o.ancestors|, id);
    SearchedIs(l, o.seqn - s);
  }

  lemma ValueBacked(l: LiveOverlay, k: KeyPath)
    requires l.Ok() && l.parent.Some? && k in l.parent.value.values.latest
             && l.parent.value.values.latest[k] >= l.minSeqn
    ensures var diff := l.parent.value.values.latest[k] - l.minSeqn;
            && diff <= |l.ancestorData|
            && k in l.Searched()[|l.ancestorData| - diff].values
            && if diff == |l.ancestorData| then k in l.parent.value.data.values
               else k in l.ancestorData[|l.ancestorData| - diff - 1].values
  {
    hide Chained, Covers;
    var o := l.parent.value;
    var s := o.values.latest[k];
    IsWritten(o.values, ValueSets(Line(o.data)), o.seqn - |o.ancestors|, k);
    SearchedIs(l, o.seqn - s);
  }

  lemma {:induction false} NewestPageIs(list: seq<Data>, id: PageId, j: nat)
    requires j <= |list| && (forall i | 0 <= i < j :: id !in list[i].pages) && (j < |list| ==> id in list[j].pages)
    ensures NewestPage(list, id) == if j < |list| then Some(list[j].pages[id]) else None
  {
    if j > 0 { NewestPageIs(list[1..], id, j - 1); }
  }

  lemma {:induction false} NewestValueIs(list: seq<Data>, k: KeyPath, j: nat)
    requires j <= |list| && (forall i | 0 <= i < j :: k !in list[i].values) && (j < |list| ==> k in list[j].values)
    ensures NewestValue(list, k) == if j < |list| then Some(list[j].values[k]) else None
  {
    if j > 0 { NewestValueIs(list[1..], k, j - 1); }
  }

  lemma PageAbsent(l: LiveOverlay, id: PageId, i: nat)
    requires l.Ok() && l.parent.Some? && i <= |l.ancestorData|
    requires id in l.parent.value.pages.latest ==> l.parent.value.pages.latest[id] < l.parent.value.seqn - i
    ensures id !in l.Searched()[i].pages
  {
    hide Chained, Covers;
    var o := l.parent.value;
    SearchedIs(l, i);
    var line, n := Line(o.data), o.seqn - i;
    assert PageSets(line)[n] == line[n].pages.Keys;
    NotWritten(o.pages, PageSets(line), o.seqn - |o.ancestors|, id, n);
  }

  lemma ValueAbsent(l: LiveOverlay, k: KeyPath, i: nat)
    requires l.Ok() && l.parent.Some? && i <= |l.ancestorData|
    requires k in l.parent.value.values.latest ==> l.parent.value.values.latest[k] < l.parent.value.seqn - i
    ensures k !in l.Searched()[i].values
  {
    hide Chained, Covers;
    var o := l.parent.value;
    SearchedIs(l, i);
    var line, n := Line(o.data), o.seqn - i;
    assert ValueSets(line)[n] == line[n].values.Keys;
    NotWritten(o.values, ValueSets(line), o.seqn - |o.ancestors|, k, n);
  }

  /** The overlay the index points to holds the page that is given. */
  lemma PageLands(l: LiveOverlay, id: PageId)
    requires l.Ok() && l.parent.Some?
    ensures var latest := l.parent.value.pages.latest;
            if id in latest && latest[id] >= l.minSeqn
            then var j := l.parent.value.seqn - latest[id];
                 0 <= j < |l.Searched()| && id in l.Searched()[j].pages && l.Page(id) == Some(l.Searched()[j].pages[id])
            else l.Page(id) == None
  {
    hide OverlayOk;
    var latest := l.parent.value.pages.latest;
    if id in latest && latest[id] >= l.minSeqn { PageBacked(l, id); }
  }

  lemma SearchedAll(l: LiveOverlay)
    requires l.Ok() && l.parent.Some?
    ensures |l.Searched()| == |l.ancestorData| + 1 && l.minSeqn == l.parent.value.seqn - |l.ancestorData|
  {
  }

  lemma PageNowhere(l: LiveOverlay, id: PageId)
    requires l.Ok() && l.parent.None?
    ensures l.Page(id) == None == NewestPage(l.Searched(), id)
  {
  }

  /** Looking a page up through the index is newest-first search over the live ancestors. */
  lemma PageIsNewest(l: LiveOverlay, id: PageId)
    requires l.Ok()
    ensures l.Page(id) == NewestPage(l.Searched(), id)
  {
    hide OverlayOk, LiveOverlay.Ok, LiveOverlay.Page, LiveOverlay.Searched, NewestPage;
    if l.parent.None? {
      PageNowhere(l, id);
    } else {
      SearchedAll(l);
      var o, n := l.parent.value, |l.ancestorData|;
      var found := id in o.pages.latest && o.pages.latest[id] >= l.minSeqn;
      PageLands(l, id);
      var j := if found then o.seqn - o.pages.latest[id] else n + 1;
      forall i | 0 <= i < j ensures id !in l.Searched()[i].pages { PageAbsent(l, id, i); }
      NewestPageIs(l.Searched(), id, j);
    }
  }

  lemma ValueLands(l: LiveOverlay, k: KeyPath)
    requires l.Ok() && l.parent.Some?
    ensures var latest := l.parent.value.values.latest;
            if k in latest && latest[k] >= l.minSeqn
            then var j := l.parent.value.seqn - latest[k];
                 0 <= j < |l.Searched()| && k in l.Searched()[j].values && l.Value(k) == Some(l.Searched()[j].values[k])
            else l.Value(k) == None
  {
    hide OverlayOk;
    var latest := l.parent.value.values.latest;
    if k in latest && latest[k] >= l.minSeqn { ValueBacked(l, k); }
  }

  lemma ValueNowhere(l: LiveOverlay, k: KeyPath)
    requires l.Ok() && l.parent.None?
    ensures l.Value(k) == None == NewestValue(l.Searched(), k)
  {
  }

  /** Looking a value up through the index is newest-first search over the live ancestors. */
  lemma ValueIsNewest(l: LiveOverlay, k: KeyPath)
    requires l.Ok()
    ensures l.Value(k) == NewestValue(l.Searched(), k)
  {
    hide OverlayOk, LiveOverlay.Ok, LiveOverlay.Value, LiveOverlay.Searched, NewestValue;
    if l.parent.None? {
      ValueNowhere(l, k);
    } else {
      SearchedAll(l);
      var o, n := l.parent.value, |l.ancestorData|;
      var found := k in o.values.latest && o.values.latest[k] >= l.minSeqn;
      ValueLands(l, k);
      var j := if found then o.seqn - o.values.latest[k] else n + 1;
      forall i | 0 <= i < j ensures k !in l.Searched()[i].values { ValueAbsent(l, k, i); }
      NewestValueIs(l.Searched(), k, j);
    }
  }

  // ----- creating and finishing a live overlay

  datatype InvalidAncestors = NotAncestor | Incomplete

  ghost function Checked(live: seq<Overlay>): nat
    requires live != []
  {
    if |live| - 1 < |live[0].ancestors| then |live| - 1 else |live[0].ancestors|
  }

  ghost predicate Matches(live: seq<Overlay>, i: nat)
    requires live != [] && i + 1 < |live| && i < |live[0].ancestors|
    reads live[0].ancestors[i]
  {
    live[0].ancestors[i].alive && live[i + 1].data == live[0].ancestors[i]
  }

  /** The oldest of the data has no parent, or a committed one. */
  ghost predicate EndsCommitted(d: Data)
    reads if d.parentStatus.Some? then {d.parentStatus.value} else {}
  {
    d.parentStatus.Some? ==> d.parentStatus.value.state == Committed
  }

  lemma AncestorsFit(o: Overlay)
    requires OverlayOk(o)
    ensures |o.ancestors| <= o.seqn
  {
    hide Chained, Covers;
  }

  /** Build on the given overlays, the parent first: they must be its ancestors in order, and none
      that is not committed may be missing. */
  method NewLive(live: seq<Overlay>) returns (r: Result<LiveOverlay, InvalidAncestors>)
    requires forall i | 0 <= i < |live| :: OverlayOk(live[i])
    ensures live == [] ==> r == Ok(LiveOverlay(None, [], 0))
    ensures r.Ok? ==> r.value.Ok()
    ensures live != [] && r.Ok? ==>
              && r.value.parent == Some(live[0]) && r.value.ancestorData == live[0].ancestors[..Checked(live)]
              && (forall i | 0 <= i < Checked(live) :: Matches(live, i))
              && EndsCommitted(r.value.Searched()[Checked(live)])
    ensures live != [] && r.Err? ==>
              || (exists i | 0 <= i < Checked(live) :: !Matches(live, i))
              || !EndsCommitted(([live[0].data] + live[0].ancestors)[Checked(live)])
  {
    hide OverlayOk;
    if live == [] { return Ok(LiveOverlay(None, [], 0)); }
    var parent, ancestorData := live[0], [];
    assert OverlayOk(parent) && |parent.ancestors| <= parent.seqn by { AncestorsFit(parent); }
    var i := 0;
    while i + 1 < |live| && i < |parent.ancestors|
      invariant 0 <= i <= Checked(live) && ancestorData == parent.ancestors[..i]
      invariant forall j | 0 <= j < i :: Matches(live, j)
    {
      var actual := parent.ancestors[i];
      if !actual.alive {
        assert !Matches(live, i);
        return Err(Incomplete);
      }
      if live[i + 1].data != actual {
        assert !Matches(live, i);
        return Err(NotAncestor);
      }
      ancestorData := ancestorData + [actual];
      i := i + 1;
    }
    var oldest := if ancestorData == [] then parent.data else ancestorData[|ancestorData| - 1];
    if oldest.parentStatus.Some? && oldest.parentStatus.value.state != Committed { return Err(Incomplete); }
    r := Ok(LiveOverlay(Some(parent), ancestorData, parent.seqn - |ancestorData|));
  }

  /** Freeze the changes of a session into an overlay on top of its parent. */
  method Finish(l: LiveOverlay, prevRoot: Root, root: Root, pages: map<PageId, DirtyPage>,
                values: map<KeyPath, ValueChange>)
    returns (o: Overlay)
    requires l.Ok()
    ensures o.prevRoot == prevRoot && o.root == root
    ensures OverlayOk(o) && fresh(o.data) && fresh(o.data.status) && o.data.pages == pages && o.data.values == values
    ensures o.ancestors == l.Searched() && o.data.status.state == Live
    ensures o.data.history == if l.parent.Some? then Line(l.parent.value.data) else []
  {
    hide Covers, Chained, PageSets, ValueSets;
    ghost var line := if l.parent.Some? then Line(l.parent.value.data) else [];
    ghost var lo := if l.parent.Some? then l.parent.value.seqn - |l.parent.value.ancestors| else 0;
    var seqn := if l.parent.Some? then l.parent.value.seqn + 1 else 0;
    EmptyCovers<PageId>(0);
    EmptyCovers<KeyPath>(0);
    NoSets();
    SetSizes(line);
    var pageIndex := if l.parent.Some? then l.parent.value.pages else Index(map[], []);
    var valueIndex := if l.parent.Some? then l.parent.value.values else Index(map[], []);
    var prunedPages := PruneBelow(pageIndex, l.minSeqn, PageSets(line), lo);
    PrunedCovers(pageIndex, prunedPages, PageSets(line), lo, l.minSeqn);
    var prunedValues := PruneBelow(valueIndex, l.minSeqn, ValueSets(line), lo);
    PrunedCovers(valueIndex, prunedValues, ValueSets(line), lo, l.minSeqn);
    var newPages := Insert(prunedPages, seqn, pages.Keys, PageSets(line), l.minSeqn);
    var newValues := Insert(prunedValues, seqn, values.Keys, ValueSets(line), l.minSeqn);
    var parentStatus := if l.parent.Some? then Some(l.parent.value.data.status) else None;
    var data := new Data(pages, values, parentStatus, line);
    SetsSnoc(line, data);
    if l.parent.Some? { ChainedSnoc(l.parent.value.data, data); } else { ChainedFirst(data); }
    var ancestors := if l.parent.Some? then [l.parent.value.data] + l.ancestorData else [];
    o := Overlay(prevRoot, root, newPages, newValues, data, seqn, ancestors);
  }

  lemma SetSizes(line: seq<Data>)
    ensures |PageSets(line)| == |line| == |ValueSets(line)|
  {
  }

  lemma SetsSnoc(line: seq<Data>, d: Data)
    ensures PageSets(line + [d]) == PageSets(line) + [d.pages.Keys]
    ensures ValueSets(line + [d]) == ValueSets(line) + [d.values.Keys]
  {
  }

  lemma ChainedSnoc(p: Data, d: Data)
    requires Chained(p) && d.history == Line(p) && d.parentStatus == Some(p.status)
    ensures Chained(d)
  {
    forall s | 0 <= s < |d.history| ensures AncestorOk(d, s) {
      if s < |p.history| {
        assert AncestorOk(p, s);
        assert d.history[s] == p.history[s] && d.history[..s] == p.history[..s];
      } else {
        assert d.history[..s] == p.history;
      }
    }
  }

  lemma ChainedFirst(d: Data)
    requires d.history == [] && d.parentStatus == None
    ensures Chained(d)
  {
  }

  lemma NoSets()
    ensures PageSets([]) == [] && ValueSets([]) == []
  {
  }

  // ----- committing

  /** Whatever is committed has a committed parent. */
  ghost predicate OldestFirst(all: set<Data>)
    reads all, set d | d in all :: d.status
  {
    forall d | d in all && d.status.state == Committed && d.history != [] ::
      d.history[|d.history| - 1] in all && d.history[|d.history| - 1].status.state == Committed
  }

  /** The root of the store, the last overlay committed to it if nothing else was since, all overlays there
      are, and those whose changes the store has. */
  class Database {
    var root: Root
    var lastCommitted: Option<Status>
    ghost var all: set<Data>
    ghost var saved: set<Data>

    ghost predicate Valid()
      reads this, all, set d | d in all :: d.status
    {
      && (forall d | d in all :: Chained(d) && forall s | 0 <= s < |d.history| :: d.history[s] in all)
      && (forall d, e | d in all && e in all && d != e :: d.status != e.status)
      && OldestFirst(all)
      && (lastCommitted.Some? ==> exists d | d in all :: d.status == lastCommitted.value && d.status.state == Committed)
    }

    /** What is marked as committed is in the store. */
    ghost predicate AllSaved()
      reads this, all, set d | d in all :: d.status
    {
      forall d | d in all && d.status.state == Committed :: d in saved
    }

    constructor (root: Root)
      ensures Valid() && AllSaved() && all == saved == {} && this.root == root
    {
      this.root, lastCommitted, all, saved := root, None, {}, {};
    }

    /** Take note of a finished overlay. */
    ghost method Add(o: Overlay)
      requires Valid() && Chained(o.data) && o.data !in all && o.data.status.state == Live
      requires forall d | d in all :: d.status != o.data.status
      requires forall s | 0 <= s < |o.data.history| :: o.data.history[s] in all
      modifies this`all
      ensures Valid() && all == old(all) + {o.data} && (old(AllSaved()) ==> AllSaved())
    {
      hide Chained;
      all := all + {o.data};
    }

    /** The overlay has no parent, or the last one committed. */
    predicate Follows(o: Overlay)
      reads this
    {
      o.data.parentStatus.None? || o.data.parentStatus == lastCommitted
    }

    /** Commit an overlay: it must follow the last one committed and be based on the root of the store. It is
        marked as committed before the root is looked at, so what is marked stays saved if and only if
        the root is right. */
    method Commit(o: Overlay) returns (ok: bool)
      requires Valid() && o.data in all
      modifies this`root, this`lastCommitted, this`saved, o.data.status
      ensures Valid() && ok == old(Follows(o) && root == o.prevRoot)
      ensures o.data.status.state == if old(Follows(o)) then Committed else old(o.data.status.state)
      ensures if ok then root == o.root && lastCommitted == Some(o.data.status) && saved == old(saved) + {o.data}
              else root == old(root) && lastCommitted == old(lastCommitted) && saved == old(saved)
      ensures old(AllSaved()) ==>
                (AllSaved() <==> old(Follows(o) ==> root == o.prevRoot || o.data in saved))
    {
      hide Chained;
      if !Follows(o) { return false; }
      Mark(o.data);
      if root != o.prevRoot { return false; }
      root, lastCommitted, saved := o.root, Some(o.data.status), saved + {o.data};
      return true;
    }

    method Mark(d: Data)
      requires Valid() && d in all && (d.parentStatus.None? || d.parentStatus == lastCommitted)
      modifies d.status
      ensures Valid() && d.status.state == Committed
      ensures forall e | e in all && e != d :: e.status.state == old(e.status.state)
    {
      hide Chained;
      if d.history != [] { ParentOf(d); }
      d.status.Commit();
    }

    /** The parent of an overlay that may be committed is. */
    lemma ParentOf(d: Data)
      requires Valid() && d in all && d.history != [] && (d.parentStatus.None? || d.parentStatus == lastCommitted)
      ensures d.history[|d.history| - 1] in all && d.history[|d.history| - 1].status.state == Committed
    {
      var p := d.history[|d.history| - 1];
      assert Chained(d) && p in all;
    }

    /** Commit a session that was not turned into an overlay. */
    method CommitSession(prevRoot: Root, newRoot: Root) returns (ok: bool)
      requires Valid()
      modifies this`root, this`lastCommitted
      ensures Valid() && ok == (old(root) == prevRoot) && (old(AllSaved()) ==> AllSaved())
      ensures if ok then root == newRoot && lastCommitted == None
              else root == old(root) && lastCommitted == old(lastCommitted)
    {
      ok := root == prevRoot;
      if ok { root, lastCommitted := newRoot, None; }
    }

    /** Nothing holds on to the data any more. */
    method DropData(d: Data)
      requires Valid() && d in all
      modifies d`alive, d.status
      ensures Valid() && !d.alive && (old(AllSaved()) ==> AllSaved())
      ensures d.status.state == if old(d.status.state) == Live then Dropped else old(d.status.state)
    {
      d.alive := false;
      d.status.Drop();
    }

    /** When the oldest data that is searched ends in a committed parent, all older data is committed: if that
        is saved, nothing that only lives in overlays is missing. */
    lemma {:induction false} NothingMissing(d: Data, s: nat)
      requires Valid() && d in all && s < |d.history| && EndsCommitted(Line(d)[s + 1])
      ensures forall t | 0 <= t <= s :: d.history[t].status.state == Committed
      ensures AllSaved() ==> forall t | 0 <= t <= s :: d.history[t] in saved
      decreases s
    {
      hide Chained;
      var e := d.history[s];
      LineParent(d, s);
      assert d in all && e in all;
      if s > 0 {
        assert e.history != [] ==> e.history[|e.history| - 1].status.state == Committed;
        LineParent(d, s - 1);
        NothingMissing(d, s - 1);
      }
    }
  }

  /** Along a line each one's parent is the one before it. */
  lemma LineParent(d: Data, s: nat)
    requires Chained(d) && s < |d.history|
    ensures Line(d)[s + 1].parentStatus == Some(d.history[s].status)
    ensures Line(d)[s + 1].history != [] && Line(d)[s + 1].history[|Line(d)[s + 1].history| - 1] == d.history[s]
    ensures Line(d)[s] == d.history[s]
  {
    var next := Line(d)[s + 1];
    if s + 1 < |d.history| {
      assert AncestorOk(d, s + 1);
      assert next == d.history[s + 1] && ParentOk(next) && next.history == d.history[..s + 1];
    } else {
      assert next == d;
    }
  }

  // ----- two cases

  /** Overlays beyond the ancestors the first one knows are not looked at: one that has nothing to do with it is
      accepted. */
  method AcceptForeign() returns (a: Overlay, b: Overlay, r: Result<LiveOverlay, InvalidAncestors>)
    ensures a.data != b.data && a.ancestors == [] && OverlayOk(a) && OverlayOk(b)
    ensures r == Ok(LiveOverlay(Some(a), [], 0))
  {
    hide Chained, Covers;
    var none := NewLive([]);
    a := Finish(none.value, 0, 1, map[], map[]);
    b := Finish(none.value, 0, 2, map[], map[]);
    FirstHasNoParent(a);
    r := NewLive([a, b]);
  }

  lemma FirstHasNoParent(o: Overlay)
    requires OverlayOk(o) && o.data.history == []
    ensures o.data.parentStatus == None && o.seqn == 0 && o.ancestors == []
  {
  }

  lemma NextHasParent(o: Overlay, p: Data)
    requires OverlayOk(o) && o.data.history == [p]
    ensures o.data.parentStatus == Some(p.status) && o.seqn == 1
  {
  }

  /** An overlay on root 0 that changes a value. */
  method FirstOverlay() returns (db: Database, a: Overlay)
    ensures fresh(db) && fresh(a.data) && fresh(a.data.status) && db.Valid() && db.root == 0 && db.saved == {}
    ensures OverlayOk(a) && db.all == {a.data} && a.data.history == [] && a.prevRoot == 0
    ensures a.data.parentStatus == None && a.data.status.state == Live && a.data.values == map[7 := Some([1])]
  {
    hide Chained, Covers, Database.Valid, LiveOverlay.Ok;
    db := new Database(0);
    var none := NewLive([]);
    a := Finish(none.value, 0, 1, map[], map[7 := Some([1])]);
    FirstHasNoParent(a);
    db.Add(a);
  }

  /** The same, and a child of it. */
  method TwoOverlays() returns (db: Database, a: Overlay, b: Overlay)
    ensures fresh(db) && fresh(a.data.status) && db.Valid() && db.root == 0 && db.saved == {}
    ensures OverlayOk(b) && b.data.history == [a.data] && b.data.values == map[]
    ensures a.data in db.all && a.data != b.data && a.prevRoot == 0 && a.data.parentStatus == None && 7 in a.data.values
  {
    hide Chained, Covers, Database.Valid, LiveOverlay.Ok;
    db, a := FirstOverlay();
    var onA := NewLive([a]);
    b := Finish(onA.value, 1, 2, map[], map[]);
    NextHasParent(b, a.data);
    db.Add(b);
  }

  /** A commit that fails on the root leaves its overlay marked as committed: a session on its child is then
      accepted without it, and does not see its changes, which the store does not have either. */
  method LoseOverlay() returns (db: Database, a: Overlay, r: Result<LiveOverlay, InvalidAncestors>)
    ensures db.Valid() && a.data in db.all && 7 in a.data.values
    ensures a.data.status.state == Committed && a.data !in db.saved && !db.AllSaved()
    ensures r.Ok? && r.value.Ok() && a.data !in r.value.Searched() && r.value.Value(7) == None
  {
    hide Chained, Covers, Database.Valid, LiveOverlay.Ok, LiveOverlay.Value, OverlayOk;
    var b;
    db, a, b := TwoOverlays();
    var session := db.CommitSession(0, 5);
    var committed := db.Commit(a);
    NextHasParent(b, a.data);
    r := NewLive([b]);
    assert r.value.Searched() == [b.data];
    ValueIsNewest(r.value, 7);
  }
}
