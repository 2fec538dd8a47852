/** Whole runs with crashes: an update, its sync, a crash at any point of writing out and the recovery
    leave trie, pages, table and disk in order, so that the next update can follow. */
module CrashRuns {
  import opened Wrappers
  import opened Trie
  import opened TriePos
  import opened Memory
  import opened PagedMemory
  import opened PageRecords
  import opened LivePages
  import opened HashTable
  import opened Recovery
  import opened CrashRecovery
  import opened CrashedSync
  import opened UpdateRuns

  /** The trie's root, its pages, the table file and the buckets of the stored pages. */
  datatype System = System(root: Node, pages: PageSet, disk: Disk, stored: map<Label, nat>)

  ghost predicate NamedBy(pages: PageSet, name: PageId -> Label, p: Label) {
    exists id | id in pages.pages :: name(id) == p
  }

  /** The pages hold the trie of the map, each is in the bucket the table has for it, and the table has no
      others. */
  ghost predicate SystemOk(sys: System, m: State, name: PageId -> Label, hash: Label -> Hash) {
    && StoreOk(sys.root, sys.pages, m) && (forall id | id in sys.pages.pages :: IsPage(id))
    && DiskOk(sys.disk) && TableOk(sys.disk.meta, |sys.disk.data|, Labels(sys.disk.data), hash, sys.stored)
    && OnDisk(sys.pages, sys.disk, name, sys.stored) && (forall p | p in sys.stored :: NamedBy(sys.pages, name, p))
  }

  /** The sync belongs to the system. */
  ghost predicate SyncOf(sys: System, s: Sync, name: PageId -> Label, hash: Label -> Hash) {
    s.Ok() && s.pages == sys.pages && s.disk == sys.disk && s.stored == sys.stored && s.name == name && s.hash == hash
  }

  // ----- the buckets after the sync

  lemma LaterOthers(s: Sync, i: nat)
    requires s.Ok() && i < |s.changes|
    ensures forall j | i < j < |s.changes| :: OtherPage(s.changes, i, j)
  {
    hide PlanOk, EntriesFor, TableThen, TableOk;
  }

  /** A page that was put out has a bucket afterwards just when it is not cleared. */
  lemma OutputBucket(s: Sync, id: PageId)
    requires s.Ok() && id in s.output
    ensures s.name(id) in s.After() <==> !s.output[id].diff.Cleared()
  {
    hide PlanOk, TableFits, TableThen, EntryFor, StoredAfter;
    var i := IndexIn(s.ids, id);
    assert ChangeOf(s.output, id, s.changes[i], s.name);
    LaterOthers(s, i);
    if s.changes[i].diff.Cleared() {
      ClearIsLogged(s, i);
      StoredNoMore(s.stored, s.changes, s.plan.wal.entries, |s.changes|, i);
    } else {
      UpdatedBucket(s, i);
    }
  }

  lemma ClearIsLogged(s: Sync, i: nat)
    requires s.Ok() && i < |s.changes| && s.changes[i].diff.Cleared()
    ensures s.plan.wal.entries[i].ClearEntry?
  {
    hide PlanOk, TableFits, TableThen;
    assert EntryFor(s.changes[i], s.plan.wal.entries[i], s.plan.writes);
  }

  lemma NoChange(s: Sync, p: Label)
    requires s.Ok() && forall id | id in s.output :: s.name(id) != p
    ensures forall i | 0 <= i < |s.changes| :: s.changes[i].page.id != p
  {
    hide PlanOk, TableFits, TableThen, EntriesFor;
    forall i | 0 <= i < |s.changes| ensures s.changes[i].page.id != p {
      assert ChangeOf(s.output, s.ids[i], s.changes[i], s.name);
    }
  }

  /** Any other page has one just when it had one, the same. */
  lemma OtherBucketStays(s: Sync, p: Label)
    requires s.Ok() && forall id | id in s.output :: s.name(id) != p
    ensures p in s.After() <==> p in s.stored
    ensures p in s.stored ==> s.After()[p] == s.stored[p]
  {
    hide Sync.Ok, StoredAfter;
    SizesFit(s);
    NoChange(s, p);
    StoredKept(s.stored, s.changes, s.plan.wal.entries, |s.plan.wal.entries|, p);
  }

  lemma SizesFit(s: Sync)
    requires s.Ok()
    ensures |s.plan.wal.entries| == |s.changes|
  {
  }

  // ----- one cycle

  /** The table and the disk that recovery leaves. */
  lemma CycleTable(s: Sync, metaPages: set<nat>, buckets: set<nat>)
    requires s.Ok()
    ensures var disk := s.Repaired(metaPages, buckets);
            DiskOk(disk) && TableOk(disk.meta, |disk.data|, Labels(disk.data), s.hash, s.After())
  {
    hide TableOk, TableFits, TableThen, EntriesFor, ChangesOf, OnDisk, StoredAfter;
    RecoveredTable(s.disk, s.plan, s.hash, metaPages, buckets, s.changes, s.stored);
  }

  lemma InTableBounds(s: Sync, metaPages: set<nat>, buckets: set<nat>, p: Label)
    requires s.Ok() && p in s.After()
    ensures s.After()[p] < |s.Repaired(metaPages, buckets).data|
  {
    SizesFit(s);
    hide TableOk, Sync.Ok, Sync.Repaired, Sync.After, Labels;
    CycleTable(s, metaPages, buckets);
    var disk := s.Repaired(metaPages, buckets);
    LabelOf(disk.meta, |disk.data|, Labels(disk.data), s.hash, s.After(), p);
  }

  /** What is read back: the pages with a bucket. */
  lemma BackKeys(s: Sync, metaPages: set<nat>, buckets: set<nat>, id: PageId)
    requires s.Ok()
    ensures id in s.Back(metaPages, buckets).pages
            <==> (id in s.pages.pages || id in s.output) && s.name(id) in s.After()
  {
    SizesFit(s);
    hide Sync.Ok, Sync.Repaired, Sync.After;
    if (id in s.pages.pages || id in s.output) && s.name(id) in s.After() {
      InTableBounds(s, metaPages, buckets, s.name(id));
    }
  }

  lemma BackOnDisk(s: Sync, metaPages: set<nat>, buckets: set<nat>)
    requires s.Ok()
    ensures OnDisk(s.Back(metaPages, buckets), s.Repaired(metaPages, buckets), s.name, s.After())
  {
    SizesFit(s);
    hide Sync.Ok, Sync.Repaired, Sync.After;
  }

  lemma NameIsOther(s: Sync, id: PageId)
    requires s.Ok() && id in s.pages.pages && id !in s.output
    ensures forall o | o in s.output :: s.name(o) != s.name(id)
  {
    hide ChangesOf, PlanOk, EntriesFor, TableFits, TableThen, OnDisk;
    forall o | o in s.output ensures s.name(o) != s.name(id) { assert Apart(s.name, o, id); }
  }

  /** Whether a page is read back. */
  lemma BackHas(s: Sync, sys: System, m0: State, name: PageId -> Label, hash: Label -> Hash,
                metaPages: set<nat>, buckets: set<nat>, id: PageId)
    requires SystemOk(sys, m0, name, hash) && SyncOf(sys, s, name, hash)
    ensures id in s.Back(metaPages, buckets).pages
            <==> if id in s.output then !s.output[id].diff.Cleared() else id in s.pages.pages
  {
    hide Sync.Ok, Sync.Back, Sync.After, StoreOk, TableOk, DiskOk, IsPage;
    BackKeys(s, metaPages, buckets, id);
    if id in s.output {
      OutputBucket(s, id);
    } else if id in s.pages.pages {
      NameIsOther(s, id);
      OtherBucketStays(s, name(id));
      assert IsOnDisk(s.pages.pages[id], s.disk, name(id), s.stored);
    }
  }

  lemma BackLive(s: Sync, sys: System, m0: State, m: State, name: PageId -> Label, hash: Label -> Hash,
                 metaPages: set<nat>, buckets: set<nat>)
    requires SystemOk(sys, m0, name, hash) && SyncOf(sys, s, name, hash) && Recorded(s.pages, m0, s.output)
    requires LiveAt(m, m0, s.output, {}, 0, [])
    ensures PagesLive(s.Back(metaPages, buckets), m)
  {
    hide Sync.Ok, Sync.Back, Sync.After, Sub, TableOk, DiskOk, Recorded, IsPage, OnDisk, NamedBy, PageOf, Kept,
      StoredMem, Holds;
    KeptLive(s.pages, m0, s.output, m);
    forall x: Path | Boundary(x, 0) ensures PageIsLive(s.Back(metaPages, buckets), m, x) {
      BackHas(s, sys, m0, name, hash, metaPages, buckets, PageAt(x));
      assert PageIsLive(Kept(s.pages, s.output), m, x);
      KeptHas(s.pages, s.output, PageAt(x));
    }
  }

  lemma KeptHas(pages: PageSet, output: UpdatedPages, id: PageId)
    ensures id in Kept(pages, output).pages <==> if id in output then !output[id].diff.Cleared() else id in pages.pages
  {
  }

  lemma BackNamed(s: Sync, sys: System, m0: State, name: PageId -> Label, hash: Label -> Hash,
                  metaPages: set<nat>, buckets: set<nat>, p: Label)
    requires SystemOk(sys, m0, name, hash) && SyncOf(sys, s, name, hash) && p in s.After()
    ensures NamedBy(s.Back(metaPages, buckets), name, p)
  {
    hide Sync.Ok, Sync.Back, Sync.After, StoreOk, TableOk, DiskOk, OnDisk, IsPage;
    var id: PageId;
    if o :| o in s.output && name(o) == p {
      id := o;
    } else {
      OtherBucketStays(s, p);
      assert NamedBy(sys.pages, name, p);
      id :| id in s.pages.pages && name(id) == p;
    }
    BackKeys(s, metaPages, buckets, id);
  }

  lemma BackArePages(s: Sync, sys: System, m0: State, name: PageId -> Label, hash: Label -> Hash,
                     metaPages: set<nat>, buckets: set<nat>, id: PageId)
    requires SystemOk(sys, m0, name, hash) && SyncOf(sys, s, name, hash) && Recorded(s.pages, m0, s.output)
    requires id in s.Back(metaPages, buckets).pages
    ensures IsPage(id)
  {
    hide Sync.Ok, Sync.Back, Sync.After, StoreOk, TableOk, DiskOk, OnDisk, IsPage, PageRecorded;
    BackKeys(s, metaPages, buckets, id);
  }

  /** The system that a crashed and recovered sync leaves. */
  ghost function Recovered(s: Sync, newRoot: Node, metaPages: set<nat>, buckets: set<nat>): System
    requires s.Ok()
  {
    System(newRoot, s.Back(metaPages, buckets), s.Repaired(metaPages, buckets), s.After())
  }

  /** Update, sync, crash with any of the pages written, recover: the system is in order for the updated
      map if and only if every page that flips was written. */
  lemma CycleIff(sys: System, s: Sync, m0: State, newRoot: Node, m: State, metaPages: set<nat>, buckets: set<nat>,
                 name: PageId -> Label, hash: Label -> Hash)
    requires SystemOk(sys, m0, name, hash) && SyncOf(sys, s, name, hash)
    requires UpdateOk(sys.root, s.pages, m0, newRoot, s.output, m) && LiveAt(m, m0, s.output, {}, 0, [])
    ensures SystemOk(Recovered(s, newRoot, metaPages, buckets), m, name, hash) <==> NoLoss(m0, m, s.Written(buckets))
  {
    hide Sync.Ok, Sync.Back, Sync.After, Sync.Repaired, Sync.Written, LiveAt, TableOk, DiskOk, OnDisk, NamedBy, IsPage;
    hide NoLoss, PagesLive, Holds, StoredMem, Recorded, SystemOk;
    SyncRecoversIff(s, sys.root, m0, newRoot, m, metaPages, buckets);
    if NoLoss(m0, m, s.Written(buckets)) {
      CycleOk(sys, s, m0, newRoot, m, metaPages, buckets, name, hash);
    } else {
      NotSystem(Recovered(s, newRoot, metaPages, buckets), m, name, hash);
    }
  }

  lemma CycleOk(sys: System, s: Sync, m0: State, newRoot: Node, m: State, metaPages: set<nat>, buckets: set<nat>,
                name: PageId -> Label, hash: Label -> Hash)
    requires SystemOk(sys, m0, name, hash) && SyncOf(sys, s, name, hash)
    requires UpdateOk(sys.root, s.pages, m0, newRoot, s.output, m) && LiveAt(m, m0, s.output, {}, 0, [])
    requires Holds(StoredMem(newRoot, s.Back(metaPages, buckets)), m, [])
    ensures SystemOk(Recovered(s, newRoot, metaPages, buckets), m, name, hash)
  {
    hide Sync.Ok, Sync.Back, Sync.After, Sync.Repaired, LiveAt, TableOk, DiskOk, OnDisk, NamedBy, IsPage;
    hide PagesLive, Holds, StoredMem, Recorded, SystemOk;
    SizesFit(s);
    BackLive(s, sys, m0, m, name, hash, metaPages, buckets);
    CycleTable(s, metaPages, buckets);
    BackOnDisk(s, metaPages, buckets);
    forall p | p in s.After() ensures NamedBy(s.Back(metaPages, buckets), name, p) {
      BackNamed(s, sys, m0, name, hash, metaPages, buckets, p);
    }
    forall id | id in s.Back(metaPages, buckets).pages ensures IsPage(id) {
      BackArePages(s, sys, m0, name, hash, metaPages, buckets, id);
    }
    AsSystem(Recovered(s, newRoot, metaPages, buckets), m, name, hash);
  }

  lemma NotSystem(sys: System, m: State, name: PageId -> Label, hash: Label -> Hash)
    requires !Holds(StoredMem(sys.root, sys.pages), m, [])
    ensures !SystemOk(sys, m, name, hash)
  {
  }

  lemma AsSystem(sys: System, m: State, name: PageId -> Label, hash: Label -> Hash)
    requires StoreOk(sys.root, sys.pages, m) && (forall id | id in sys.pages.pages :: IsPage(id))
    requires DiskOk(sys.disk) && TableOk(sys.disk.meta, |sys.disk.data|, Labels(sys.disk.data), hash, sys.stored)
    requires OnDisk(sys.pages, sys.disk, name, sys.stored)
             && (forall p | p in sys.stored :: NamedBy(sys.pages, name, p))
    ensures SystemOk(sys, m, name, hash)
  {
  }

  // ----- from a system to a sync, and back

  /** In a system that is in order the table has no page that the update takes for a new one. */
  lemma SystemSyncs(sys: System, m0: State, output: UpdatedPages, ids: seq<PageId>, at: seq<Path>,
                    name: PageId -> Label, hash: Label -> Hash)
    requires SystemOk(sys, m0, name, hash) && LabelsApart(sys.pages, output, name) && Lists(output, ids, at)
    ensures OnlyLive(m0, name, sys.stored, at)
  {
    hide Sub, PageOf, TableOk, DiskOk, StoredMem, Holds, OnDisk, IsPage;
    forall i | 0 <= i < |at| && 0 < |at[i]| <= KEY_BITS && name(PageOf(at[i])) in sys.stored
      ensures Sub(m0, Stem(at[i])).Internal?
    {
      assert NamedBy(sys.pages, name, name(PageOf(at[i])));
      var id :| id in sys.pages.pages && name(id) == name(PageOf(at[i]));
      assert Apart(name, id, PageOf(at[i]));
      LiveStem(sys.pages, m0, at[i]);
    }
  }

  lemma LiveStem(pages: PageSet, m: State, y: Path)
    requires PagesLive(pages, m) && 0 < |y| <= KEY_BITS && PageOf(y) in pages.pages
    ensures Sub(m, Stem(y)).Internal?
  {
    hide Sub, PageOf;
    StemPages(y);
    assert PageIsLive(pages, m, Stem(y));
  }

  /** Sync the pages of an update of a system that is in order, crash with some meta pages and buckets written,
      and recover. When there are buckets enough, the system is in order for the updated map just when
      every page that flips was written. */
  method SyncAndRecover(seqn: nat, sys: System, newRoot: Node, output: UpdatedPages, ids: seq<PageId>,
                        name: PageId -> Label, elided: PageId -> nat, meta: MetaMap, hash: Label -> Hash,
                        metaPages: set<nat>, buckets: set<nat>, ghost m0: State, ghost m: State, ghost at: seq<Path>)
    returns (r: Result<Sync, SyncError>, disk: Disk)
    requires SystemOk(sys, m0, name, hash) && sys.disk.meta == meta.bitvec && |sys.disk.data| == meta.buckets
    requires UpdateOk(sys.root, sys.pages, m0, newRoot, output, m) && LiveAt(m, m0, output, {}, 0, [])
    requires Lists(output, ids, at) && LabelsApart(sys.pages, output, name)
    requires 0 < meta.buckets <= |meta.bitvec| && forall i | 0 <= i < |ids| :: Named(output, ids[i], name, sys.stored)
    requires Halts(meta.bitvec, meta.buckets, hash, Freeze(output, ids, name, elided, sys.stored))
    modifies meta
    ensures r.Ok? <==>
            old(NoneExhausted(meta.bitvec, meta.buckets, hash, Freeze(output, ids, name, elided, sys.stored), |ids|))
    ensures r.Ok? ==> SyncOf(sys, r.value, name, hash) && disk == r.value.Repaired(metaPages, buckets)
    ensures r.Ok? ==> (SystemOk(System(newRoot, r.value.Read(disk.data), disk, r.value.After()), m, name, hash)
                       <==> NoLoss(m0, m, r.value.Written(buckets)))
  {
    hide Sync.Ok, Sync.Written, TableOk, Halts, NoneExhausted, MarkedAfter, Lists, LabelsApart, LiveAt, NoLoss, Holds;
    hide StoredMem, Freeze, OnDisk, DiskOk, Recorded, OnlyLive, PagesLive, IsPage, Labels, NamedBy, Sync.After;
    disk := sys.disk;
    SystemSyncs(sys, m0, output, ids, at, name, hash);
    r := SyncUpdate(seqn, sys.pages, output, ids, name, elided, sys.stored, sys.disk, meta, hash, m0, at);
    if r.Ok? {
      var s := r.value;
      disk := RecoverFrom(seqn, s, metaPages, buckets);
      CycleIff(sys, s, m0, newRoot, m, metaPages, buckets, name, hash);
    }
  }

  /** Crash with some of the pages written, and replay the log. */
  method RecoverFrom(seqn: nat, s: Sync, metaPages: set<nat>, buckets: set<nat>) returns (disk: Disk)
    requires s.Ok() && s.plan.wal.seqn == seqn
    ensures disk == s.Repaired(metaPages, buckets)
  {
    hide TableOk, TableFits, TableThen, EntriesFor, ChangesOf, OnDisk, PlanOk, LabelsApart, WrittenOut, Replayed;
    MetaFits(s.disk, s.plan, s.hash);
    RecoveredTable(s.disk, s.plan, s.hash, metaPages, buckets, s.changes, s.stored);
    var crashed := WrittenOut(s.disk, s.plan, metaPages, buckets);
    var recovered, _ := Recover(seqn, crashed, s.plan.wal, s.hash);
    disk := recovered.value;
  }

  lemma MetaFits(disk: Disk, plan: Plan, hash: Label -> Hash)
    requires PlanOk(disk, plan, hash)
    ensures |plan.meta| == |disk.meta|
  {
  }

  // ----- runs

  /** How a sync ends: written out whole, or by a crash with some meta pages and buckets written. */
  datatype End = Finished | Crashed(metaPages: set<nat>, buckets: set<nat>)

  /** The system a sync leaves that is written out whole. */
  ghost function Synced(s: Sync, newRoot: Node): System
    requires s.Ok()
  {
    System(newRoot, s.Read(Completed(s.disk, s.plan).data), Completed(s.disk, s.plan), s.After())
  }

  ghost function AtEnd(s: Sync, newRoot: Node, end: End): System
    requires s.Ok()
  {
    match end
    case Finished => Synced(s, newRoot)
    case Crashed(metaPages, buckets) => Recovered(s, newRoot, metaPages, buckets)
  }

  /** Every page that flips was written. */
  ghost predicate Lossless(s: Sync, m0: State, m: State, end: End) {
    s.Ok() && (end.Crashed? ==> NoLoss(m0, m, s.Written(end.buckets)))
  }

  lemma SyncedIs(s: Sync, newRoot: Node)
    requires s.Ok()
    ensures Synced(s, newRoot) == Recovered(s, newRoot, s.plan.metaPages, s.plan.writes.Keys)
  {
    hide Sync.Ok, Sync.Repaired, Sync.After, Sync.Read, Completed;
    FinishedIs(s);
    SizesFit(s);
  }

  /** A sync that is written out whole leaves the system in order; one that crashes does just when it loses
      nothing. */
  lemma EndIff(sys: System, s: Sync, m0: State, newRoot: Node, m: State, end: End, name: PageId -> Label,
               hash: Label -> Hash)
    requires SystemOk(sys, m0, name, hash) && SyncOf(sys, s, name, hash)
    requires UpdateOk(sys.root, s.pages, m0, newRoot, s.output, m) && LiveAt(m, m0, s.output, {}, 0, [])
    ensures SystemOk(AtEnd(s, newRoot, end), m, name, hash) <==> Lossless(s, m0, m, end)
  {
    hide SystemOk, UpdateOk, LiveAt, Recovered, Synced, NoLoss, Sync.Ok, Sync.Written;
    match end
    case Finished =>
      SyncedIs(s, newRoot);
      FinishedKeepsAll(s, sys.root, m0, newRoot, m);
      CycleIff(sys, s, m0, newRoot, m, s.plan.metaPages, s.plan.writes.Keys, name, hash);
    case Crashed(metaPages, buckets) =>
      CycleIff(sys, s, m0, newRoot, m, metaPages, buckets, name, hash);
  }

  /** A run: the systems and maps passed through, and the syncs between them with their ends. */
  datatype Run = Run(systems: seq<System>, maps: seq<State>, syncs: seq<Sync>, ends: seq<End>) {
    ghost predicate Sized() { |systems| == |maps| == |syncs| + 1 && |ends| == |syncs| }

    /** One update with its sync, and a recovery where that crashes. */
    ghost predicate Step(i: nat, name: PageId -> Label, hash: Label -> Hash)
      requires Sized() && i < |syncs|
    {
      var s, newRoot := syncs[i], systems[i + 1].root;
      && SyncOf(systems[i], s, name, hash)
      && UpdateOk(systems[i].root, s.pages, maps[i], newRoot, s.output, maps[i + 1])
      && LiveAt(maps[i + 1], maps[i], s.output, {}, 0, []) && systems[i + 1] == AtEnd(s, newRoot, ends[i])
    }

    ghost predicate Ok(name: PageId -> Label, hash: Label -> Hash) {
      Sized() && SystemOk(systems[0], maps[0], name, hash) && forall i | 0 <= i < |syncs| :: Step(i, name, hash)
    }

    ghost predicate Safe(i: nat, name: PageId -> Label, hash: Label -> Hash)
      requires Sized() && i <= |syncs|
    {
      SystemOk(systems[i], maps[i], name, hash)
    }

    ghost predicate Keeps(i: nat)
      requires Sized() && i < |syncs|
    {
      Lossless(syncs[i], maps[i], maps[i + 1], ends[i])
    }
  }

  lemma StepIff(run: Run, i: nat, name: PageId -> Label, hash: Label -> Hash)
    requires run.Ok(name, hash) && i < |run.syncs| && run.Safe(i, name, hash)
    ensures run.Safe(i + 1, name, hash) <==> run.Keeps(i)
  {
    hide SystemOk, UpdateOk, LiveAt, AtEnd, Lossless, Sync.Ok;
    assert run.Step(i, name, hash);
    EndIff(run.systems[i], run.syncs[i], run.maps[i], run.systems[i + 1].root, run.maps[i + 1], run.ends[i],
           name, hash);
  }

  lemma {:induction false} SafeTo(run: Run, n: nat, name: PageId -> Label, hash: Label -> Hash)
    requires run.Ok(name, hash) && n <= |run.syncs| && forall i | 0 <= i < n :: run.Keeps(i)
    ensures run.Safe(n, name, hash)
  {
    hide SystemOk, Run.Step, Run.Keeps;
    if n > 0 {
      SafeTo(run, n - 1, name, hash);
      StepIff(run, n - 1, name, hash);
    }
  }

  /** However many updates are synced and however many of the syncs crash, the system is in order after each for
      the map it has reached, if and only if none of the crashes loses a page that flips. */
  lemma RunIsSafeIff(run: Run, name: PageId -> Label, hash: Label -> Hash)
    requires run.Ok(name, hash)
    ensures (forall i | 0 <= i <= |run.syncs| :: run.Safe(i, name, hash))
            <==> forall i | 0 <= i < |run.syncs| :: run.Keeps(i)
  {
    hide SystemOk, Run.Step, Run.Keeps, Run.Safe;
    if forall i | 0 <= i <= |run.syncs| :: run.Safe(i, name, hash) {
      forall i | 0 <= i < |run.syncs| ensures run.Keeps(i) { StepIff(run, i, name, hash); }
    } else if forall i | 0 <= i < |run.syncs| :: run.Keeps(i) {
      forall i | 0 <= i <= |run.syncs| ensures run.Safe(i, name, hash) { SafeTo(run, i, name, hash); }
    }
  }
}
