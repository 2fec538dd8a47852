/** An update from the walker's pages to the disk and back after a crash: the pages a walker puts out,
    logged and written by a sync that does not get to its end, and read again after recovery. */
module CrashedSync {
  import opened Wrappers
  import opened Trie
  import opened TriePos
  import opened CountLeaves
  import opened Memory
  import opened PagedMemory
  import opened PageStack
  import opened DiffCoverage
  import opened PageRecords
  import opened HashTable
  import opened Recovery
  import opened CrashRecovery

  /** Every stored page is in the bucket the table has for its label. */
  ghost predicate OnDisk(pages: PageSet, disk: Disk, name: PageId -> Label, stored: map<Label, nat>) {
    forall id | id in pages.pages :: IsOnDisk(pages.pages[id], disk, name(id), stored)
  }

  ghost predicate IsOnDisk(page: Page, disk: Disk, p: Label, stored: map<Label, nat>) {
    p in stored && stored[p] < |disk.data| && disk.data[stored[p]].nodes == page
  }

  /** The change for a page that was put out. */
  ghost predicate ChangeOf(output: UpdatedPages, id: PageId, c: Change, name: PageId -> Label) {
    && id in output && output[id].id == id && c.page.id == name(id)
    && c.page.nodes == output[id].page && c.diff == output[id].diff
  }

  /** The changes are those of the pages put out, one each. */
  ghost predicate ChangesOf(output: UpdatedPages, ids: seq<PageId>, changes: seq<Change>, name: PageId -> Label) {
    && |ids| == |changes| && (forall i | 0 <= i < |ids| :: ChangeOf(output, ids[i], changes[i], name))
    && (forall id | id in output :: id in ids)
  }

  ghost predicate Apart(name: PageId -> Label, a: PageId, b: PageId) { name(a) == name(b) ==> a == b }

  /** A sync of an update: its changes, its plan, and the table before and after it. */
  datatype Sync = Sync(pages: PageSet, output: UpdatedPages, ids: seq<PageId>, changes: seq<Change>,
                       disk: Disk, plan: Plan, hash: Label -> Hash, name: PageId -> Label, stored: map<Label, nat>)
  {
    /** The bucket of each page once the sync is through. */
    ghost function After(): map<Label, nat>
      requires |plan.wal.entries| <= |changes|
    {
      StoredAfter(stored, changes, plan.wal.entries, |plan.wal.entries|)
    }

    ghost predicate Ok() {
      && (forall y: Path | 0 < |y| <= KEY_BITS && PageOf(y) in output ::
            output[PageOf(y)].isNew || PageOf(y) in pages.pages)
      && |plan.wal.entries| == |changes| && ChangesOf(output, ids, changes, name) && OnDisk(pages, disk, name, stored)
      && LabelsApart(pages, output, name)
      && PlanOk(disk, plan, hash) && EntriesFor(changes, plan.wal.entries, plan.writes)
      && TableFits(disk.meta, |disk.data|, Labels(disk.data), hash, stored, changes, 0)
      && TableThen(plan.meta, |disk.data|, Labels(disk.data), hash, stored, changes, plan.wal.entries)
    }

    /** The table file as recovery leaves it after a crash with some of the planned pages written. */
    ghost function Repaired(metaPages: set<nat>, buckets: set<nat>): Disk
      requires Ok()
    {
      RecoveredTable(disk, plan, hash, metaPages, buckets, changes, stored);
      Replayed(WrittenOut(disk, plan, metaPages, buckets), plan.wal, hash)
    }

    /** The pages read from the buckets they are in once the sync is through. */
    ghost function Read(data: seq<DataPage>): PageSet
      requires |plan.wal.entries| <= |changes|
    {
      var after := After();
      PageSet(map id | id in pages.pages.Keys + output.Keys && name(id) in after && after[name(id)] < |data|
                :: data[after[name(id)]].nodes, pages.garbage)
    }

    /** The pages as recovery leaves them. */
    ghost function Back(metaPages: set<nat>, buckets: set<nat>): PageSet
      requires Ok()
    {
      Read(Repaired(metaPages, buckets).data)
    }

    /** The pages put out whose bucket was written. */
    ghost function Written(buckets: set<nat>): set<PageId>
      requires Ok()
    {
      set id | id in output && name(id) in After() && After()[name(id)] in buckets
    }
  }

  // ----- from the pages put out to a sync

  /** The changes of a sync, made from the pages put out: a new page gets a bucket later, any other has
      one. */
  function Freeze(output: UpdatedPages, ids: seq<PageId>, name: PageId -> Label, elided: PageId -> nat,
                  buckets: map<Label, nat>): (changes: seq<Change>)
    requires forall i | 0 <= i < |ids| :: Named(output, ids[i], name, buckets)
    ensures |changes| == |ids| && forall i | 0 <= i < |ids| :: Frozen(output, ids[i], changes[i], name, buckets)
  {
    seq(|ids|, i requires 0 <= i < |ids| && Named(output, ids[i], name, buckets) =>
      FreezeOne(output, ids[i], name, elided, buckets))
  }

  function FreezeOne(output: UpdatedPages, id: PageId, name: PageId -> Label, elided: PageId -> nat,
                     buckets: map<Label, nat>): (c: Change)
    requires Named(output, id, name, buckets)
    ensures Frozen(output, id, c, name, buckets)
  {
    var e := output[id];
    Change(DataPage(e.page, elided(id), name(id)), e.diff,
           if e.isNew then FreshWithNoDependents else Known(buckets[name(id)]))
  }

  ghost predicate Named(output: UpdatedPages, id: PageId, name: PageId -> Label, buckets: map<Label, nat>) {
    id in output && output[id].id == id && (output[id].isNew || name(id) in buckets)
  }

  ghost predicate Frozen(output: UpdatedPages, id: PageId, c: Change, name: PageId -> Label, buckets: map<Label, nat>) {
    && ChangeOf(output, id, c, name) && Named(output, id, name, buckets)
    && c.Bucket() == if output[id].isNew then None else Some(buckets[name(id)])
  }

  ghost predicate OtherId(ids: seq<PageId>, i: nat, j: nat)
    requires i < |ids| && j < |ids|
  {
    ids[i] != ids[j]
  }

  /** The pages put out, each once, for positions of the trie. */
  ghost predicate Lists(output: UpdatedPages, ids: seq<PageId>, at: seq<Path>) {
    && |at| == |ids|
    && (forall i | 0 <= i < |ids| :: 0 < |at[i]| <= KEY_BITS && PageOf(at[i]) == ids[i] && ids[i] in output)
    && (forall id | id in output :: id in ids) && (forall i, j | 0 <= i < j < |ids| :: OtherId(ids, i, j))
  }

  /** List the pages put out. */
  method ListPages(output: UpdatedPages, ghost pages: PageSet, ghost m0: State)
    returns (ids: seq<PageId>, ghost at: seq<Path>)
    requires Recorded(pages, m0, output)
    ensures (forall id :: id in ids <==> id in output) && forall i, j | 0 <= i < j < |ids| :: OtherId(ids, i, j)
    ensures Lists(output, ids, at)
  {
    hide Recorded, Listed, LiesIn, Lists;
    ids, at := [], [];
    var rest := output.Keys;
    assert Listed(output, rest, ids, at) by { NoneListed(output); }
    while rest != {}
      invariant rest <= output.Keys && Listed(output, rest, ids, at)
      decreases rest
    {
      var id :| id in rest;
      ghost var y := PositionIn(pages, m0, output, id);
      ListedMore(output, rest, ids, at, id, y);
      rest, ids, at := rest - {id}, ids + [id], at + [y];
    }
    AllListed(output, ids, at);
  }

  ghost predicate Listed(output: UpdatedPages, rest: set<PageId>, ids: seq<PageId>, at: seq<Path>) {
    && |at| == |ids| && (forall id | id in output :: id in rest || id in ids)
    && (forall i | 0 <= i < |ids| :: ids[i] !in rest && ids[i] in output && LiesIn(at[i], ids[i]))
    && (forall i, j | 0 <= i < j < |ids| :: OtherId(ids, i, j))
  }

  lemma NoneListed(output: UpdatedPages)
    ensures Listed(output, output.Keys, [], [])
  {
  }

  lemma PositionIn(pages: PageSet, m0: State, output: UpdatedPages, id: PageId) returns (y: Path)
    requires Recorded(pages, m0, output) && id in output
    ensures LiesIn(y, id)
  {
    hide PageRecorded, LiesIn;
    assert IsPage(id);
    y :| LiesIn(y, id);
  }

  lemma ListedMore(output: UpdatedPages, rest: set<PageId>, ids: seq<PageId>, at: seq<Path>, id: PageId, y: Path)
    requires Listed(output, rest, ids, at) && id in rest && id in output && LiesIn(y, id)
    ensures Listed(output, rest - {id}, ids + [id], at + [y])
  {
    hide LiesIn;
    var ids' := ids + [id];
    forall o | o in output ensures o in rest - {id} || o in ids' {
      if o == id { assert ids'[|ids|] == id; } else if o in ids { assert o in ids'; }
    }
    forall i, j | 0 <= i < j < |ids'| ensures OtherId(ids', i, j) { if j < |ids| { assert OtherId(ids, i, j); } }
  }

  lemma AllListed(output: UpdatedPages, ids: seq<PageId>, at: seq<Path>)
    requires Listed(output, {}, ids, at)
    ensures Lists(output, ids, at)
    ensures (forall id :: id in ids <==> id in output) && forall i, j | 0 <= i < j < |ids| :: OtherId(ids, i, j)
  {
    hide PageOf;
    forall i | 0 <= i < |ids|
      ensures 0 < |at[i]| <= KEY_BITS && PageOf(at[i]) == ids[i]
    {
      assert LiesIn(at[i], ids[i]);
    }
  }

  /** Stored pages hang from internal nodes, and the table holds no others. */
  ghost predicate OnlyLive(m0: State, name: PageId -> Label, stored: map<Label, nat>, at: seq<Path>) {
    forall i | 0 <= i < |at| && 0 < |at[i]| <= KEY_BITS && name(PageOf(at[i])) in stored ::
      Sub(m0, Stem(at[i])).Internal?
  }

  /** What the diff of a page that was put out says fits a sync. */
  lemma RecordedFits(pages: PageSet, m0: State, e: StackPage, y: Path)
    requires 0 < |y| <= KEY_BITS && PageRecorded(pages, m0, e, y)
    ensures e.id == PageOf(y) && (e.isNew <==> !Sub(m0, Stem(y)).Internal?)
    ensures if e.diff.Cleared() then !e.isNew else e.diff.Plain()
    ensures !e.isNew ==> PageOf(y) in pages.pages
  {
    hide PageOf, Sub, SlotLogged, Closed, Runs;
    if Sub(m0, Stem(y)).Internal? { RunsSlot(Load(pages, e.id), e, 0, 0); }
  }

  /** The changes of an update can be synced: the table is in order for them, and each change is one
      that a sync takes. */
  lemma ReadyToSync(pages: PageSet, m0: State, output: UpdatedPages, ids: seq<PageId>, at: seq<Path>,
                    changes: seq<Change>, name: PageId -> Label, disk: Disk, hash: Label -> Hash,
                    stored: map<Label, nat>)
    requires Recorded(pages, m0, output) && Lists(output, ids, at) && OnlyLive(m0, name, stored, at)
    requires |changes| == |ids| && forall i | 0 <= i < |ids| :: Frozen(output, ids[i], changes[i], name, stored)
    requires DiskOk(disk) && TableOk(disk.meta, |disk.data|, Labels(disk.data), hash, stored)
    requires forall a, b | a in ids && b in ids :: Apart(name, a, b)
    ensures TableFits(disk.meta, |disk.data|, Labels(disk.data), hash, stored, changes, 0)
    ensures ChangesOk(disk.meta, |disk.data|, hash, changes, 0) && ChangesOf(output, ids, changes, name)
  {
    hide PageOf, Sub, TableOk, PageRecorded, Labels;
    forall i | 0 <= i < |changes|
      ensures ChangeFits(changes[i], stored) && ChangeOk(disk.meta, |disk.data|, hash, changes[i])
      ensures ChangeOf(output, ids[i], changes[i], name)
    {
      assert Frozen(output, ids[i], changes[i], name, stored);
      assert PageRecorded(pages, m0, output[PageOf(at[i])], at[i]);
      RecordedFits(pages, m0, output[ids[i]], at[i]);
      if changes[i].Bucket().Some? { StoredMark(disk, hash, stored, changes[i].page.id); }
    }
    forall i, j | 0 <= i < j < |changes| ensures OtherPage(changes, i, j) && OtherBucket(changes, i, j) {
      assert Frozen(output, ids[i], changes[i], name, stored) && Frozen(output, ids[j], changes[j], name, stored);
      assert OtherId(ids, i, j) && Apart(name, ids[i], ids[j]);
      if changes[i].Bucket().Some? { StoredMark(disk, hash, stored, changes[i].page.id); }
      if changes[j].Bucket().Some? { StoredMark(disk, hash, stored, changes[j].page.id); }
    }
  }

  lemma StoredMark(disk: Disk, hash: Label -> Hash, stored: map<Label, nat>, p: Label)
    requires TableOk(disk.meta, |disk.data|, Labels(disk.data), hash, stored) && p in stored
    ensures stored[p] < |disk.data| <= |disk.meta| && disk.meta[stored[p]] == FullEntry(hash(p))
            && Labels(disk.data)[stored[p]] == p
  {
    assert HasPage(disk.meta, |disk.data|, Labels(disk.data), hash(p), p, stored[p]);
  }

  /** Labels tell the pages stored and the pages put out apart. */
  ghost predicate LabelsApart(pages: PageSet, output: UpdatedPages, name: PageId -> Label) {
    forall a, b | a in pages.pages.Keys + output.Keys && b in pages.pages.Keys + output.Keys :: Apart(name, a, b)
  }

  /** Sync an update: freeze its pages and prepare the log and the writes. It fails just when some page
      finds no bucket. */
  method SyncUpdate(seqn: nat, pages: PageSet, output: UpdatedPages, ids: seq<PageId>, name: PageId -> Label,
                    elided: PageId -> nat, stored: map<Label, nat>, disk: Disk, meta: MetaMap, hash: Label -> Hash,
                    ghost m0: State, ghost at: seq<Path>)
    returns (r: Result<Sync, SyncError>)
    requires Recorded(pages, m0, output) && Lists(output, ids, at) && OnlyLive(m0, name, stored, at)
    requires DiskOk(disk) && disk.meta == meta.bitvec && |disk.data| == meta.buckets
    requires TableOk(disk.meta, |disk.data|, Labels(disk.data), hash, stored) && OnDisk(pages, disk, name, stored)
    requires LabelsApart(pages, output, name) && forall i | 0 <= i < |ids| :: Named(output, ids[i], name, stored)
    requires 0 < meta.buckets <= |meta.bitvec|
    requires Halts(meta.bitvec, meta.buckets, hash, Freeze(output, ids, name, elided, stored))
    modifies meta
    ensures r.Ok?
            <==> old(NoneExhausted(meta.bitvec, meta.buckets, hash, Freeze(output, ids, name, elided, stored), |ids|))
    ensures r.Ok? ==> r.value.Ok() && r.value.pages == pages && r.value.output == output && r.value.stored == stored
    ensures r.Ok? ==> r.value.disk == disk && r.value.name == name && r.value.hash == hash
    ensures r.Ok? ==> r.value.plan.wal.seqn == seqn && r.value.plan.meta == meta.bitvec
  {
    hide Recorded, TableOk, PageOf, Labels, ChangesOk, TableFits, TableThen, PlanOk, EntriesFor, OnlyLive, Halts;
    hide Freeze, NoneExhausted, MarkedAfter, Lists;
    var changes := Freeze(output, ids, name, elided, stored);
    ListedApart(pages, output, ids, at, name);
    ReadyToSync(pages, m0, output, ids, at, changes, name, disk, hash, stored);
    var plan, _ := PrepareSync(seqn, changes, meta, hash, Labels(disk.data), stored);
    if plan.Err? { return Err(plan.error); }
    var s := Sync(pages, output, ids, changes, disk, plan.value, hash, name, stored);
    NewOrStored(pages, m0, output);
    r := Ok(s);
  }

  lemma ListedApart(pages: PageSet, output: UpdatedPages, ids: seq<PageId>, at: seq<Path>, name: PageId -> Label)
    requires Lists(output, ids, at) && LabelsApart(pages, output, name)
    ensures forall a, b | a in ids && b in ids :: Apart(name, a, b)
  {
    hide PageOf;
  }

  lemma NewOrStored(pages: PageSet, m0: State, output: UpdatedPages)
    requires Recorded(pages, m0, output)
    ensures forall y: Path | 0 < |y| <= KEY_BITS && PageOf(y) in output ::
              output[PageOf(y)].isNew || PageOf(y) in pages.pages
  {
    hide PageOf, Sub, PageRecorded;
    forall y: Path | 0 < |y| <= KEY_BITS && PageOf(y) in output
      ensures output[PageOf(y)].isNew || PageOf(y) in pages.pages
    {
      RecordedFits(pages, m0, output[PageOf(y)], y);
    }
  }

  lemma AllNamed(pages: PageSet, m0: State, output: UpdatedPages, ids: seq<PageId>, at: seq<Path>, disk: Disk,
                 name: PageId -> Label, stored: map<Label, nat>)
    requires Recorded(pages, m0, output) && Lists(output, ids, at) && OnDisk(pages, disk, name, stored)
    ensures forall i | 0 <= i < |ids| :: Named(output, ids[i], name, stored)
  {
    hide PageOf, Sub, PageRecorded;
    forall i | 0 <= i < |ids| ensures Named(output, ids[i], name, stored) {
      assert PageRecorded(pages, m0, output[PageOf(at[i])], at[i]);
      RecordedFits(pages, m0, output[ids[i]], at[i]);
      if ids[i] in pages.pages { assert IsOnDisk(pages.pages[ids[i]], disk, name(ids[i]), stored); }
    }
  }

  lemma IndexIn(ids: seq<PageId>, id: PageId) returns (i: nat)
    requires id in ids
    ensures i < |ids| && ids[i] == id
  {
    i :| 0 <= i < |ids| && ids[i] == id;
  }

  /** A page that is not changed keeps its bucket, and what is in it. */
  lemma OthersBack(s: Sync, metaPages: set<nat>, buckets: set<nat>, id: PageId)
    requires s.Ok() && id !in s.output
    ensures PageRead(s.Back(metaPages, buckets), id) == PageRead(s.pages, id)
  {
    hide PlanOk, EntriesFor, TableFits, TableThen, TableOk, StoredAfter, LabelsAfter;
    if id in s.pages.pages {
      var p := s.name(id);
      assert IsOnDisk(s.pages.pages[id], s.disk, p, s.stored);
      forall i | 0 <= i < |s.changes| ensures s.changes[i].page.id != p {
        assert ChangeOf(s.output, s.ids[i], s.changes[i], s.name) && Apart(s.name, s.ids[i], id);
      }
      StoredKept(s.stored, s.changes, s.plan.wal.entries, |s.plan.wal.entries|, p);
      KeptBucket(s.disk, s.plan, s.hash, metaPages, buckets, s.changes, s.stored, p);
    }
  }

  /** The bucket of a page that is not changed is not written. */
  lemma KeptBucket(disk: Disk, plan: Plan, hash: Label -> Hash, metaPages: set<nat>, buckets: set<nat>,
                   changes: seq<Change>, stored: map<Label, nat>, p: Label)
    requires PlanOk(disk, plan, hash) && EntriesFor(changes, plan.wal.entries, plan.writes)
    requires TableThen(plan.meta, |disk.data|, Labels(disk.data), hash, stored, changes, plan.wal.entries)
    requires p in stored && stored[p] < |disk.data| && forall i | 0 <= i < |changes| :: changes[i].page.id != p
    ensures var crashed := WrittenOut(disk, plan, metaPages, buckets);
            && AllCounted(plan.wal.entries, |plan.wal.entries|)
            && DataAfter(crashed.data, plan.wal.entries, |plan.wal.entries|)[stored[p]] == disk.data[stored[p]]
  {
    hide DataAfter, MetaAfter, TableOk;
    var es, b, crashed := plan.wal.entries, stored[p], WrittenOut(disk, plan, metaPages, buckets);
    PlanCounted(disk, plan, hash);
    StoredKept(stored, changes, es, |es|, p);
    LabelOf(plan.meta, |disk.data|, LabelsAfter(Labels(disk.data), es, |es|), hash,
            StoredAfter(stored, changes, es, |es|), p);
    LabelIs(Labels(disk.data), es, |es|, b);
    var last := LastUpdate(es, |es|, b);
    if last.Some? { NamesChange(changes, es, plan.writes, last.value); }
    HeaderIs(crashed.data, es, |es|, b);
  }

  lemma NamesChange(changes: seq<Change>, es: seq<WalEntry>, writes: map<nat, DataPage>, i: nat)
    requires EntriesFor(changes, es, writes) && i < |es| && es[i].UpdateEntry?
    ensures es[i].id == changes[i].page.id
  {
    assert EntryFor(changes[i], es[i], writes);
  }

  lemma LabelOf(bytes: seq<Byte>, m: nat, labels: seq<Label>, hash: Label -> Hash, stored: map<Label, nat>, p: Label)
    requires TableOk(bytes, m, labels, hash, stored) && p in stored
    ensures stored[p] < |labels| && labels[stored[p]] == p
  {
    assert HasPage(bytes, m, labels, hash(p), p, stored[p]);
  }

  /** A page that is updated is in the bucket of its log entry. */
  lemma UpdatedBucket(s: Sync, i: nat)
    requires s.Ok() && i < |s.changes| && !s.changes[i].diff.Cleared()
    ensures s.plan.wal.entries[i].UpdateEntry?
    ensures s.changes[i].page.id in s.After() && s.After()[s.changes[i].page.id] == s.plan.wal.entries[i].bucket
    ensures s.changes[i].page.id in s.stored ==> s.plan.wal.entries[i].bucket == s.stored[s.changes[i].page.id]
  {
    hide PlanOk, TableThen, TableOk;
    assert EntryFor(s.changes[i], s.plan.wal.entries[i], s.plan.writes) && ChangeFits(s.changes[i], s.stored);
    forall j | i < j < |s.changes| ensures OtherPage(s.changes, i, j) {}
    StoredNow(s.stored, s.changes, s.plan.wal.entries, |s.changes|, i);
  }

  lemma UpdatedBack(s: Sync, metaPages: set<nat>, buckets: set<nat>, id: PageId)
    requires s.Ok() && id in s.output && !s.output[id].diff.Cleared() && (s.output[id].isNew || id in s.pages.pages)
    ensures forall slot | 0 <= slot < NODES_PER_PAGE ::
              SlotBack(s.pages, s.output[id], id in s.Written(buckets), PageRead(s.Back(metaPages, buckets), id), slot)
  {
    hide PlanOk, EntriesFor, TableFits, TableThen, StoredAfter;
    var i := IndexIn(s.ids, id);
    assert ChangeOf(s.output, id, s.changes[i], s.name);
    UpdatedBucket(s, i);
    var es := s.plan.wal.entries;
    forall slot | 0 <= slot < NODES_PER_PAGE
      ensures SlotBack(s.pages, s.output[id], id in s.Written(buckets), PageRead(s.Back(metaPages, buckets), id), slot)
    {
      RecoveredTable(s.disk, s.plan, s.hash, metaPages, buckets, s.changes, s.stored);
      RepairedSlot(s.disk, s.plan, s.hash, metaPages, buckets, s.changes, i, slot);
      if id in s.pages.pages { assert IsOnDisk(s.pages.pages[id], s.disk, s.name(id), s.stored); }
    }
  }

  /** The logged diff of an updated page is complete just when it covers what has changed in its bucket. */
  lemma CompleteIff(s: Sync, i: nat)
    requires s.Ok() && i < |s.changes| && s.plan.wal.entries[i].UpdateEntry?
             && s.plan.wal.entries[i].bucket < |s.disk.data|
    ensures var b := s.plan.wal.entries[i].bucket;
            DiffComplete(s.disk, s.plan, b) <==> CoversChanges(s.disk.data[b].nodes, s.output[s.ids[i]])
  {
    hide PlanOk, TableFits, TableThen, WritesSlot, EntryFor, UpdatesApart;
    assert ChangeOf(s.output, s.ids[i], s.changes[i], s.name);
    IsWritten(s.changes, s.plan.wal.entries, s.plan.writes, i);
    forall slot | 0 <= slot < NODES_PER_PAGE
      ensures WritesSlot(s.plan.wal.entries, |s.plan.wal.entries|, s.plan.wal.entries[i].bucket, slot)
              <==> s.changes[i].diff.Changed(slot)
    {
      OnlyUpdate(s.changes, s.plan.wal.entries, s.plan.writes, i, slot);
    }
  }

  lemma IsWritten(changes: seq<Change>, es: seq<WalEntry>, writes: map<nat, DataPage>, i: nat)
    requires EntriesFor(changes, es, writes) && i < |es| && es[i].UpdateEntry?
    ensures es[i].bucket in writes && writes[es[i].bucket] == changes[i].page
  {
    assert EntryFor(changes[i], es[i], writes);
  }

  /** The page of a bucket, written by a walk that loaded it, comes back whole after a crash that comes
      before it is written if and only if no slot of its first layer that held a node was only ever
      emptied by clearing writes. */
  lemma WholePageIff(s: Sync, i: nat, metaPages: set<nat>, writes: seq<SlotWrite>)
    requires s.Ok() && i < |s.changes| && !s.changes[i].diff.Cleared() && s.ids[i] in s.pages.pages
    requires RunIs(Load(s.pages, s.ids[i]), writes, s.output[s.ids[i]], 0)
    ensures var start, b, page0 := Load(s.pages, s.ids[i]), s.plan.wal.entries[i].bucket, s.pages.pages[s.ids[i]];
            && b < |s.disk.data| && s.disk.data[b].nodes == page0
            && (s.Repaired(metaPages, {}).data[b] == Completed(s.disk, s.plan).data[b] <==>
                forall slot | 0 <= slot < 2 && Touched(writes, |writes|, slot)
                              && !Marked(start, writes, |writes|, slot) ::
                  page0[slot] == Terminator)
  {
    hide TableFits, TableThen, EntriesFor, Touched, Marked, StoredAfter, Run, CoversChanges, DiffComplete;
    assert ChangeOf(s.output, s.ids[i], s.changes[i], s.name);
    assert IsOnDisk(s.pages.pages[s.ids[i]], s.disk, s.name(s.ids[i]), s.stored);
    UpdatedBucket(s, i);
    CompleteIff(s, i);
    CoversIff(s.ids[i], s.pages.pages[s.ids[i]], writes);
    RepairsWholeIff(s.disk, s.plan, s.hash, metaPages, s.plan.wal.entries[i].bucket);
  }

  /** What recovery brings back is what the diffs of the pages say. */
  lemma DiffsBringBack(s: Sync, metaPages: set<nat>, buckets: set<nat>)
    requires s.Ok()
    ensures BroughtBack(s.pages, s.output, s.Written(buckets), s.Back(metaPages, buckets))
  {
    hide PageRead, SlotBack, Sync.Back, Sync.Written, PageOf, PlanOk, EntriesFor, TableFits, TableThen;
    forall y: Path | 0 < |y| <= KEY_BITS
      ensures PageBack(s.pages, s.output, s.Written(buckets), s.Back(metaPages, buckets), PageOf(y))
    {
      var id := PageOf(y);
      if id !in s.output {
        OthersBack(s, metaPages, buckets, id);
      } else if !s.output[id].diff.Cleared() {
        UpdatedBack(s, metaPages, buckets, id);
      }
    }
  }

  /** After a crash at any point of writing out, recovery gives the updated trie if and only if every page
      that flips was written. */
  lemma SyncRecoversIff(s: Sync, root: Node, m0: State, newRoot: Node, m: State, metaPages: set<nat>, buckets: set<nat>)
    requires s.Ok() && UpdateOk(root, s.pages, m0, newRoot, s.output, m)
    ensures Holds(StoredMem(newRoot, s.Back(metaPages, buckets)), m, []) <==> NoLoss(m0, m, s.Written(buckets))
  {
    hide Sync.Ok, Sync.Back, Sync.Written, BroughtBack, UpdateOk, NoLoss, Holds, StoredMem;
    DiffsBringBack(s, metaPages, buckets);
    RecoversIff(root, s.pages, m0, newRoot, s.output, m, s.Written(buckets), s.Back(metaPages, buckets));
  }

  // ----- a sync that is written out whole

  lemma FinishedIs(s: Sync)
    requires s.Ok()
    ensures s.Repaired(s.plan.metaPages, s.plan.writes.Keys) == Completed(s.disk, s.plan)
  {
    hide LabelsApart, ChangesOf, OnDisk, EntriesFor, TableFits, PlanOk, TableThen;
    ReplayCompleted(s.disk, s.plan, s.hash);
  }

  /** It loses nothing, whatever flips. */
  lemma FinishedKeepsAll(s: Sync, root: Node, m0: State, newRoot: Node, m: State)
    requires s.Ok() && UpdateOk(root, s.pages, m0, newRoot, s.output, m)
    ensures NoLoss(m0, m, s.Written(s.plan.writes.Keys))
  {
    hide Sync.Ok, Sync.Written, UpdateOk, Flips, PageOf;
    forall x: Path ensures !LosesAt(m0, m, s.Written(s.plan.writes.Keys), x) {
      if Flips(m0, m, x) {
        FlipIsKept(root, s.pages, m0, newRoot, s.output, m, x);
        FinishedWrites(s, PageOf(x + [false]));
      }
    }
  }

  lemma FlipIsKept(root: Node, pages: PageSet, m0: State, newRoot: Node, output: UpdatedPages, m: State, x: Path)
    requires UpdateOk(root, pages, m0, newRoot, output, m) && Flips(m0, m, x)
    ensures PageOf(x + [false]) in output && !output[PageOf(x + [false])].diff.Cleared()
  {
    hide UpdateOk, Sub, PageOf;
    FlipIsPutOut(root, pages, m0, newRoot, output, m, x);
    FirstLayerNodes(root, pages, m0, newRoot, output, m, x);
  }

  lemma FinishedWrites(s: Sync, id: PageId)
    requires s.Ok() && id in s.output && !s.output[id].diff.Cleared()
    ensures id in s.Written(s.plan.writes.Keys)
  {
    hide PlanOk, TableFits, TableThen, EntriesFor, Sync.After;
    var i := IndexIn(s.ids, id);
    assert ChangeOf(s.output, id, s.changes[i], s.name);
    UpdatedBucket(s, i);
    IsWritten(s.changes, s.plan.wal.entries, s.plan.writes, i);
  }
}
