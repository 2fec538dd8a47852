/** Writing a batch of pages to the bucket table through a redo log, and repairing the table from the
    log after a crash. */
module Recovery {
  import opened Wrappers
  import opened Trie
  import opened TriePos
  import opened CountLeaves
  import opened PageDiffs
  import opened Probing
  import opened HashTable

  const META_PAGE: nat := 4096

  /** A stored page: its nodes, the bit field of its elided children and its label. */
  datatype DataPage = DataPage(nodes: Page, elided: nat, id: Label)

  /** The table file: meta bytes, in pages of 4096, and one page per bucket. */
  datatype Disk = Disk(meta: seq<Byte>, data: seq<DataPage>)

  datatype WalEntry =
    | ClearEntry(bucket: nat)
    | UpdateEntry(id: Label, diff: PageDiff, changed: seq<Node>, elided: nat, bucket: nat)

  datatype Wal = Wal(seqn: nat, entries: seq<WalEntry>)

  /** The entry names an existing bucket, and no reserved bit of its diff is set. */
  ghost predicate EntryOk(e: WalEntry, buckets: nat) {
    e.bucket < buckets && (e.UpdateEntry? ==> e.diff.Plain())
  }

  ghost predicate EntriesOk(es: seq<WalEntry>, buckets: nat) {
    forall i | 0 <= i < |es| :: EntryOk(es[i], buckets)
  }

  /** The entry carries as many nodes as its diff counts. */
  ghost predicate Counted(e: WalEntry) {
    e.UpdateEntry? ==> e.diff.Plain() && |e.changed| == |Ones(e.diff)|
  }

  ghost predicate AllCounted(es: seq<WalEntry>, n: nat)
    requires n <= |es|
  {
    forall i | 0 <= i < n :: Counted(es[i])
  }

  ghost predicate DiskOk(disk: Disk) {
    0 < |disk.data| <= |disk.meta| && |disk.meta| % META_PAGE == 0
  }

  // ----- what replaying the log does

  ghost function MetaByte(e: WalEntry, hash: Label -> Hash): Byte {
    if e.ClearEntry? then TOMBSTONE else FullEntry(hash(e.id))
  }

  ghost function MetaAfter(bytes: seq<Byte>, hash: Label -> Hash, es: seq<WalEntry>, n: nat): (r: seq<Byte>)
    requires n <= |es| && EntriesOk(es, |bytes|)
    ensures |r| == |bytes|
  {
    if n == 0 then bytes else MetaAfter(bytes, hash, es, n - 1)[es[n - 1].bucket := MetaByte(es[n - 1], hash)]
  }

  ghost function PageAfter(e: WalEntry, page: DataPage): DataPage
    requires e.UpdateEntry? && Counted(e)
  {
    DataPage(Unpacked(Ones(e.diff), e.changed, page.nodes, |e.changed|), e.elided, e.id)
  }

  ghost function DataAfter(data: seq<DataPage>, es: seq<WalEntry>, n: nat): (r: seq<DataPage>)
    requires n <= |es| && EntriesOk(es, |data|) && AllCounted(es, n)
    ensures |r| == |data|
  {
    if n == 0 then data
    else
      var before, e := DataAfter(data, es, n - 1), es[n - 1];
      if e.ClearEntry? then before else before[e.bucket := PageAfter(e, before[e.bucket])]
  }

  /** The last of the first `n` entries that names the bucket. */
  ghost function LastEntry(es: seq<WalEntry>, n: nat, b: nat): Option<nat>
    requires n <= |es|
  {
    if n == 0 then None else if es[n - 1].bucket == b then Some(n - 1) else LastEntry(es, n - 1, b)
  }

  ghost function LastUpdate(es: seq<WalEntry>, n: nat, b: nat): (r: Option<nat>)
    requires n <= |es|
    ensures r.Some? ==> r.value < n && es[r.value].UpdateEntry? && es[r.value].bucket == b
  {
    if n == 0 then None
    else if es[n - 1].UpdateEntry? && es[n - 1].bucket == b then Some(n - 1) else LastUpdate(es, n - 1, b)
  }

  lemma {:induction false} MetaIs(bytes: seq<Byte>, hash: Label -> Hash, es: seq<WalEntry>, n: nat, b: nat)
    requires n <= |es| && EntriesOk(es, |bytes|) && b < |bytes|
    ensures var last := LastEntry(es, n, b);
            && (last.Some? ==> last.value < n)
            && MetaAfter(bytes, hash, es, n)[b] == if last.Some? then MetaByte(es[last.value], hash) else bytes[b]
  {
    if n > 0 { MetaIs(bytes, hash, es, n - 1, b); }
  }

  /** Whether some update of the bucket writes the slot. */
  ghost predicate WritesSlot(es: seq<WalEntry>, n: nat, b: nat, slot: nat)
    requires n <= |es| && slot < NODES_PER_PAGE
  {
    exists i | 0 <= i < n :: es[i].UpdateEntry? && es[i].bucket == b && es[i].diff.Changed(slot)
  }

  /** A slot that some update writes ends up the same whatever was there; any other is left alone. */
  lemma {:induction false} SlotIs(data: seq<DataPage>, data': seq<DataPage>, es: seq<WalEntry>, n: nat, b: nat,
                                  slot: nat)
    requires n <= |es| && EntriesOk(es, |data|) && AllCounted(es, n) && |data'| == |data| && b < |data|
             && slot < NODES_PER_PAGE
    ensures WritesSlot(es, n, b, slot) ==>
              DataAfter(data, es, n)[b].nodes[slot] == DataAfter(data', es, n)[b].nodes[slot]
    ensures !WritesSlot(es, n, b, slot) ==> DataAfter(data, es, n)[b].nodes[slot] == data[b].nodes[slot]
  {
    if n > 0 {
      SlotIs(data, data', es, n - 1, b, slot);
      var e := es[n - 1];
      assert EntryOk(e, |data|);
      if e.UpdateEntry? && e.bucket == b {
        UnpackedIs(e.diff, e.changed, DataAfter(data, es, n - 1)[b].nodes, slot);
        UnpackedIs(e.diff, e.changed, DataAfter(data', es, n - 1)[b].nodes, slot);
        if e.diff.Changed(slot) { assert WritesSlot(es, n, b, slot); }
      }
      assert WritesSlot(es, n - 1, b, slot) ==> WritesSlot(es, n, b, slot);
    }
  }

  lemma {:induction false} HeaderIs(data: seq<DataPage>, es: seq<WalEntry>, n: nat, b: nat)
    requires n <= |es| && EntriesOk(es, |data|) && AllCounted(es, n) && b < |data|
    ensures var page, last := DataAfter(data, es, n)[b], LastUpdate(es, n, b);
            if last.Some? then page.id == es[last.value].id && page.elided == es[last.value].elided
            else page == data[b]
  {
    if n > 0 { HeaderIs(data, es, n - 1, b); }
  }

  // ----- recovery

  datatype RecoveryError = MismatchedNodes

  /** The table file with the whole log applied. */
  ghost function Replayed(disk: Disk, wal: Wal, hash: Label -> Hash): Disk
    requires DiskOk(disk) && EntriesOk(wal.entries, |disk.data|) && AllCounted(wal.entries, |wal.entries|)
  {
    Disk(MetaAfter(disk.meta, hash, wal.entries, |wal.entries|), DataAfter(disk.data, wal.entries, |wal.entries|))
  }

  /** Apply the log to the table file, unless it belongs to another sync. */
  method Recover(seqn: nat, disk: Disk, wal: Wal, hash: Label -> Hash)
    returns (r: Result<Disk, RecoveryError>, meta: MetaMap)
    requires DiskOk(disk) && EntriesOk(wal.entries, |disk.data|)
    ensures r.Ok? <==> wal.seqn != seqn || AllCounted(wal.entries, |wal.entries|)
    ensures wal.seqn != seqn ==> r.value == disk
    ensures r.Ok? && wal.seqn == seqn ==> r.value == Replayed(disk, wal, hash)
    ensures r.Ok? ==> meta.bitvec == r.value.meta && meta.buckets == |disk.data|
  {
    meta := new MetaMap(disk.meta, |disk.data|);
    if wal.seqn != seqn { return Ok(disk), meta; }
    var data, changed: set<nat> := disk.data, {};
    var es := wal.entries;
    for n := 0 to |es|
      invariant AllCounted(es, n)
      invariant meta.bitvec == MetaAfter(disk.meta, hash, es, n) && data == DataAfter(disk.data, es, n)
      invariant OnlyIn(disk.meta, meta.bitvec, changed)
    {
      var e := es[n];
      assert EntryOk(e, |disk.data|);
      match e {
        case ClearEntry(bucket) =>
          meta.SetTombstone(bucket);
          changed := changed + {bucket / META_PAGE};
        case UpdateEntry(id, diff, nodes, elided, bucket) =>
          if meta.HintNotMatch(bucket, hash(id)) {
            meta.SetFull(bucket, hash(id));
            changed := changed + {bucket / META_PAGE};
          }
          var ones := IterOnes(diff);
          if |ones| != |nodes| { return Err(MismatchedNodes), meta; }
          var page := UnpackChangedNodes(diff, nodes, data[bucket].nodes);
          data := data[bucket := DataPage(page, elided, id)];
      }
    }
    WritePagesIs(disk.meta, meta.bitvec, changed);
    r := Ok(Disk(WritePages(disk.meta, meta.bitvec, changed), data));
  }

  /** Outside the listed meta pages the bytes agree. */
  ghost predicate OnlyIn(bytes: seq<Byte>, bytes': seq<Byte>, pages: set<nat>) {
    |bytes| == |bytes'| && forall b | 0 <= b < |bytes| && bytes[b] != bytes'[b] :: b / META_PAGE in pages
  }

  /** The bytes with the listed meta pages overwritten. */
  function WritePages(bytes: seq<Byte>, bytes': seq<Byte>, pages: set<nat>): (r: seq<Byte>)
    requires |bytes| == |bytes'|
    ensures |r| == |bytes|
  {
    seq(|bytes|, b requires 0 <= b < |bytes| => if b / META_PAGE in pages then bytes'[b] else bytes[b])
  }

  lemma WritePagesIs(bytes: seq<Byte>, bytes': seq<Byte>, pages: set<nat>)
    requires OnlyIn(bytes, bytes', pages)
    ensures WritePages(bytes, bytes', pages) == bytes'
  {
  }

  // ----- crashing while the batch is written out

  /** What a sync writes to the table file: the meta bytes afterwards, the meta pages that changed,
      and a page for each written bucket. */
  datatype Plan = Plan(wal: Wal, meta: seq<Byte>, metaPages: set<nat>, writes: map<nat, DataPage>)

  /** The table file with some of the planned pages written. */
  function WrittenOut(disk: Disk, plan: Plan, metaPages: set<nat>, buckets: set<nat>): Disk
    requires |plan.meta| == |disk.meta|
  {
    Disk(WritePages(disk.meta, plan.meta, metaPages),
         seq(|disk.data|, b requires 0 <= b < |disk.data| =>
           if b in buckets && b in plan.writes then plan.writes[b] else disk.data[b]))
  }

  ghost function Completed(disk: Disk, plan: Plan): Disk
    requires |plan.meta| == |disk.meta|
  {
    WrittenOut(disk, plan, plan.metaPages, plan.writes.Keys)
  }

  /** The entry logs exactly the page that is to be written. */
  ghost predicate Logs(e: WalEntry, page: DataPage) {
    && e.UpdateEntry? && e.diff.Plain() && page.id == e.id && page.elided == e.elided
    && e.changed == Packed(Ones(e.diff), page.nodes)
  }

  ghost predicate LogsAt(es: seq<WalEntry>, i: nat, writes: map<nat, DataPage>)
    requires i < |es|
  {
    es[i].UpdateEntry? ==> es[i].bucket in writes && Logs(es[i], writes[es[i].bucket])
  }

  /** The log says what the plan writes: each updated bucket is written with the logged page, each
      written bucket is updated, and the meta bytes are those the log leads to. */
  ghost predicate PlanOk(disk: Disk, plan: Plan, hash: Label -> Hash) {
    var es := plan.wal.entries;
    && DiskOk(disk) && EntriesOk(es, |disk.data|)
    && (forall i | 0 <= i < |es| :: LogsAt(es, i, plan.writes))
    && (forall b | b in plan.writes :: b < |disk.data| && LastUpdate(es, |es|, b).Some?)
    && plan.meta == MetaAfter(disk.meta, hash, es, |es|) && OnlyIn(disk.meta, plan.meta, plan.metaPages)
  }

  lemma PlanCounted(disk: Disk, plan: Plan, hash: Label -> Hash)
    requires PlanOk(disk, plan, hash)
    ensures AllCounted(plan.wal.entries, |plan.wal.entries|)
  {
    forall i | 0 <= i < |plan.wal.entries| ensures Counted(plan.wal.entries[i]) {
      assert LogsAt(plan.wal.entries, i, plan.writes);
    }
  }

  /** A logged slot ends up with the planned node. */
  lemma {:induction false} LoggedSlot(data: seq<DataPage>, es: seq<WalEntry>, n: nat, writes: map<nat, DataPage>,
                                      b: nat, slot: nat)
    requires n <= |es| && EntriesOk(es, |data|) && AllCounted(es, n) && b < |data| && slot < NODES_PER_PAGE
    requires forall i | 0 <= i < |es| :: LogsAt(es, i, writes)
    ensures WritesSlot(es, n, b, slot) ==> b in writes && DataAfter(data, es, n)[b].nodes[slot] == writes[b].nodes[slot]
  {
    if n > 0 {
      LoggedSlot(data, es, n - 1, writes, b, slot);
      var e := es[n - 1];
      assert LogsAt(es, n - 1, writes) && Counted(e);
      if e.UpdateEntry? && e.bucket == b {
        UnpackedIs(e.diff, e.changed, DataAfter(data, es, n - 1)[b].nodes, slot);
      }
    }
  }

  /** Outside the logged slots the planned page is what the bucket held: the diff is complete. */
  ghost predicate DiffComplete(disk: Disk, plan: Plan, b: nat)
    requires b < |disk.data|
  {
    b in plan.writes ==>
      forall slot | 0 <= slot < NODES_PER_PAGE && !WritesSlot(plan.wal.entries, |plan.wal.entries|, b, slot) ::
        plan.writes[b].nodes[slot] == disk.data[b].nodes[slot]
  }

  /** A crash with any of the planned pages written is repaired to the completed sync: the same meta
      bytes, labels and child bits, the same nodes in all logged slots, and the whole page wherever
      the diff is complete. */
  lemma CrashAtomic(disk: Disk, plan: Plan, hash: Label -> Hash, metaPages: set<nat>, buckets: set<nat>, b: nat)
    requires PlanOk(disk, plan, hash) && b < |disk.data|
    ensures var crashed := WrittenOut(disk, plan, metaPages, buckets);
            var es, done := plan.wal.entries, Completed(disk, plan);
            && DiskOk(crashed) && AllCounted(es, |es|) && EntriesOk(es, |crashed.data|)
            && var repaired := Replayed(crashed, plan.wal, hash);
            && repaired.meta == done.meta == plan.meta
            && repaired.data[b].id == done.data[b].id && repaired.data[b].elided == done.data[b].elided
            && (forall slot | 0 <= slot < NODES_PER_PAGE && WritesSlot(es, |es|, b, slot) ::
                  repaired.data[b].nodes[slot] == done.data[b].nodes[slot])
            && (b !in plan.writes || DiffComplete(disk, plan, b) ==> repaired.data[b] == done.data[b])
  {
    PlanCounted(disk, plan, hash);
    WritePagesIs(disk.meta, plan.meta, plan.metaPages);
    var crashed := WrittenOut(disk, plan, metaPages, buckets);
    CrashedMeta(disk, plan, hash, metaPages);
    CrashedHeader(disk, plan, hash, metaPages, buckets, b);
    forall slot | 0 <= slot < NODES_PER_PAGE
      ensures var es, done := plan.wal.entries, Completed(disk, plan);
              (WritesSlot(es, |es|, b, slot) || b !in plan.writes || DiffComplete(disk, plan, b)) ==>
                Replayed(crashed, plan.wal, hash).data[b].nodes[slot] == done.data[b].nodes[slot]
    {
      if WritesSlot(plan.wal.entries, |plan.wal.entries|, b, slot) || b !in plan.writes || DiffComplete(disk, plan, b) {
        CrashedSlot(disk, plan, hash, metaPages, buckets, b, slot);
      }
    }
  }

  /** The diff has to be complete: a crash before the page itself is written is repaired to the whole
      page if and only if it is. */
  lemma RepairsWholeIff(disk: Disk, plan: Plan, hash: Label -> Hash, metaPages: set<nat>, b: nat)
    requires PlanOk(disk, plan, hash) && b < |disk.data|
    ensures AllCounted(plan.wal.entries, |plan.wal.entries|)
    ensures var repaired := DataAfter(WrittenOut(disk, plan, metaPages, {}).data, plan.wal.entries, |plan.wal.entries|);
            repaired[b] == Completed(disk, plan).data[b] <==> DiffComplete(disk, plan, b)
  {
    var es, data := plan.wal.entries, WrittenOut(disk, plan, metaPages, {}).data;
    CrashAtomic(disk, plan, hash, metaPages, {}, b);
    if b in plan.writes && !DiffComplete(disk, plan, b) {
      var slot :| 0 <= slot < NODES_PER_PAGE && !WritesSlot(es, |es|, b, slot)
                  && plan.writes[b].nodes[slot] != disk.data[b].nodes[slot];
      SlotIs(data, data, es, |es|, b, slot);
    }
  }

  lemma CrashedMeta(disk: Disk, plan: Plan, hash: Label -> Hash, metaPages: set<nat>)
    requires PlanOk(disk, plan, hash)
    ensures MetaAfter(WritePages(disk.meta, plan.meta, metaPages), hash, plan.wal.entries, |plan.wal.entries|)
            == plan.meta
  {
    var bytes, es := WritePages(disk.meta, plan.meta, metaPages), plan.wal.entries;
    var after := MetaAfter(bytes, hash, es, |es|);
    forall b | 0 <= b < |bytes| ensures after[b] == plan.meta[b] {
      MetaIs(disk.meta, hash, es, |es|, b);
      MetaIs(bytes, hash, es, |es|, b);
    }
  }

  lemma CrashedHeader(disk: Disk, plan: Plan, hash: Label -> Hash, metaPages: set<nat>, buckets: set<nat>, b: nat)
    requires PlanOk(disk, plan, hash) && b < |disk.data| && AllCounted(plan.wal.entries, |plan.wal.entries|)
    ensures var es := plan.wal.entries;
            var page := DataAfter(WrittenOut(disk, plan, metaPages, buckets).data, es, |es|)[b];
            page.id == Completed(disk, plan).data[b].id && page.elided == Completed(disk, plan).data[b].elided
  {
    var es := plan.wal.entries;
    HeaderIs(WrittenOut(disk, plan, metaPages, buckets).data, es, |es|, b);
    if LastUpdate(es, |es|, b).Some? { assert LogsAt(es, LastUpdate(es, |es|, b).value, plan.writes); }
  }

  lemma CrashedSlot(disk: Disk, plan: Plan,
                    hash: Label -> Hash, metaPages: set<nat>, buckets: set<nat>, b: nat, slot: nat)
    requires PlanOk(disk, plan, hash) && b < |disk.data| && slot < NODES_PER_PAGE
    requires AllCounted(plan.wal.entries, |plan.wal.entries|)
    requires WritesSlot(plan.wal.entries, |plan.wal.entries|, b, slot) || b !in plan.writes
             || DiffComplete(disk, plan, b)
    ensures var es := plan.wal.entries;
            DataAfter(WrittenOut(disk, plan, metaPages, buckets).data, es, |es|)[b].nodes[slot]
            == Completed(disk, plan).data[b].nodes[slot]
  {
    var es, data := plan.wal.entries, WrittenOut(disk, plan, metaPages, buckets).data;
    LoggedSlot(data, es, |es|, plan.writes, b, slot);
    SlotIs(data, data, es, |es|, b, slot);
  }

  /** After a sync that is written out whole the log has nothing left to do. */
  lemma ReplayCompleted(disk: Disk, plan: Plan, hash: Label -> Hash)
    requires PlanOk(disk, plan, hash)
    ensures var done := Completed(disk, plan);
            && DiskOk(done) && AllCounted(plan.wal.entries, |plan.wal.entries|)
            && EntriesOk(plan.wal.entries, |done.data|)
            && done.meta == plan.meta && Replayed(done, plan.wal, hash) == done
  {
    var done, es := Completed(disk, plan), plan.wal.entries;
    PlanCounted(disk, plan, hash);
    WritePagesIs(disk.meta, plan.meta, plan.metaPages);
    CrashedMeta(disk, plan, hash, plan.metaPages);
    var data := DataAfter(done.data, es, |es|);
    forall b | 0 <= b < |data| ensures data[b] == done.data[b] { CompletedBucket(disk, plan, hash, b); }
  }

  lemma CompletedBucket(disk: Disk, plan: Plan, hash: Label -> Hash, b: nat)
    requires PlanOk(disk, plan, hash) && b < |disk.data| && AllCounted(plan.wal.entries, |plan.wal.entries|)
    ensures DataAfter(Completed(disk, plan).data, plan.wal.entries, |plan.wal.entries|)[b]
            == Completed(disk, plan).data[b]
  {
    var done, es := Completed(disk, plan), plan.wal.entries;
    CrashedHeader(disk, plan, hash, plan.metaPages, plan.writes.Keys, b);
    forall slot | 0 <= slot < NODES_PER_PAGE
      ensures DataAfter(done.data, es, |es|)[b].nodes[slot] == done.data[b].nodes[slot]
    {
      LoggedSlot(done.data, es, |es|, plan.writes, b, slot);
      SlotIs(done.data, done.data, es, |es|, b, slot);
    }
  }

  /** Replaying the log once more changes nothing. */
  lemma ReplayTwice(disk: Disk, wal: Wal, hash: Label -> Hash)
    requires DiskOk(disk) && EntriesOk(wal.entries, |disk.data|) && AllCounted(wal.entries, |wal.entries|)
    ensures Replayed(Replayed(disk, wal, hash), wal, hash) == Replayed(disk, wal, hash)
  {
    var once, es := Replayed(disk, wal, hash), wal.entries;
    var meta, data := MetaAfter(once.meta, hash, es, |es|), DataAfter(once.data, es, |es|);
    forall b | 0 <= b < |meta| ensures meta[b] == once.meta[b] {
      MetaIs(disk.meta, hash, es, |es|, b);
      MetaIs(once.meta, hash, es, |es|, b);
    }
    forall b | 0 <= b < |data| ensures data[b] == once.data[b] {
      HeaderIs(disk.data, es, |es|, b);
      HeaderIs(once.data, es, |es|, b);
      forall slot | 0 <= slot < NODES_PER_PAGE ensures data[b].nodes[slot] == once.data[b].nodes[slot] {
        SlotIs(once.data, disk.data, es, |es|, b, slot);
      }
    }
  }

  // ----- preparing a sync

  datatype BucketInfo = Known(bucket: nat) | FreshWithNoDependents | FreshOrDependent(maybe: Option<nat>)

  /** A changed page with its diff and what is known of its bucket. */
  datatype Change = Change(page: DataPage, diff: PageDiff, info: BucketInfo) {
    function Bucket(): Option<nat> {
      match info
      case Known(bucket) => Some(bucket)
      case FreshWithNoDependents => None
      case FreshOrDependent(maybe) => maybe
    }
  }

  /** A page that has a bucket is marked there; only such a page may be cleared. */
  ghost predicate ChangeOk(bytes: seq<Byte>, m: nat, hash: Label -> Hash, c: Change)
    requires m <= |bytes|
  {
    && (c.Bucket().Some? ==> c.Bucket().value < m && bytes[c.Bucket().value] == FullEntry(hash(c.page.id)))
    && (if c.diff.Cleared() then c.Bucket().Some? else c.diff.Plain())
  }

  ghost predicate OtherBucket(changes: seq<Change>, i: nat, j: nat)
    requires i < |changes| && j < |changes|
  {
    changes[i].Bucket().Some? ==> changes[i].Bucket() != changes[j].Bucket()
  }

  ghost predicate ChangesOk(bytes: seq<Byte>, m: nat, hash: Label -> Hash, changes: seq<Change>, from: nat)
    requires m <= |bytes|
  {
    && (forall i | from <= i < |changes| :: ChangeOk(bytes, m, hash, changes[i]))
    && (forall i, j | from <= i < j < |changes| :: OtherBucket(changes, i, j))
  }

  /** The free buckets that probing for a hash comes to. */
  ghost function FreeOn(bytes: seq<Byte>, m: nat, hash: Hash): set<nat>
    requires 0 < m <= |bytes|
  {
    set b | 0 <= b < m && (bytes[b] == EMPTY || bytes[b] == TOMBSTONE) && exists k: nat :: ProbeAt(hash, m, k) == b
  }

  /** Enough of them that allocating for all changes cannot use them up. */
  ghost predicate Spare(bytes: seq<Byte>, m: nat, hash: Label -> Hash, changes: seq<Change>, n: nat)
    requires 0 < m <= |bytes|
  {
    forall i | 0 <= i < |changes| && changes[i].Bucket().None? :: |FreeOn(bytes, m, hash(changes[i].page.id))| >= n
  }

  lemma SpareStops(bytes: seq<Byte>, m: nat, hash: Hash)
    requires 0 < m <= |bytes| && |FreeOn(bytes, m, hash)| >= 1
    ensures Stops(bytes, m, hash)
  {
    hide ProbeAt;
    var b :| b in FreeOn(bytes, m, hash);
    var k: nat :| ProbeAt(hash, m, k) == b;
    assert StopsAt(bytes, m, hash, k);
  }

  lemma FreeStays(bytes: seq<Byte>, m: nat, hash: Hash, b: nat, value: Byte)
    requires 0 < m <= |bytes| && b < |bytes|
    ensures FreeOn(bytes, m, hash) - {b} <= FreeOn(bytes[b := value], m, hash)
  {
    hide ProbeAt;
  }

  lemma OneLess(before: set<nat>, after: set<nat>, b: nat)
    requires before - {b} <= after
    ensures |after| >= |before| - 1
  {
    Larger(before - {b}, after);
  }

  lemma {:induction false} Larger(s: set<nat>, t: set<nat>)
    requires s <= t
    ensures |s| <= |t|
    decreases |s|
  {
    if s != {} {
      var x :| x in s;
      Larger(s - {x}, t - {x});
    }
  }

  /** The meta bytes after one change: a cleared page leaves a tombstone, a page without a bucket takes the
      first free one. */
  ghost function MarkChange(bytes: seq<Byte>, m: nat, hash: Label -> Hash, c: Change): (r: seq<Byte>)
    requires 0 < m <= |bytes|
    ensures |r| == |bytes|
  {
    if c.diff.Cleared() then
      if c.Bucket().Some? && c.Bucket().value < |bytes| then bytes[c.Bucket().value := TOMBSTONE] else bytes
    else if c.Bucket().None? && Frees(bytes, m, hash(c.page.id)) then
      bytes[FirstBucket(bytes, m, hash(c.page.id)) := FullEntry(hash(c.page.id))]
    else bytes
  }

  ghost predicate Frees(bytes: seq<Byte>, m: nat, hash: Hash)
    requires 0 < m <= |bytes|
  {
    exists k: nat :: FirstFree(bytes, m, hash, k)
  }

  ghost function FirstBucket(bytes: seq<Byte>, m: nat, hash: Hash): (b: nat)
    requires 0 < m <= |bytes| && Frees(bytes, m, hash)
    ensures b < m
  {
    var k: nat :| FirstFree(bytes, m, hash, k);
    InTable(hash, m, k);
    ProbeAt(hash, m, k)
  }

  lemma FirstBucketIs(bytes: seq<Byte>, m: nat, hash: Hash, k: nat)
    requires 0 < m <= |bytes| && FirstFree(bytes, m, hash, k)
    ensures Frees(bytes, m, hash) && FirstBucket(bytes, m, hash) == ProbeAt(hash, m, k)
  {
    hide ProbeAt, FreeAt;
  }

  ghost function MarkedAfter(bytes: seq<Byte>, m: nat, hash: Label -> Hash, changes: seq<Change>, n: nat)
    : (r: seq<Byte>)
    requires 0 < m <= |bytes| && n <= |changes|
    ensures |r| == |bytes|
  {
    if n == 0 then bytes else MarkChange(MarkedAfter(bytes, m, hash, changes, n - 1), m, hash, changes[n - 1])
  }

  /** The change needs a bucket. */
  predicate Wants(c: Change) { !c.diff.Cleared() && c.Bucket().None? }

  /** The change needs a bucket and finds none. */
  ghost predicate Exhausts(bytes: seq<Byte>, m: nat, hash: Label -> Hash, c: Change)
    requires 0 < m <= |bytes|
  {
    Wants(c) && !Allocates(bytes, m, hash(c.page.id))
  }

  /** Buckets run out at the change `n`. */
  ghost predicate ExhaustedAt(bytes: seq<Byte>, m: nat, hash: Label -> Hash, changes: seq<Change>, n: nat)
    requires 0 < m <= |bytes| && n < |changes|
  {
    Exhausts(MarkedAfter(bytes, m, hash, changes, n), m, hash, changes[n])
  }

  ghost predicate NoneExhausted(bytes: seq<Byte>, m: nat, hash: Label -> Hash, changes: seq<Change>, n: nat)
    requires 0 < m <= |bytes| && n <= |changes|
  {
    forall i | 0 <= i < n :: !ExhaustedAt(bytes, m, hash, changes, i)
  }

  ghost predicate HaltsAt(bytes: seq<Byte>, m: nat, hash: Label -> Hash, changes: seq<Change>, n: nat)
    requires 0 < m <= |bytes| && n < |changes|
  {
    Wants(changes[n]) ==> Stops(MarkedAfter(bytes, m, hash, changes, n), m, hash(changes[n].page.id))
  }

  /** Every probe that is made until buckets run out comes to an end. */
  ghost predicate Halts(bytes: seq<Byte>, m: nat, hash: Label -> Hash, changes: seq<Change>)
    requires 0 < m <= |bytes|
  {
    forall n | 0 <= n < |changes| && NoneExhausted(bytes, m, hash, changes, n) :: HaltsAt(bytes, m, hash, changes, n)
  }

  lemma {:induction false} SpareAfter(bytes: seq<Byte>, m: nat, hash: Label -> Hash, changes: seq<Change>, n: nat)
    requires 0 < m <= |bytes| && n <= |changes| && Spare(bytes, m, hash, changes, |changes|)
    ensures Spare(MarkedAfter(bytes, m, hash, changes, n), m, hash, changes, |changes| - n)
  {
    hide FreeOn, MarkChange;
    if n > 0 {
      SpareAfter(bytes, m, hash, changes, n - 1);
      SpareMarked(MarkedAfter(bytes, m, hash, changes, n - 1), m, hash, changes, n - 1);
    }
  }

  lemma SpareMarked(bytes: seq<Byte>, m: nat, hash: Label -> Hash, changes: seq<Change>, n: nat)
    requires 0 < m <= |bytes| && n < |changes| && Spare(bytes, m, hash, changes, |changes| - n)
    ensures Spare(MarkChange(bytes, m, hash, changes[n]), m, hash, changes, |changes| - (n + 1))
  {
    hide FreeOn, MarkChange;
    var b, value := MarkedOne(bytes, m, hash, changes[n]);
    forall i | 0 <= i < |changes| && changes[i].Bucket().None?
      ensures |FreeOn(MarkChange(bytes, m, hash, changes[n]), m, hash(changes[i].page.id))| >= |changes| - (n + 1)
    {
      var h := hash(changes[i].page.id);
      FreeStays(bytes, m, h, b, value);
      OneLess(FreeOn(bytes, m, h), FreeOn(bytes[b := value], m, h), b);
    }
  }

  /** A change marks one bucket at most. */
  lemma MarkedOne(bytes: seq<Byte>, m: nat, hash: Label -> Hash, c: Change) returns (b: nat, value: Byte)
    requires 0 < m <= |bytes|
    ensures b < |bytes| && MarkChange(bytes, m, hash, c) == bytes[b := value]
  {
    hide Frees, FirstBucket;
    if c.diff.Cleared() {
      if c.Bucket().Some? && c.Bucket().value < |bytes| { return c.Bucket().value, TOMBSTONE; }
    } else if c.Bucket().None? && Frees(bytes, m, hash(c.page.id)) {
      return FirstBucket(bytes, m, hash(c.page.id)), FullEntry(hash(c.page.id));
    }
    return 0, bytes[0];
  }

  /** With enough free buckets on the way of every page all probes come to an end. */
  lemma SpareHalts(bytes: seq<Byte>, m: nat, hash: Label -> Hash, changes: seq<Change>)
    requires 0 < m <= |bytes| && Spare(bytes, m, hash, changes, |changes|)
    ensures Halts(bytes, m, hash, changes)
  {
    hide FreeOn, Stops, MarkedAfter;
    forall n | 0 <= n < |changes| && NoneExhausted(bytes, m, hash, changes, n)
      ensures HaltsAt(bytes, m, hash, changes, n)
    {
      SpareAfter(bytes, m, hash, changes, n);
      if Wants(changes[n]) { SpareStops(MarkedAfter(bytes, m, hash, changes, n), m, hash(changes[n].page.id)); }
    }
  }

  lemma {:induction false} MetaPrefix(bytes: seq<Byte>, hash: Label -> Hash, es: seq<WalEntry>, e: WalEntry, n: nat)
    requires n <= |es| && EntriesOk(es, |bytes|) && EntriesOk(es + [e], |bytes|)
    ensures MetaAfter(bytes, hash, es + [e], n) == MetaAfter(bytes, hash, es, n)
  {
    if n > 0 { MetaPrefix(bytes, hash, es, e, n - 1); }
  }

  lemma {:induction false} LastPrefix(es: seq<WalEntry>, e: WalEntry, n: nat, b: nat)
    requires n <= |es|
    ensures LastUpdate(es + [e], n, b) == LastUpdate(es, n, b)
  {
    if n > 0 { LastPrefix(es, e, n - 1, b); }
  }

  /** The entry and the write a change leads to. */
  ghost predicate EntryFor(c: Change, e: WalEntry, writes: map<nat, DataPage>) {
    if c.diff.Cleared() then c.Bucket().Some? && e == ClearEntry(c.Bucket().value)
    else
      && e.UpdateEntry? && e.id == c.page.id && e.diff == c.diff && e.bucket in writes && writes[e.bucket] == c.page
      && (c.Bucket().Some? ==> c.Bucket().value == e.bucket)
  }

  ghost predicate UpdatesApart(es: seq<WalEntry>, i: nat, j: nat)
    requires i < |es| && j < |es|
  {
    es[i].UpdateEntry? && es[j].UpdateEntry? ==> es[i].bucket != es[j].bucket
  }

  /** The log has one entry for each change, in order, and updates no bucket twice. */
  ghost predicate EntriesFor(changes: seq<Change>, es: seq<WalEntry>, writes: map<nat, DataPage>) {
    && |es| <= |changes| && (forall i | 0 <= i < |es| :: EntryFor(changes[i], es[i], writes))
    && (forall i, j | 0 <= i < j < |es| :: UpdatesApart(es, i, j))
  }

  lemma ForClear(changes: seq<Change>, es: seq<WalEntry>, writes: map<nat, DataPage>, e: WalEntry)
    requires EntriesFor(changes, es, writes) && |es| < |changes| && e.ClearEntry? && EntryFor(changes[|es|], e, writes)
    ensures EntriesFor(changes, es + [e], writes)
  {
    var es' := es + [e];
    forall i | 0 <= i < |es'| ensures EntryFor(changes[i], es'[i], writes) {
      if i < |es| { assert EntryFor(changes[i], es[i], writes); }
    }
    forall i, j | 0 <= i < j < |es'| ensures UpdatesApart(es', i, j) { if j < |es| { assert UpdatesApart(es, i, j); } }
  }

  lemma ForUpdate(changes: seq<Change>, es: seq<WalEntry>, writes: map<nat, DataPage>, e: WalEntry)
    requires EntriesFor(changes, es, writes) && |es| < |changes| && e.UpdateEntry? && e.bucket !in writes
    requires EntryFor(changes[|es|], e, writes[e.bucket := changes[|es|].page])
    ensures EntriesFor(changes, es + [e], writes[e.bucket := changes[|es|].page])
  {
    var es', writes' := es + [e], writes[e.bucket := changes[|es|].page];
    forall i | 0 <= i < |es'| ensures EntryFor(changes[i], es'[i], writes') {
      if i < |es| { assert EntryFor(changes[i], es[i], writes); }
    }
    forall i, j | 0 <= i < j < |es'| ensures UpdatesApart(es', i, j) {
      if j < |es| { assert UpdatesApart(es, i, j); } else { assert EntryFor(changes[i], es[i], writes); }
    }
  }

  // ----- the table while a sync is prepared

  ghost function LabelsAfter(labels: seq<Label>, es: seq<WalEntry>, n: nat): (r: seq<Label>)
    requires n <= |es| && EntriesOk(es, |labels|)
    ensures |r| == |labels|
  {
    if n == 0 then labels
    else
      var before, e := LabelsAfter(labels, es, n - 1), es[n - 1];
      assert EntryOk(e, |labels|);
      if e.ClearEntry? then before else before[e.bucket := e.id]
  }

  ghost function StoredAfter(stored: map<Label, nat>, changes: seq<Change>, es: seq<WalEntry>, n: nat): map<Label, nat>
    requires n <= |es| <= |changes|
  {
    if n == 0 then stored
    else
      var before, p := StoredAfter(stored, changes, es, n - 1), changes[n - 1].page.id;
      if es[n - 1].ClearEntry? then before - {p} else before[p := es[n - 1].bucket]
  }

  lemma {:induction false} LabelsPrefix(labels: seq<Label>, es: seq<WalEntry>, e: WalEntry, n: nat)
    requires n <= |es| && EntriesOk(es, |labels|) && EntriesOk(es + [e], |labels|)
    ensures LabelsAfter(labels, es + [e], n) == LabelsAfter(labels, es, n)
  {
    if n > 0 { LabelsPrefix(labels, es, e, n - 1); }
  }

  lemma {:induction false} StoredPrefix(stored: map<Label, nat>, changes: seq<Change>, es: seq<WalEntry>, e: WalEntry,
                                        n: nat)
    requires n <= |es| < |changes|
    ensures StoredAfter(stored, changes, es + [e], n) == StoredAfter(stored, changes, es, n)
  {
    if n > 0 { StoredPrefix(stored, changes, es, e, n - 1); }
  }

  /** A page has a bucket just when it is stored, and that is the one. */
  ghost predicate ChangeFits(c: Change, stored: map<Label, nat>) {
    c.Bucket() == if c.page.id in stored then Some(stored[c.page.id]) else None
  }

  ghost predicate OtherPage(changes: seq<Change>, i: nat, j: nat)
    requires i < |changes| && j < |changes|
  {
    changes[i].page.id != changes[j].page.id
  }

  /** The table is in order, and the changes from `n` on are to different pages and know their buckets. */
  ghost predicate TableFits(bytes: seq<Byte>, m: nat, labels: seq<Label>, hash: Label -> Hash, stored: map<Label, nat>,
                            changes: seq<Change>, n: nat)
  {
    && TableOk(bytes, m, labels, hash, stored)
    && (forall i | n <= i < |changes| :: ChangeFits(changes[i], stored))
    && (forall i, j | 0 <= n <= i < j < |changes| :: OtherPage(changes, i, j))
  }

  /** The table after the entries so far. */
  ghost predicate TableThen(bytes: seq<Byte>, m: nat, labels0: seq<Label>, hash: Label -> Hash,
                            stored0: map<Label, nat>, changes: seq<Change>, es: seq<WalEntry>)
  {
    |es| <= |changes| && EntriesOk(es, m) && |labels0| == m
    && TableFits(bytes, m, LabelsAfter(labels0, es, |es|), hash, StoredAfter(stored0, changes, es, |es|), changes, |es|)
  }

  lemma TableClear(bytes: seq<Byte>, m: nat, labels: seq<Label>, hash: Label -> Hash, stored: map<Label, nat>,
                   changes: seq<Change>, n: nat)
    requires TableFits(bytes, m, labels, hash, stored, changes, n) && n < |changes| && changes[n].Bucket().Some?
    ensures changes[n].Bucket().value < m
    ensures TableFits(bytes[changes[n].Bucket().value := TOMBSTONE], m, labels, hash,
                      stored - {changes[n].page.id}, changes, n + 1)
  {
    hide TableOk;
    assert ChangeFits(changes[n], stored);
    RemoveOk(bytes, m, labels, hash, stored, changes[n].page.id);
    TableSizes(bytes, m, labels, hash, stored);
    forall i | n + 1 <= i < |changes| ensures ChangeFits(changes[i], stored - {changes[n].page.id}) {
      assert ChangeFits(changes[i], stored) && OtherPage(changes, n, i);
    }
    forall i, j | n + 1 <= i < j < |changes| ensures OtherPage(changes, i, j) { assert OtherPage(changes, i, j); }
  }

  lemma TableSizes(bytes: seq<Byte>, m: nat, labels: seq<Label>, hash: Label -> Hash, stored: map<Label, nat>)
    requires TableOk(bytes, m, labels, hash, stored)
    ensures 0 < m <= |bytes| && |labels| == m
  {
  }

  lemma TableUpdate(bytes: seq<Byte>, m: nat, labels: seq<Label>, hash: Label -> Hash, stored: map<Label, nat>,
                    changes: seq<Change>, n: nat, b: nat)
    requires TableFits(bytes, m, labels, hash, stored, changes, n) && n < |changes| && b < m
    requires if changes[n].Bucket().Some? then changes[n].Bucket().value == b
             else exists k: nat ::
                     FirstFree(bytes, m, hash(changes[n].page.id), k) && ProbeAt(hash(changes[n].page.id), m, k) == b
    ensures var p := changes[n].page.id;
            TableFits(bytes[b := FullEntry(hash(p))], m, labels[b := p], hash, stored[p := b], changes, n + 1)
  {
    hide ProbeAt, FirstFree;
    var p := changes[n].page.id;
    assert ChangeFits(changes[n], stored);
    if changes[n].Bucket().Some? {
      assert HasPage(bytes, m, labels, hash(p), p, b);
      assert bytes[b := FullEntry(hash(p))] == bytes && labels[b := p] == labels && stored[p := b] == stored;
    } else {
      var k: nat :| FirstFree(bytes, m, hash(p), k) && ProbeAt(hash(p), m, k) == b;
      InsertOk(bytes, m, labels, hash, stored, p, b, k);
    }
    forall i | n + 1 <= i < |changes| ensures ChangeFits(changes[i], stored[p := b]) {
      assert ChangeFits(changes[i], stored) && OtherPage(changes, n, i);
    }
    forall i, j | n + 1 <= i < j < |changes| ensures OtherPage(changes, i, j) { assert OtherPage(changes, i, j); }
  }

  lemma ThenClear(bytes: seq<Byte>, m: nat, labels0: seq<Label>, hash: Label -> Hash, stored0: map<Label, nat>,
                  changes: seq<Change>, es: seq<WalEntry>, b: nat)
    requires TableThen(bytes, m, labels0, hash, stored0, changes, es) && |es| < |changes|
    requires changes[|es|].Bucket() == Some(b) && b < |bytes|
    ensures TableThen(bytes[b := TOMBSTONE], m, labels0, hash, stored0, changes, es + [ClearEntry(b)])
  {
    hide TableFits;
    var e := ClearEntry(b);
    TableClear(bytes, m, LabelsAfter(labels0, es, |es|), hash, StoredAfter(stored0, changes, es, |es|), changes, |es|);
    assert EntriesOk(es + [e], m);
    LabelsPrefix(labels0, es, e, |es|);
    StoredPrefix(stored0, changes, es, e, |es|);
  }

  lemma ThenUpdate(bytes: seq<Byte>, m: nat, labels0: seq<Label>, hash: Label -> Hash, stored0: map<Label, nat>,
                   changes: seq<Change>, es: seq<WalEntry>, e: WalEntry)
    requires TableThen(bytes, m, labels0, hash, stored0, changes, es) && |es| < |changes| && 0 < m <= |bytes|
    requires EntryOk(e, m) && e.UpdateEntry? && e.id == changes[|es|].page.id
    requires if changes[|es|].Bucket().Some? then changes[|es|].Bucket().value == e.bucket
             else exists k: nat :: FirstFree(bytes, m, hash(e.id), k) && ProbeAt(hash(e.id), m, k) == e.bucket
    ensures TableThen(bytes[e.bucket := FullEntry(hash(e.id))], m, labels0, hash, stored0, changes, es + [e])
  {
    hide TableFits, ProbeAt, FirstFree;
    TableUpdate(bytes, m, LabelsAfter(labels0, es, |es|), hash, StoredAfter(stored0, changes, es, |es|), changes, |es|,
                e.bucket);
    assert EntriesOk(es + [e], m);
    LabelsPrefix(labels0, es, e, |es|);
    StoredPrefix(stored0, changes, es, e, |es|);
  }

  /** What holds of the log and the writes gathered so far. */
  ghost predicate Gathered(bytes0: seq<Byte>, bytes: seq<Byte>, m: nat, hash: Label -> Hash, es: seq<WalEntry>,
                           writes: map<nat, DataPage>, metaPages: set<nat>)
  {
    && m <= |bytes0| && EntriesOk(es, m) && (forall i | 0 <= i < |es| :: LogsAt(es, i, writes))
    && (forall b | b in writes :: b < m && LastUpdate(es, |es|, b).Some? && b < |bytes| && bytes[b] >= FULL_MASK)
    && EntriesOk(es, |bytes0|) && bytes == MetaAfter(bytes0, hash, es, |es|) && OnlyIn(bytes0, bytes, metaPages)
  }

  lemma GatherClear(bytes0: seq<Byte>, bytes: seq<Byte>, m: nat, hash: Label -> Hash, es: seq<WalEntry>,
                    writes: map<nat, DataPage>, metaPages: set<nat>, b: nat)
    requires Gathered(bytes0, bytes, m, hash, es, writes, metaPages) && b < m && b !in writes
    ensures Gathered(bytes0, bytes[b := TOMBSTONE], m, hash, es + [ClearEntry(b)], writes, metaPages + {b / META_PAGE})
  {
    var es' := es + [ClearEntry(b)];
    assert EntriesOk(es', m) && EntriesOk(es', |bytes0|);
    MetaPrefix(bytes0, hash, es, ClearEntry(b), |es|);
    forall i | 0 <= i < |es'| ensures LogsAt(es', i, writes) { if i < |es| { assert LogsAt(es, i, writes); } }
    forall x | x in writes ensures LastUpdate(es', |es'|, x).Some? { LastPrefix(es, ClearEntry(b), |es|, x); }
  }

  lemma GatherUpdate(bytes0: seq<Byte>, bytes: seq<Byte>, m: nat, hash: Label -> Hash, es: seq<WalEntry>,
                     writes: map<nat, DataPage>, metaPages: set<nat>, e: WalEntry, page: DataPage, metaPages': set<nat>)
    requires Gathered(bytes0, bytes, m, hash, es, writes, metaPages) && e.bucket < m && e.bucket !in writes
             && Logs(e, page)
    requires metaPages <= metaPages'
             && (bytes[e.bucket] != FullEntry(hash(e.id)) ==> e.bucket / META_PAGE in metaPages')
    ensures Gathered(bytes0, bytes[e.bucket := FullEntry(hash(e.id))], m, hash, es + [e],
                     writes[e.bucket := page], metaPages')
  {
    var es', writes', bytes' := es + [e], writes[e.bucket := page], bytes[e.bucket := FullEntry(hash(e.id))];
    assert EntriesOk(es', m) && EntriesOk(es', |bytes0|);
    MetaPrefix(bytes0, hash, es, e, |es|);
    forall i | 0 <= i < |es'| ensures LogsAt(es', i, writes') { if i < |es| { assert LogsAt(es, i, writes); } }
    forall x | x in writes' ensures LastUpdate(es', |es'|, x).Some? { LastPrefix(es, e, |es|, x); }
  }

  datatype SyncError = BucketExhaustion

  /** Allocate buckets, update the meta map, and gather the log and the pages to write. */
  method PrepareSync(seqn: nat, changes: seq<Change>, meta: MetaMap, hash: Label -> Hash,
                     ghost labels: seq<Label>, ghost stored: map<Label, nat>)
    returns (r: Result<Plan, SyncError>, occupiedDelta: int)
    requires 0 < meta.buckets <= |meta.bitvec|
    requires ChangesOk(meta.bitvec, meta.buckets, hash, changes, 0)
    requires Halts(meta.bitvec, meta.buckets, hash, changes)
    modifies meta
    ensures r.Ok? <==> old(NoneExhausted(meta.bitvec, meta.buckets, hash, changes, |changes|))
    ensures r.Ok? ==> meta.bitvec == old(MarkedAfter(meta.bitvec, meta.buckets, hash, changes, |changes|))
    ensures r.Err? ==> exists n | 0 <= n < |changes| ::
              && old(NoneExhausted(meta.bitvec, meta.buckets, hash, changes, n))
              && old(ExhaustedAt(meta.bitvec, meta.buckets, hash, changes, n))
              && meta.bitvec == old(MarkedAfter(meta.bitvec, meta.buckets, hash, changes, n))
    ensures r.Ok? ==> r.value.wal.seqn == seqn && r.value.meta == meta.bitvec && |r.value.wal.entries| == |changes|
    ensures r.Ok? ==> EntriesFor(changes, r.value.wal.entries, r.value.writes)
    ensures r.Ok? ==> forall disk: Disk ::
              DiskOk(disk) && disk.meta == old(meta.bitvec) && |disk.data| == meta.buckets ==>
                PlanOk(disk, r.value, hash)
    ensures r.Ok? ==>
              occupiedDelta == CountFull(meta.bitvec, |meta.bitvec|) - old(CountFull(meta.bitvec, |meta.bitvec|))
    ensures r.Ok? && TableFits(old(meta.bitvec), meta.buckets, labels, hash, stored, changes, 0) ==>
              TableThen(meta.bitvec, meta.buckets, labels, hash, stored, changes, r.value.wal.entries)
  {
    hide Gathered, CountFull, LastUpdate, ChangesOk, EntriesFor, TableFits, TableThen, MarkChange, Allocates, Stops;
    ghost var bytes0, m := meta.bitvec, meta.buckets;
    var es: seq<WalEntry>, writes: map<nat, DataPage>, metaPages: set<nat> := [], map[], {};
    occupiedDelta := 0;
    NothingGathered(bytes0, m, hash, changes, labels, stored);
    for n := 0 to |changes|
      invariant |meta.bitvec| == |bytes0| && |es| == n && EntriesFor(changes, es, writes)
      invariant Gathered(bytes0, meta.bitvec, m, hash, es, writes, metaPages)
      invariant ChangesOk(meta.bitvec, m, hash, changes, n) && Unwritten(changes, n, writes)
      invariant meta.bitvec == MarkedAfter(bytes0, m, hash, changes, n) && NoneExhausted(bytes0, m, hash, changes, n)
      invariant occupiedDelta == CountFull(meta.bitvec, |bytes0|) - CountFull(bytes0, |bytes0|)
      invariant TableFits(bytes0, m, labels, hash, stored, changes, 0) ==>
                  TableThen(meta.bitvec, m, labels, hash, stored, changes, es)
    {
      var exhausted;
      assert HaltsAt(bytes0, m, hash, changes, n);
      es, writes, metaPages, occupiedDelta, exhausted :=
        PrepareChange(changes, n, meta, hash, es, writes, metaPages, occupiedDelta, bytes0, labels, stored);
      assert exhausted == ExhaustedAt(bytes0, m, hash, changes, n);
      if exhausted { return Err(BucketExhaustion), occupiedDelta; }
    }
    r := Ok(Plan(Wal(seqn, es), meta.bitvec, metaPages, writes));
    GatheredPlan(bytes0, m, hash, r.value);
  }

  /** One changed page: clear its bucket, or log and write it, allocating a bucket if it has none. */
  method PrepareChange(changes: seq<Change>, n: nat, meta: MetaMap, hash: Label -> Hash, es: seq<WalEntry>,
                       writes: map<nat, DataPage>, metaPages: set<nat>, delta: int, ghost bytes0: seq<Byte>,
                       ghost labels: seq<Label>, ghost stored: map<Label, nat>)
    returns (es': seq<WalEntry>, writes': map<nat, DataPage>, metaPages': set<nat>, delta': int, exhausted: bool)
    requires n < |changes| && 0 < meta.buckets <= |meta.bitvec| && |meta.bitvec| == |bytes0|
    requires Gathered(bytes0, meta.bitvec, meta.buckets, hash, es, writes, metaPages) && |es| == n
             && EntriesFor(changes, es, writes)
    requires ChangesOk(meta.bitvec, meta.buckets, hash, changes, n) && Unwritten(changes, n, writes)
    requires Wants(changes[n]) ==> Stops(meta.bitvec, meta.buckets, hash(changes[n].page.id))
    modifies meta
    ensures |meta.bitvec| == |bytes0|
    ensures exhausted <==> old(Exhausts(meta.bitvec, meta.buckets, hash, changes[n]))
    ensures exhausted ==> meta.bitvec == old(meta.bitvec)
    ensures !exhausted ==>
              && |es'| == |es| + 1 && EntriesFor(changes, es', writes')
              && Gathered(bytes0, meta.bitvec, meta.buckets, hash, es', writes', metaPages')
              && ChangesOk(meta.bitvec, meta.buckets, hash, changes, n + 1) && Unwritten(changes, n + 1, writes')
              && meta.bitvec == old(MarkChange(meta.bitvec, meta.buckets, hash, changes[n]))
              && delta' - delta == CountFull(meta.bitvec, |bytes0|) - old(CountFull(meta.bitvec, |bytes0|))
              && (TableThen(old(meta.bitvec), meta.buckets, labels, hash, stored, changes, es) ==>
                    TableThen(meta.bitvec, meta.buckets, labels, hash, stored, changes, es'))
  {
    hide Gathered, CountFull, LastUpdate, ChangesOk, Stops, Frees, FirstBucket, Allocates, FirstFree, ProbeAt,
      Unwritten, EntriesFor, TableThen;
    var c := changes[n];
    ghost var bytes, m := meta.bitvec, meta.buckets;
    ThisChange(bytes, m, hash, changes, n, writes);
    es', writes', metaPages', delta', exhausted := es, writes, metaPages, delta, false;
    if c.diff.Cleared() {
      var b := c.Bucket().value;
      Maintain(bytes, m, hash, changes, n, writes, b, TOMBSTONE);
      GatherClear(bytes0, bytes, m, hash, es, writes, metaPages, b);
      ForClear(changes, es, writes, ClearEntry(b));
      if TableThen(bytes, m, labels, hash, stored, changes, es) {
        ThenClear(bytes, m, labels, hash, stored, changes, es, b);
      }
      meta.SetTombstone(b);
      delta', metaPages', es' := delta - 1, metaPages + {b / META_PAGE}, es + [ClearEntry(b)];
    } else {
      var nodes := PackChangedNodes(c.diff, c.page.nodes);
      var b: nat;
      if c.Bucket().Some? {
        b := c.Bucket().value;
      } else {
        var found := AllocateBucket(hash(c.page.id), meta);
        if found.None? { exhausted := true; return; }
        b := found.value;
        FreeBucket(bytes, m, hash(c.page.id), b);
        TakesFirst(bytes, m, hash(c.page.id), b);
        FullIsWritten(bytes0, bytes, m, hash, es, writes, metaPages, b);
        delta', metaPages' := delta + 1, metaPages + {b / META_PAGE};
        meta.SetFull(b, hash(c.page.id));
      }
      var e := UpdateEntry(c.page.id, c.diff, nodes, c.page.elided, b);
      Maintain(bytes, m, hash, changes, n, writes, b, FullEntry(hash(c.page.id)));
      GatherUpdate(bytes0, bytes, m, hash, es, writes, metaPages, e, c.page, metaPages');
      MaintainUnwritten(bytes, m, hash, changes, n, writes, b, c.page);
      ForUpdate(changes, es, writes, e);
      if TableThen(bytes, m, labels, hash, stored, changes, es) {
        ThenUpdate(bytes, m, labels, hash, stored, changes, es, e);
      }
      assert meta.bitvec == bytes[b := FullEntry(hash(c.page.id))];
      es', writes' := es + [e], writes[b := c.page];
    }
  }

  lemma ThisChange(bytes: seq<Byte>, m: nat, hash: Label -> Hash, changes: seq<Change>, n: nat,
                   writes: map<nat, DataPage>)
    requires m <= |bytes| && ChangesOk(bytes, m, hash, changes, n) && Unwritten(changes, n, writes) && n < |changes|
    ensures ChangeOk(bytes, m, hash, changes[n])
    ensures changes[n].Bucket().Some? ==> changes[n].Bucket().value !in writes
    ensures Unwritten(changes, n + 1, writes)
  {
  }

  lemma FreeBucket(bytes: seq<Byte>, m: nat, hash: Hash, b: nat)
    requires 0 < m <= |bytes| && b < m
    requires exists k: nat :: FirstFree(bytes, m, hash, k) && ProbeAt(hash, m, k) == b
    ensures bytes[b] < FULL_MASK
  {
  }

  lemma TakesFirst(bytes: seq<Byte>, m: nat, hash: Hash, b: nat)
    requires 0 < m <= |bytes| && exists k: nat :: FirstFree(bytes, m, hash, k) && ProbeAt(hash, m, k) == b
    ensures Frees(bytes, m, hash) && FirstBucket(bytes, m, hash) == b
  {
    hide FirstFree, ProbeAt, Frees, FirstBucket;
    var k: nat :| FirstFree(bytes, m, hash, k) && ProbeAt(hash, m, k) == b;
    FirstBucketIs(bytes, m, hash, k);
  }

  lemma FullIsWritten(bytes0: seq<Byte>, bytes: seq<Byte>, m: nat, hash: Label -> Hash, es: seq<WalEntry>,
                      writes: map<nat, DataPage>, metaPages: set<nat>, b: nat)
    requires Gathered(bytes0, bytes, m, hash, es, writes, metaPages) && b < |bytes| && bytes[b] < FULL_MASK
    ensures b !in writes
  {
  }

  /** Marking the bucket of this change, or a free one, leaves the later changes in order. */
  lemma Maintain(bytes: seq<Byte>, m: nat, hash: Label -> Hash, changes: seq<Change>, n: nat,
                 writes: map<nat, DataPage>, b: nat, value: Byte)
    requires 0 < m <= |bytes| && n < |changes| && b < m && ChangesOk(bytes, m, hash, changes, n)
    requires changes[n].Bucket() == Some(b) || bytes[b] < FULL_MASK
    ensures ChangesOk(bytes[b := value], m, hash, changes, n + 1)
    ensures CountFull(bytes[b := value], |bytes|)
            == CountFull(bytes, |bytes|)
               + (if value >= FULL_MASK then 1 else 0) - (if bytes[b] >= FULL_MASK then 1 else 0)
  {
    hide CountFull;
    forall i | n + 1 <= i < |changes| ensures ChangeOk(bytes[b := value], m, hash, changes[i]) {
      assert ChangeOk(bytes, m, hash, changes[i]) && OtherBucket(changes, n, i);
    }
    CountUpdate(bytes, |bytes|, b, value);
  }

  lemma MaintainUnwritten(bytes: seq<Byte>, m: nat, hash: Label -> Hash, changes: seq<Change>, n: nat,
                          writes: map<nat, DataPage>, b: nat, page: DataPage)
    requires m <= |bytes| && n < |changes| && b < m && ChangesOk(bytes, m, hash, changes, n)
    requires (changes[n].Bucket() == Some(b) || bytes[b] < FULL_MASK) && Unwritten(changes, n + 1, writes)
    ensures Unwritten(changes, n + 1, writes[b := page])
  {
    forall i | n + 1 <= i < |changes| && changes[i].Bucket().Some? ensures changes[i].Bucket().value != b {
      assert ChangeOk(bytes, m, hash, changes[i]) && OtherBucket(changes, n, i);
    }
  }

  /** Buckets of changes still to come have not been written. */
  ghost predicate Unwritten(changes: seq<Change>, n: nat, writes: map<nat, DataPage>) {
    forall i | n <= i < |changes| && changes[i].Bucket().Some? :: changes[i].Bucket().value !in writes
  }

  lemma NothingGathered(bytes: seq<Byte>, m: nat, hash: Label -> Hash, changes: seq<Change>, labels: seq<Label>,
                        stored: map<Label, nat>)
    requires m <= |bytes|
    ensures Gathered(bytes, bytes, m, hash, [], map[], {}) && EntriesFor(changes, [], map[])
    ensures TableFits(bytes, m, labels, hash, stored, changes, 0) ==>
              TableThen(bytes, m, labels, hash, stored, changes, [])
  {
  }

  lemma GatheredPlan(bytes0: seq<Byte>, m: nat, hash: Label -> Hash, plan: Plan)
    requires Gathered(bytes0, plan.meta, m, hash, plan.wal.entries, plan.writes, plan.metaPages)
    ensures forall disk: Disk :: DiskOk(disk) && disk.meta == bytes0 && |disk.data| == m ==> PlanOk(disk, plan, hash)
  {
  }

  // ----- the table after a crash

  function Labels(data: seq<DataPage>): (r: seq<Label>)
    ensures |r| == |data|
  {
    seq(|data|, b requires 0 <= b < |data| => data[b].id)
  }

  lemma {:induction false} LabelIs(labels: seq<Label>, es: seq<WalEntry>, n: nat, b: nat)
    requires n <= |es| && EntriesOk(es, |labels|) && b < |labels|
    ensures var last := LastUpdate(es, n, b);
            LabelsAfter(labels, es, n)[b] == if last.Some? then es[last.value].id else labels[b]
  {
    if n > 0 { LabelIs(labels, es, n - 1, b); }
  }

  /** The table that recovery leaves has the buckets and labels the sync has planned, so that lookups
      find every page again. */
  lemma RecoveredTable(disk: Disk, plan: Plan, hash: Label -> Hash, metaPages: set<nat>, buckets: set<nat>,
                       changes: seq<Change>, stored: map<Label, nat>)
    requires PlanOk(disk, plan, hash)
    requires TableThen(plan.meta, |disk.data|, Labels(disk.data), hash, stored, changes, plan.wal.entries)
    ensures var crashed, es := WrittenOut(disk, plan, metaPages, buckets), plan.wal.entries;
            && DiskOk(crashed) && AllCounted(es, |es|) && EntriesOk(es, |crashed.data|) && |es| <= |changes|
            && var repaired := Replayed(crashed, plan.wal, hash);
            && repaired.meta == plan.meta && Labels(repaired.data) == LabelsAfter(Labels(disk.data), es, |es|)
            && TableOk(repaired.meta, |disk.data|, Labels(repaired.data), hash, StoredAfter(stored, changes, es, |es|))
  {
    hide TableOk, MetaAfter, StoredAfter;
    PlanCounted(disk, plan, hash);
    var crashed, es := WrittenOut(disk, plan, metaPages, buckets), plan.wal.entries;
    CrashedMeta(disk, plan, hash, metaPages);
    var repaired := Replayed(crashed, plan.wal, hash);
    forall b | 0 <= b < |disk.data| ensures Labels(repaired.data)[b] == LabelsAfter(Labels(disk.data), es, |es|)[b] {
      HeaderIs(crashed.data, es, |es|, b);
      LabelIs(Labels(disk.data), es, |es|, b);
    }
    assert Labels(repaired.data) == LabelsAfter(Labels(disk.data), es, |es|);
  }

  // ----- what becomes of a changed page

  lemma {:induction false} StoredKept(stored: map<Label, nat>, changes: seq<Change>, es: seq<WalEntry>, n: nat,
                                      p: Label)
    requires n <= |es| <= |changes| && forall i | 0 <= i < n :: changes[i].page.id != p
    ensures p in StoredAfter(stored, changes, es, n) <==> p in stored
    ensures p in stored ==> StoredAfter(stored, changes, es, n)[p] == stored[p]
  {
    if n > 0 { StoredKept(stored, changes, es, n - 1, p); }
  }

  lemma {:induction false} StoredNow(stored: map<Label, nat>, changes: seq<Change>, es: seq<WalEntry>, n: nat, i: nat)
    requires i < n <= |es| <= |changes| && es[i].UpdateEntry? && forall j | i < j < n :: OtherPage(changes, i, j)
    ensures changes[i].page.id in StoredAfter(stored, changes, es, n)
    ensures StoredAfter(stored, changes, es, n)[changes[i].page.id] == es[i].bucket
  {
    if i < n - 1 {
      assert OtherPage(changes, i, n - 1);
      StoredNow(stored, changes, es, n - 1, i);
    }
  }

  lemma {:induction false} StoredNoMore(stored: map<Label, nat>, changes: seq<Change>, es: seq<WalEntry>, n: nat,
                                        i: nat)
    requires i < n <= |es| <= |changes| && es[i].ClearEntry? && forall j | i < j < n :: OtherPage(changes, i, j)
    ensures changes[i].page.id !in StoredAfter(stored, changes, es, n)
  {
    if i < n - 1 {
      assert OtherPage(changes, i, n - 1);
      StoredNoMore(stored, changes, es, n - 1, i);
    }
  }

  /** The bucket of an updated page after recovery: its marked slots, and otherwise what was there. */
  lemma RepairedSlot(disk: Disk, plan: Plan, hash: Label -> Hash, metaPages: set<nat>, buckets: set<nat>,
                     changes: seq<Change>, i: nat, slot: nat)
    requires PlanOk(disk, plan, hash) && EntriesFor(changes, plan.wal.entries, plan.writes) && slot < NODES_PER_PAGE
    requires i < |plan.wal.entries| && plan.wal.entries[i].UpdateEntry?
             && AllCounted(plan.wal.entries, |plan.wal.entries|)
    ensures var b, c := plan.wal.entries[i].bucket, changes[i];
            var es := plan.wal.entries;
            var page := DataAfter(WrittenOut(disk, plan, metaPages, buckets).data, es, |es|);
            && b < |disk.data| && b in plan.writes
            && page[b].nodes[slot] == if c.diff.Changed(slot) || b in buckets then c.page.nodes[slot]
                                      else disk.data[b].nodes[slot]
  {
    hide DataAfter, LastUpdate, MetaAfter;
    var es, data := plan.wal.entries, WrittenOut(disk, plan, metaPages, buckets).data;
    assert EntryOk(es[i], |disk.data|) && EntryFor(changes[i], es[i], plan.writes);
    var b := es[i].bucket;
    LoggedSlot(data, es, |es|, plan.writes, b, slot);
    SlotIs(data, data, es, |es|, b, slot);
    OnlyUpdate(changes, es, plan.writes, i, slot);
  }

  lemma OnlyUpdate(changes: seq<Change>, es: seq<WalEntry>, writes: map<nat, DataPage>, i: nat, slot: nat)
    requires EntriesFor(changes, es, writes) && i < |es| && es[i].UpdateEntry? && slot < NODES_PER_PAGE
    ensures WritesSlot(es, |es|, es[i].bucket, slot) <==> changes[i].diff.Changed(slot)
  {
    assert EntryFor(changes[i], es[i], writes);
    if j: nat :| j < |es| && es[j].UpdateEntry? && es[j].bucket == es[i].bucket && es[j].diff.Changed(slot) {
      assert j < i ==> UpdatesApart(es, j, i);
      assert i < j ==> UpdatesApart(es, i, j);
    }
  }
}
