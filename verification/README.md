# NOMT: a verified model of the trie, its proofs and its page store

NOMT is an authenticated key-value store. A compact binary Merkle trie over 256-bit keys is kept in
pages of 126 nodes; the pages are kept in a hash table with a redo log, values in a B-tree, recent
changes in overlays, and the last commits in a rollback log. This project models the algorithms of
each of these and proves them against simple specifications.

- **The trie.** `Sub(m, p)` is the canonical sub-trie of a map `m` below the path `p`: empty, one
  leaf, or two halves. Hashes are idealised as a free datatype. Building (`Update`), path proofs
  (`PathProofs`), multi-proofs (`MultiProofs`, `MultiProofBuild`, `MultiProofMinimal`) and the page
  walker are all proved against it.
- **The page walker.** `PageWalk.PageWalker` edits pages in place. `Memory`, `PagedMemory` and
  `PageStack` read its stack, the pages put out and the stored pages as one memory in which
  unreachable slots hold garbage; `WalkState` and `WalkProgress` say what a walk in progress has
  done; `PageUpdate` runs one walker or several. `PageMarks`, `PageRecords`, `PageBuilds` and
  `LivePages` say what the diffs of its pages record and which pages remain.
- **The page store.** `Probing`, `HashTable` and `Recovery` are the table and its redo log.
  `DiffCoverage`, `CrashRecovery`, `CrashedSync`, `CrashRuns` and `LostUpdate` join it to the walker:
  what an update that crashes while it is written out comes back as.
- **The rest.** `BeatreeIterators` (with `OrderedLists` and `LeafIndex`), `Overlays` (with
  `SeqnIndex`), `PageIds`, `PageRegions`, `WritePasses` and `Rollbacks`.

Code that works step by step is modelled by methods and classes, and those are proved against functions
on values. I/O, clocks and randomness are parameters or left out. Bucket hashes and page labels are
arbitrary functions. A crash is an arbitrary subset of the planned pages having reached the disk.

`dafny verify dfyconfig.toml` checks everything.

## Model

| member | source | states |
|---|---|---|
| `Trie.SubKind` | core/src/trie.rs:55-95 | the canonical sub-trie at a position is a terminator iff no key lies below, a leaf iff exactly that key does, and otherwise the internal node over its two halves |
| `Trie.SubFrame` | core/src/trie.rs:55-95 | the sub-trie at a position depends on nothing but the keys below it |
| `Update.BuildTrie` | core/src/update.rs:94-253 | one pass with a frontier stack returns the canonical sub-trie of the sorted pairs, and replaying its commands from the sub-trie root writes exactly the nodes of that sub-trie, each once, in post-order, and ends where it began |
| `Update.HashUp` | core/src/update.rs:196-241 | hashing up from a leaf keeps the frontier: every pending entry is the finished left sibling on the path of the next key, and all nodes left of the path have been visited |
| `Update.JoinTrail` | core/src/update.rs:196-241 | visiting a parent after both children completes the post-order of its sub-trie |
| `Update.LeafAlone` | core/src/update.rs:137-160 | at one bit below the longer prefix it shares with its neighbours, a leaf is the whole sub-trie |
| `Ops.InsertionPoint` | core/src/update.rs:18-38 | everything before the point is below the key, and what is at it is not |
| `Ops.SplicedEffect` | core/src/update.rs:18-38 | the spliced list ascends and is the map that the operations make of the prior leaf |
| `Ops.SplicedUnder` | core/src/update.rs:18-38 | every pair of it lies below the position when leaf and operations do |
| `Memory.ReplayWrites` | core/src/update.rs:54-80 | the n-th command writes at the n-th position of the replay, moving there by its own up and down bits |
| `Memory.BuildInPlace` | core/src/update.rs:54-80 | commands obeyed one by one in a memory full of garbage leave the canonical sub-trie in it |
| `PathProofs.HashUpwards` | core/src/proof/path_proof.rs:104-125 | the loop over bits and siblings from the bottom is the recursive hash of the path, over as many layers as both lists have |
| `PathProofs.VerifyPath` | core/src/proof/path_proof.rs:71-98 | the method returns what `Verify` says, its root computed by the loop |
| `PathProofs.HashPathExact` | core/src/proof/path_proof.rs:104-125 | hashing up gives the sub-trie of a map if and only if the start is the node at the bottom and every sibling the one in that trie |
| `PathProofs.VerifyExact` | core/src/proof/path_proof.rs:71-98 | against the root of a map a proof is accepted iff its terminal and all its siblings are those of the canonical trie; too many siblings is reported iff there are more than bits |
| `PathProofs.ConfirmExact` | core/src/proof/path_proof.rs:180-207 | a verified proof confirms a value iff the map has it, confirms absence iff the map lacks the key, and rejects a key iff it is out of scope |
| `PathProofs.CheckPaths` | core/src/proof/path_proof.rs:262-296 | the error found is the first in order of paths and operations, none iff none is wrong |
| `PathProofs.CheckedIsAcceptable` | core/src/proof/path_proof.rs:262-296 | checks between neighbours imply that all paths and all operations are in order |
| `PathProofs.PathsPart` | core/src/proof/path_proof.rs:262-296 | paths proven against one root part before either ends: none is a prefix of another |
| `PathProofs.CompactStepExact` | core/src/proof/path_proof.rs:336-361 | combining the sub-tries of two siblings, compacting where one is empty, gives the sub-trie of their parent |
| `PathProofs.ClimbPath` | core/src/proof/path_proof.rs:321-363 | climbing with pending nodes before old siblings reaches the sub-trie of the updated map |
| `PathProofs.UpdatePath` | core/src/proof/path_proof.rs:300-365 | one path: build, climb to the fork with the next path and leave the node pending there |
| `PathProofs.VerifyUpdate` | core/src/proof/path_proof.rs:262-371 | accepted iff no check fails, the error otherwise is the first one, and the result is the canonical root of the map with all operations applied |
| `MultiProofs.ForkFacts` | core/src/proof/multi_proof.rs:452-563 | in a sorted range the first terminal with a one at the fork separates it into the two sub-tries |
| `MultiProofs.RangeSound` | core/src/proof/multi_proof.rs:452-563 | a range that hashes to the sub-trie of a map has all its terminals true of that map |
| `MultiProofs.VerifyMultiSound` | core/src/proof/multi_proof.rs:411-450 | every terminal of a multi-proof accepted against the root of a map is the node of the canonical trie at its depth |
| `MultiProofs.ConfirmMultiExact` | core/src/proof/multi_proof.rs:394-407 | at a covering path, value and absence are confirmed iff true of the map |
| `MultiProofs.AcceptedSeparated` | core/src/proof/multi_proof.rs:411-450 | the paths of an accepted multi-proof are in order and part before any ends |
| `MultiProofs.FindIndexFor` | core/src/proof/multi_proof.rs:304-310 | the binary search finds the one path that covers the key, and fails iff none does |
| `MultiProofs.ConfirmValue` | core/src/proof/multi_proof.rs:331-334 | for a proof accepted against the root of a map: out of scope iff no path covers the key, and otherwise true iff the map has the value |
| `MultiProofs.ConfirmNonexistence` | core/src/proof/multi_proof.rs:319-322 | likewise for absence |
| `MultiProofBuild.FromPathProofs` | core/src/proof/multi_proof.rs:85-262 | the loop over a stack of ranges lists every terminal with its depth and lays out the siblings as the recursive layout does |
| `MultiProofBuild.RoundTrip` | core/src/proof/multi_proof.rs:168-262 | the multi-proof made of path proofs of one trie is accepted against its root and keeps every terminal and depth; made of none it is accepted iff the trie is empty |
| `MultiProofBuild.FromTrieParts` | core/src/proof/multi_proof.rs:168-262 | different ordered proofs of one trie part before either ends |
| `MultiProofMinimal.MinimalSiblings` | core/src/proof/multi_proof.rs:112-163 | the sibling list holds, each once, exactly the nodes beside proven paths with no proven terminal below them |
| `MultiProofMinimal.ListedIffNeeded` | core/src/proof/multi_proof.rs:112-163 | the same for every range the builder splits off |
| `MultiProofMinimal.ListedOnce` | core/src/proof/multi_proof.rs:226-259 | no position is listed twice |
| `MultiProofMinimal.SiblingsTiled` | core/src/proof/multi_proof.rs:452-563 | every sibling of an accepted proof is in exactly one unique or common range |
| `MultiProofMinimal.SiblingsInOrder` | core/src/proof/multi_proof.rs:452-563 | those ranges, taken in pre-order, follow one another from the first sibling to the last without a gap |
| `TriePos.SlotInjective` | core/src/trie_pos.rs:276-318 | page and index determine the position |
| `TriePos.IndexRange` | core/src/trie_pos.rs:276-318 | the index of a position is within the page, in the band of its layer |
| `TriePos.IndexDown` | core/src/trie_pos.rs:115-133 | the index of a child is twice that of its parent and two or three more, or starts a page at zero or one |
| `TriePos.IndexSibling` | core/src/trie_pos.rs:304-314 | the sibling index is the index of the sibling |
| `TriePos.IndexUp` | core/src/trie_pos.rs:316-318 | the parent index is the index of the parent inside a page |
| `TriePos.TriePosition.Down` | core/src/trie_pos.rs:115-133 | appends the bit and keeps the index equal to the recomputed one |
| `TriePos.TriePosition.Up` | core/src/trie_pos.rs:136-159 | removes bits and keeps the index |
| `TriePos.TriePosition.Sibling` | core/src/trie_pos.rs:162-170 | flips the last bit and keeps the index |
| `TriePos.TriePosition.PageIdOf` | core/src/trie_pos.rs:182-204 | the page is that of the complete earlier sextets, none for the root |
| `CountLeaves.Count` | nomt/src/merkle/page_walker.rs:903-938 | the cursor walk ends and counts the leaves reachable in the page, ignoring slots below leaves and terminators |
| `PageDiffs.IterOnes` | nomt/src/page_diff.rs:110-145 | clearing lowest bits word by word yields the set bits in ascending order |
| `PageDiffs.OnesAre` | nomt/src/page_diff.rs:110-145 | a slot is yielded iff its bit is set |
| `PageDiffs.PackChangedNodes` | nomt/src/page_diff.rs:66-79 | packs the nodes of the changed slots in slot order |
| `PageDiffs.UnpackChangedNodes` | nomt/src/page_diff.rs:82-90 | writes them back in slot order |
| `PageDiffs.UnpackedIs` | nomt/src/page_diff.rs:82-90 | unpacking gives the packed page at every changed slot, whatever was there, and keeps the others |
| `PageWalk.PageWalker.constructor` | nomt/src/merkle/page_walker.rs:195-222 | a new walker over pages that hold the trie of a map has done nothing yet |
| `PageWalk.PageWalker.SetNode` | nomt/src/merkle/page_walker.rs:693-709 | memory changes at the position only, and a node that is not a terminator is marked in the diff |
| `PageWalk.PageWalker.SetSibling` | nomt/src/merkle/page_walker.rs:712-719 | memory changes at the sibling only, and it is marked |
| `PageWalk.PageWalker.Up` | nomt/src/merkle/page_walker.rs:404-409 | leaves memory as it is and puts out the page when its first layer is left |
| `PageWalk.PageWalker.Down` | nomt/src/merkle/page_walker.rs:412-470 | leaves memory as it is outside the sub-trie entered, whether the page is stored, fresh or put out before |
| `PageWalk.PageWalker.BuildStack` | nomt/src/merkle/page_walker.rs:737-785 | stacks the pages on the way to a new position; no stored page in use is read anew |
| `PageWalk.PageWalker.ReplaceTerminal` | nomt/src/merkle/page_walker.rs:314-401 | puts the canonical sub-trie of the pairs below the position and touches nothing else; the pages put out are those of the sub-trie |
| `PageWalk.PageWalker.CompactStep` | nomt/src/merkle/page_walker.rs:634-674 | combines the node with its sibling, clearing what moves up |
| `PageWalk.PageWalker.CompactUp` | nomt/src/merkle/page_walker.rs:568-632 | climbs to the fork with the next position, or to the top, all below being whole |
| `PageWalk.PageWalker.AdvanceAndReplace` | nomt/src/merkle/page_walker.rs:242-256 | for a position right of the last: the map has the sub-trie below the position replaced, and everything left of it is finished |
| `PageWalk.PageWalker.AdvanceAndPlaceNode` | nomt/src/merkle/page_walker.rs:272-286 | likewise with a node whose sub-trie another walker has put out |
| `PageWalk.PageWalker.Advance` | nomt/src/merkle/page_walker.rs:293-302 | goes on to any later position in scope, climbing as far as the fork with it; all that is said of the walk stays true |
| `PageWalk.PageWalker.Conclude` | nomt/src/merkle/page_walker.rs:479-498 | climbs to the top: with no parent page the root is that of the updated map and all pages together hold its trie; with one the child page roots reported are its sub-tries |
| `Memory.HoldsFromPostOrder` | nomt/src/merkle/page_walker.rs:314-401 | memory that has every node of the post-order in place holds the trie |
| `PagedMemory.WriteTop` | nomt/src/merkle/page_walker.rs:693-719 | writing a slot of the top page is writing one position of memory |
| `PageStack.LoadMany` | nomt/src/merkle/page_walker.rs:737-785 | stacking stored pages that are not in use does not show in memory |
| `WalkProgress.SettleWalk` | nomt/src/merkle/page_walker.rs:314-401 | replacing a terminal finishes the walk up to its position |
| `WalkProgress.ClimbWalk` | nomt/src/merkle/page_walker.rs:568-632 | compacting one layer keeps everything said of the walk in progress |
| `WalkProgress.EndOfWalk` | nomt/src/merkle/page_walker.rs:479-498 | a walk that has climbed to its top has the whole trie of the map in memory, or all roots of its child pages |
| `PageUpdate.TaskEffect` | nomt/src/merkle/worker.rs:239-263 | replacing a terminal by the spliced sub-trie applies the operations to the map |
| `PageUpdate.RunTasks` | nomt/src/merkle/worker.rs:403-420 | a walker that replaces where something is written and advances elsewhere ends with the updated map |
| `PageUpdate.UpdateAll` | nomt/src/merkle/page_walker.rs:242-498 | any ascending run of replacing and advancing over the terminals of a paged trie, garbage allowed in unreachable slots, gives the canonical root of the updated map; the pages put out, over the old ones, hold exactly its trie; and their diffs record what was written |
| `PageUpdate.UpdateBelow` | nomt/src/merkle/worker.rs:200-270 | a sub-walker below a page reports the roots of the child pages it worked in, each the sub-trie of the updated map |
| `PageUpdate.PartEffect` | nomt/src/merkle/worker.rs:239-263 | overlaying the maps of the reported roots is applying the tasks of the part |
| `PageUpdate.UpdateSplit` | nomt/src/merkle/worker.rs:200-270 | sub-walkers over any split of the tasks, joined by placing their roots in the root page, give the same root, the same trie and sound diffs |
| `UpdateRuns.EmptyStore` | nomt/src/merkle/page_walker.rs:195-222 | a store without pages holds the empty map |
| `UpdateRuns.WaysAreStored` | nomt/src/merkle/page_walker.rs:737-785 | in a store that is in order every page on the way to a terminal is there |
| `UpdateRuns.UpdateStore` | nomt/src/merkle/worker.rs:200-270 | an update leaves a store in order for the updated map: all pages below internal nodes, no others |
| `UpdateRuns.RunBatches` | nomt/src/merkle/worker.rs:200-270 | so does any run of batches, with the canonical root of the last map |
| `DiffCoverage.SlotAfter` | nomt/src/merkle/page_walker.rs:693-719 | after any list of slot writes, a slot is marked iff some write to it was not clearing; an unmarked slot is untouched or an emptied one of the first layer |
| `DiffCoverage.CoversIff` | nomt/src/page_diff.rs:37-62 | the diff covers all changes of the page iff every first-layer slot that only clearing writes touched held no node |
| `DiffCoverage.ClearedIsEmpty` | nomt/src/page_diff.rs:37-62 | a page whose diff is cleared has an empty first layer |
| `DiffCoverage.MissedSlot` | nomt/src/page_diff.rs:37-62 | clearing the left half and then writing the right one leaves a changed slot unmarked |
| `PageMarks.ShownIsMarked` | nomt/src/merkle/page_walker.rs:693-719 | memory seen through the diffs shows a node only where the page put out has marked it |
| `PageRecords.SteppedOut` | nomt/src/merkle/page_walker.rs:568-632 | a page left by the walker is noted as cleared iff the node above it is not internal, and otherwise its diff misses at most a left slot emptied beside a right one that was empty |
| `PageRecords.RecordedOut` | nomt/src/merkle/page_walker.rs:404-409 | putting out a page that runs from its stored copy keeps all pages put out recorded |
| `PageBuilds.BuildRecorded` | nomt/src/merkle/page_walker.rs:314-401 | building a sub-trie puts out new pages with every reachable slot marked |
| `LivePages.LiveReplace` | nomt/src/merkle/page_walker.rs:314-401 | replacing a terminal keeps the pages put out in step with the internal nodes of the map |
| `LivePages.LiveJoin` | nomt/src/merkle/worker.rs:239-263 | so does joining sub-walkers |
| `LivePages.KeptLive` | nomt/src/bitbox/mod.rs:198-213 | dropping the cleared pages and keeping the others leaves exactly the pages below internal nodes |
| `Probing.VisitsAllOnce` | nomt/src/bitbox/mod.rs:697-728 | the first m probes visit every bucket exactly once iff m is a power of two |
| `Probing.MeetUnlessPower` | nomt/src/bitbox/mod.rs:697-728 | for any other m two of them meet |
| `Probing.ComesTo` | nomt/src/bitbox/mod.rs:697-728 | for a power of two probing comes to every bucket again and again |
| `HashTable.MetaMap.FullCount` | nomt/src/bitbox/meta_map.rs:26-30 | counts the bytes with the high bit set |
| `HashTable.MetaMap.SetFull` | nomt/src/bitbox/meta_map.rs:37-39 | changes one byte to the full mark of the hash |
| `HashTable.MetaMap.SetTombstone` | nomt/src/bitbox/meta_map.rs:41-43 | changes one byte to the tombstone |
| `HashTable.ProbeSequence.Next` | nomt/src/bitbox/mod.rs:707-728 | goes on to the next step that is empty, a tombstone or a possible hit, and says which |
| `HashTable.AllocateBucket` | nomt/src/bitbox/mod.rs:649-671 | takes the first free bucket of the sequence, empty or tombstone, and marks it; fails iff 9999 possible hits come before it, and then changes nothing |
| `HashTable.InsertOk` | nomt/src/bitbox/mod.rs:649-671 | marking the first free bucket keeps every stored page findable and adds one |
| `HashTable.RemoveOk` | nomt/src/bitbox/mod.rs:198-213 | a tombstone keeps every other page findable |
| `HashTable.DB.Insert` | nomt/src/bitbox/mod.rs:198-288 | the table holds one page more, in a bucket no other page had, or is unchanged |
| `HashTable.DB.Clear` | nomt/src/bitbox/mod.rs:198-213 | the table holds one page less |
| `HashTable.DB.Probe` | nomt/src/bitbox/mod.rs:565-586 | the next bucket that may hold the page, or none once an empty bucket is met |
| `HashTable.DB.Load` | nomt/src/bitbox/mod.rs:565-616 | a lookup finds the bucket of the page iff it is stored |
| `HashTable.EmptyEndsSearch` | nomt/src/bitbox/mod.rs:697-728 | with a power of two of buckets and one of them empty every probe comes to an end |
| `Recovery.PrepareSync` | nomt/src/bitbox/mod.rs:174-293 | fails iff some change finds no bucket in the table as marked until then, and leaves that table; otherwise log, pages to write and meta pages agree with one another and with the table, the counter moves by the change in full bytes, and the table stays in order |
| `Recovery.PrepareChange` | nomt/src/bitbox/mod.rs:198-288 | the same for one changed page |
| `Recovery.SpareHalts` | nomt/src/bitbox/mod.rs:649-671 | with as many free buckets on the way of each page as there are changes, every probe comes to an end |
| `Recovery.Recover` | nomt/src/bitbox/mod.rs:422-526 | a log of another sync changes nothing; otherwise the file is the replay of the log, and the error is a node count that differs from the diff |
| `Recovery.MetaIs` | nomt/src/bitbox/mod.rs:447-505 | the meta byte of a bucket is that of the last entry for it |
| `Recovery.SlotIs` | nomt/src/bitbox/mod.rs:447-505 | a logged slot does not depend on what the file held, any other is unchanged |
| `Recovery.HeaderIs` | nomt/src/bitbox/mod.rs:447-505 | label and elided children are those of the last update |
| `Recovery.CrashAtomic` | nomt/src/bitbox/mod.rs:398-526 | a crash with any meta pages and any buckets written is repaired to the meta bytes, labels and logged slots of the completed writeout, and to whole pages where the diff is complete |
| `Recovery.RepairsWholeIff` | nomt/src/bitbox/mod.rs:422-526 | a bucket not written before the crash is repaired whole iff outside its logged slots the new page is what it held |
| `Recovery.ReplayTwice` | nomt/src/bitbox/mod.rs:422-526 | replaying twice is replaying once |
| `Recovery.ReplayCompleted` | nomt/src/bitbox/mod.rs:398-526 | after a sync that is written out whole the log changes nothing |
| `Recovery.RecoveredTable` | nomt/src/bitbox/mod.rs:422-526 | after recovery the table is in order for the pages of the sync: lookups find them |
| `Recovery.RepairedSlot` | nomt/src/bitbox/mod.rs:422-526 | a slot of a synced page comes back new if it is marked or its bucket was written, and old otherwise |
| `CrashedSync.ListPages` | nomt/src/merkle/mod.rs:97-122 | lists every page put out once |
| `CrashedSync.Freeze` | nomt/src/merkle/mod.rs:97-122 | every page put out becomes a change with its nodes and diff, with a bucket iff it was stored |
| `CrashedSync.SyncUpdate` | nomt/src/bitbox/mod.rs:174-293 | the pages of an update, with a table that is in order, make a sync of that table whose log can be replayed, iff no page fails to find a bucket |
| `CrashedSync.CompleteIff` | nomt/src/page_diff.rs:37-62 | for a stored page the log is complete iff the diff of the walker covers its changes |
| `CrashedSync.WholePageIff` | nomt/src/bitbox/mod.rs:422-526 | recovery repairs a stored page whole iff no first-layer slot that held a node was emptied by clearing writes only |
| `CrashedSync.DiffsBringBack` | nomt/src/bitbox/mod.rs:422-526 | after any crash every page comes back as its diff and the written buckets say, all others as they were |
| `CrashedSync.SyncRecoversIff` | nomt/src/bitbox/mod.rs:398-526 | after a crash with any meta pages and any buckets written, recovery gives the trie of the updated map iff every page that flips was written |
| `CrashedSync.FinishedKeepsAll` | nomt/src/bitbox/mod.rs:398-418 | a sync that is written out whole has written every page that flips |
| `CrashRecovery.UnmarkedSlot` | nomt/src/merkle/page_walker.rs:693-709 | an unmarked slot of a page put out is unchanged, unless it is the left of the first layer, emptied, with the right one empty before |
| `CrashRecovery.NewMarked` | nomt/src/merkle/page_walker.rs:412-470 | in a new page every reachable slot is marked |
| `CrashRecovery.Recovers` | nomt/src/page_diff.rs:82-90 | pages brought back by their diffs hold the trie of the updated map, whichever had been written, if every page that flips had |
| `CrashRecovery.FlipIsLost` | nomt/src/page_diff.rs:37-62 | a page that flips and was not written comes back with the old node at its left slot, and not as the trie of the map |
| `CrashRecovery.RecoversIff` | nomt/src/page_diff.rs:37-62 | pages brought back after any crash hold the trie of the updated map iff every page that flips had been written: one at which all keys, two or more, were in the left half and now all, two or more, are in the right |
| `CrashRecovery.NeverLostIff` | nomt/src/page_diff.rs:37-62 | whatever had been written, what comes back holds the trie of the updated map, iff no page flips |
| `LostUpdate.LoseUpdate` | nomt/src/merkle/page_walker.rs:242-498 | a walker that deletes the two keys of the left half of the root page and inserts two into the right puts out the right trie with a diff from which no recovery brings it back |
| `LostUpdate.FlipsAtRoot` | nomt/src/page_diff.rs:37-62 | that update flips the root page |
| `CrashRuns.CycleIff` | nomt/src/bitbox/mod.rs:398-526 | update, sync, crash with any pages written and recovery leave trie, pages, table and file in order for the updated map iff every page that flips was written |
| `CrashRuns.SystemSyncs` | nomt/src/bitbox/mod.rs:174-293 | in a system that is in order the table holds no page that an update takes for a new one |
| `CrashRuns.SyncAndRecover` | nomt/src/bitbox/mod.rs:398-526 | syncing, crashing with any pages written and recovering: the file is the repaired one, and the system is in order for the updated map iff every page that flips was written |
| `CrashRuns.EndIff` | nomt/src/bitbox/mod.rs:398-526 | a sync that is written out whole leaves the system in order, one that crashes does iff it has written every page that flips |
| `CrashRuns.RunIsSafeIff` | nomt/src/bitbox/mod.rs:398-526 | in a run of any number of updates, each synced whole or crashed and recovered, the system is in order after each iff no crash loses a page that flips |
| `BeatreeIterators.LeafIterator.constructor` | nomt/src/beatree/iterator.rs:201-224 | starts at the leaf whose separator is the last at or below the start; what is left is the entries in range |
| `BeatreeIterators.LeafIterator.Next` | nomt/src/beatree/iterator.rs:237-297 | gives the first of what is left, blocks iff it waits for a leaf, ends iff nothing is left |
| `BeatreeIterators.LeafIterator.NewStateLeafConsumed` | nomt/src/beatree/iterator.rs:300-341 | moves to the next leaf in the index, or ends, without losing or adding an entry |
| `BeatreeIterators.LeafIterator.ProvideLeaf` | nomt/src/beatree/iterator.rs:344-378 | a leaf given takes the first page off those needed and leaves what is left as it is |
| `BeatreeIterators.NeededLeavesIter.Next` | nomt/src/beatree/iterator.rs:419-463 | yields the pages that are still needed, in order |
| `BeatreeIterators.StagingIterator.Next` | nomt/src/beatree/iterator.rs:502-527 | the first of the staged changes, primary over secondary |
| `BeatreeIterators.BeatreeIterator.Next` | nomt/src/beatree/iterator.rs:58-127 | an item is the first of the merge that is left; blocking changes nothing; the end comes when nothing is left |
| `BeatreeIterators.Drive` | nomt/src/beatree/iterator.rs:58-149 | answering every block with the next needed page yields all that is left, asks for a prefix of the needed pages in order, and gets stuck iff the iterator waits for a leaf past the end |
| `BeatreeIterators.RestIs` | nomt/src/beatree/iterator.rs:58-127 | the merge ascends and has at each key in range what primary over secondary over leaves has, deletions removed |
| `BeatreeIterators.Iterate` | nomt/src/beatree/iterator.rs:36-149 | gets stuck iff the separator of the first leaf is not before the end; otherwise yields exactly the entries in range, ascending |
| `BeatreeIterators.GetStuck` | nomt/src/beatree/iterator.rs:201-224 | a tree and an empty range on which it gets stuck |
| `LeafIndex.Lookup` | nomt/src/beatree/index.rs:22-26 | the last branch whose separator is at or below the key |
| `LeafIndex.SearchBranch` | nomt/src/beatree/ops/mod.rs:102-114 | the last separator in a branch at or below the key |
| `LeafIndex.EntriesOk` | nomt/src/beatree/iterator.rs:192-199 | leaves between their separators make one ascending list |
| `OrderedLists.MergeFind` | nomt/src/beatree/iterator.rs:58-127 | the merge has at a key what the change makes of the entry |
| `OrderedLists.MergeChangesFind` | nomt/src/beatree/iterator.rs:484-531 | staged changes: primary if there is one, secondary otherwise |
| `SeqnIndex.PruneBelow` | nomt/src/overlay.rs:149-189 | removes exactly the keys whose latest write is below the minimum |
| `SeqnIndex.PrunedCovers` | nomt/src/overlay.rs:149-189 | a pruned index is right for the sequence numbers from the minimum on |
| `SeqnIndex.Insert` | nomt/src/overlay.rs:194-209 | an index with the keys of one more overlay is right for the longer chain |
| `Overlays.PageBacked` | nomt/src/overlay.rs:297-318 | every hit of the page index points at an ancestor that is held and has the page |
| `Overlays.ValueBacked` | nomt/src/overlay.rs:324-345 | likewise for values |
| `Overlays.PageIsNewest` | nomt/src/overlay.rs:297-318 | a page lookup is a newest-first search through the parent and its held ancestors |
| `Overlays.ValueIsNewest` | nomt/src/overlay.rs:324-331 | so is a value lookup |
| `Overlays.NewLive` | nomt/src/overlay.rs:246-291 | accepted iff every ancestor given is the one the parent knows and the oldest searched has no parent that is not committed |
| `Overlays.Finish` | nomt/src/overlay.rs:369-415 | a finished overlay has an index that is right for the chain it extends |
| `Overlays.Status.Drop` | nomt/src/overlay.rs:111-119 | a live overlay becomes dropped, a committed one stays |
| `Overlays.Database.Commit` | nomt/src/lib.rs:697-741 | succeeds iff the parent is the last overlay committed, or there is none, and the root is the one it is based on; what is marked as committed stays in the store iff it is not the root that is wrong |
| `Overlays.Database.CommitSession` | nomt/src/lib.rs:657-687 | succeeds iff the root is the one it is based on; no overlay follows it but one without a parent |
| `Overlays.Database.DropData` | nomt/src/overlay.rs:221-223 | dropping data never undoes a commit |
| `Overlays.Database.NothingMissing` | nomt/src/overlay.rs:246-291 | if the oldest overlay searched has a committed parent, that and all before it are committed, and in the store if all that is committed is |
| `Overlays.AcceptForeign` | nomt/src/overlay.rs:246-291 | an overlay that is no ancestor of the first is accepted after it |
| `Overlays.LoseOverlay` | nomt/src/lib.rs:697-741 | an overlay whose commit failed is passed over by a session on its child, and its change is seen nowhere |
| `PageIds.SubtreeIs` | core/src/page_id.rs:194-206 | the pages from p to its maximal descendant in order are exactly its descendants |
| `PageIds.Total` | core/src/page_id.rs:29-41 | the order is total and irreflexive |
| `PageIds.MaxDescendant` | core/src/page_id.rs:199-206 | the loop gives the maximal descendant |
| `PageIds.NumeralInjective` | core/src/page_id.rs:9-12 | the base-64 numeral with digits from one determines the path |
| `PageIds.Decode` | core/src/page_id.rs:89-122 | succeeds iff the number is at most the largest page numeral, and inverts the numeral |
| `PageIds.Encode` | core/src/page_id.rs:130-152 | both ways of encoding give 64 times the numeral, modulo 256 bits |
| `PageIds.FitsWord` | core/src/page_id.rs:130-152 | up to the depth where the short way is taken, 64 bits lose nothing |
| `PageIds.EncodedInjective` | core/src/page_id.rs:130-152 | different pages to depth 41 have different encodings |
| `PageIds.EncodedCollides` | core/src/page_id.rs:130-152 | at depth 42, first children 16 apart have the same |
| `PageIds.EncodedApartIff` | core/src/page_id.rs:130-152 | encodings tell all pages to a depth apart iff that depth is below 42 |
| `PageIds.DecodeEncodeIff` | core/src/page_id.rs:89-152 | encoding is the numeral that decoding inverts iff the page is the root |
| `PageRegions.FromPageId` | nomt/src/page_region.rs:64-76 | exclusive are the page and its descendants, shared its proper ancestors |
| `PageRegions.FromPageIdDescendants` | nomt/src/page_region.rs:79-90 | exclusive are the children in range with their descendants, shared the page and its ancestors |
| `PageRegions.EncompassesIff` | nomt/src/page_region.rs:110-113 | one region encompasses another iff it has all its exclusive pages, and then all its pages |
| `PageRegions.ExcludesIff` | nomt/src/page_region.rs:116-125 | two exclude each other iff no exclusive page of one is in the other at all; the test is symmetric |
| `WritePasses.Exclude` | nomt/src/rw_pass_cell/mod.rs:207-243 | passes of which neither stems from the other exclude each other |
| `WritePasses.HeldExclude` | nomt/src/rw_pass_cell/mod.rs:207-281 | in every reachable state a page exclusive to one held pass is in no other held pass |
| `WritePasses.Domain.SplitN` | nomt/src/rw_pass_cell/mod.rs:207-243 | the pass is replaced by one per region, its record counting them |
| `WritePasses.Domain.Consume` | nomt/src/rw_pass_cell/mod.rs:246-269 | the parent is yielded iff this was the last of its parts |
| `WritePasses.Domain.DropPass` | nomt/src/rw_pass_cell/mod.rs:272-281 | the pass is gone and its parent counts one less, never yielded |
| `Rollbacks.Finalize` | nomt/src/rollback/mod.rs:383-434 | the delta has exactly the keys written, with the values they had |
| `Rollbacks.StepBack` | nomt/src/rollback/mod.rs:181-224 | older deltas over newer ones lead back to the older state |
| `Rollbacks.Rollback.Commit` | nomt/src/rollback/mod.rs:164-178 | the log grows by one delta that leads back to the state before |
| `Rollbacks.Rollback.Truncate` | nomt/src/rollback/mod.rs:181-224 | refused iff the log is too short; otherwise the traceback restores the state n commits earlier and the log left is right for it |
| `Rollbacks.Rollback.WriteoutStart` | nomt/src/rollback/mod.rs:232-269 | prunes the oldest delta iff the log is too long and nothing is to be truncated; the current state stays |

## Findings

Places where the code does not do what its documentation or its other half expects. Each has its exact
condition and inputs that show it.

- **A page can come back with a node that was deleted.** Emptying the first layer of a page sets the clear
  bit and does not mark the slot (nomt/src/merkle/page_walker.rs:693-709); a later change to the same page
  erases the clear bit (nomt/src/page_diff.rs:37-44). The emptied slot is then in no diff, and after a
  crash before the page is written the redo log leaves the old node in it. At the level of one page:
  `DiffCoverage.CoversIff` and `CrashedSync.WholePageIff`. At the level of the trie a page flips if all keys
  below it, two or more, were in its left half and now all, two or more, are in its right half: a crash loses
  the update if and only if some page that flips was not written (`CrashRecovery.RecoversIff`,
  `CrashedSync.SyncRecoversIff`, and `CrashRuns.RunIsSafeIff` for whole runs), and no crash can lose it if and
  only if no page flips (`CrashRecovery.NeverLostIff`). `LostUpdate.LoseUpdate` takes the walker through such an
  update.
- **The iterator can block without needing a page.** When the separator of the leaf at which it starts is not
  before the end of the range, `next` blocks and `needed_leaves` is empty, so no caller can go on
  (nomt/src/beatree/iterator.rs:201-224, 237-297, 381-407). The range is empty then. Exactly then:
  `BeatreeIterators.Iterate`, and `BeatreeIterators.GetStuck` at one input.
- **Page labels can collide.** `encode` shifts after adding each limb (core/src/page_id.rs:130-152), so at depth
  42 the highest bits are lost: `PageIds.EncodedCollides`. To depth 41 labels are different:
  `PageIds.EncodedInjective`, and `PageIds.EncodedApartIff` for both. For the same reason `decode` does not
  invert `encode` except at the root: `PageIds.DecodeEncodeIff`.
- **The multi-proof of no paths** is accepted if and only if the root is that of the empty trie
  (core/src/proof/multi_proof.rs:411-450): `MultiProofBuild.RoundTrip`.
- **Probing needs a power of two.** The probe sequence visits all buckets if and only if their number is a power
  of two (nomt/src/bitbox/mod.rs:697-728), which nothing asks for: `Probing.VisitsAllOnce`. For any other
  number `Probing.MeetUnlessPower` gives two probes that meet.
- **Overlays beyond the known ancestors are not looked at.** `new` walks the given overlays and the ancestors of
  the first in step and ignores what is left over (nomt/src/overlay.rs:246-291): `Overlays.NewLive`, and
  `Overlays.AcceptForeign` at one input.
- **A failed commit can hide an overlay.** An overlay is marked as committed before the root is looked at
  (nomt/src/lib.rs:697-741). If that fails, a session on its child takes it for stored and does not search it:
  `Overlays.LoseOverlay`. A commit keeps what is marked in the store if and only if it fails earlier or not at all
  (`Overlays.Database.Commit`).

## Left out

- PageWalk.PageWalker.Advance: a position below the one just worked at is excluded. The source accepts it as
  later and then subtracts more layers than there are (nomt/src/merkle/page_walker.rs:574-592).
- PathProofs.VerifyUpdate: the paths are taken to be verified against the root of some map, as any root made by
  this code is; a root no map has is not considered.
- HashTable.AllocateBucket: the probe must come to an end. On any other table the loop of the source does not;
  `HashTable.EmptyEndsSearch` has a case in which it does.
- HashTable.DB.Load: a page that is not stored must have an empty bucket on its probe sequence. Without one the
  loop of the source does not end.
- Recovery.PrepareSync: every probe up to the failing one must come to an end, for the same reason.
- CrashedSync.SyncUpdate: likewise; and labels must tell the pages stored and put out apart, which the encoding
  does unless there are pages at depth 42 (see Findings).
- CrashRuns.SyncAndRecover: needs the same.
- CrashRuns.SystemSyncs: needs the same of labels.
- Page elision and reconstruction: all pages are present; the joined diffs and leaf counters that serve only
  elision are not kept.
- The sibling stack of the walker and the witnesses made of it.
- Updates verified against multi-proofs, and confirmation with a given index.
- Seeking, the partition of keys among workers, and the gathering of witnesses in completion order.
- Overlay iteration over a range of values.
- The smallest and largest key of a page, and iterating the pages along a key.
- Bucket indices shared between overlays before they are known; a page's bucket is known or not.
- Overflow cells: they are carried as values, not read.
- Read passes and the universal region.
- The byte format of the log, the order of fsyncs, and weak memory: steps are sequentially consistent and a write
  is durable once issued.
- Segment files and live ranges of the rollback log.
- Where the root node is kept between runs.
- Concrete hash functions, caches, I/O pools, options, metrics and tools.
