/** Whole runs of updates: from an empty store on, any number of batches, each leaving the store ready for
    the next. */
module UpdateRuns {
  import opened Trie
  import opened TriePos
  import opened CountLeaves
  import opened Memory
  import opened PagedMemory
  import opened PageStack
  import opened PageRecords
  import opened PageUpdate
  import opened LivePages
  import opened CrashRecovery

  /** The stored pages hold the trie of the map, and exactly those that hang from its internal nodes are
      stored. */
  ghost predicate StoreOk(root: Node, pages: PageSet, m: State) {
    Holds(StoredMem(root, pages), m, []) && PagesLive(pages, m)
  }

  /** A store without pages holds the empty map. */
  lemma EmptyStore(garbage: PageId -> Page)
    ensures StoreOk(Terminator, PageSet(map[], garbage), map[])
  {
    RootAt(Terminator, PageSet(map[], garbage));
    forall x: Path | Boundary(x, 0) ensures PageIsLive(PageSet(map[], garbage), map[], x) {}
  }

  /** The pages on the way to a reachable position are stored. */
  lemma WayIsStored(pages: PageSet, m: State, at: Path)
    requires PagesLive(pages, m) && |at| <= KEY_BITS && Reachable(m, at, 0)
    ensures WayStored(pages, at)
  {
    hide Sub, PageOf;
    if at != [] {
      forall n | 0 <= n <= |PageOf(at)| ensures PageOf(at)[..n] in pages.pages {
        PagePrefix(at, n);
        var x := at[..DEPTH * n];
        OnTheWay(at, n);
        assert PageIsLive(pages, m, x);
      }
    }
  }

  lemma OnTheWay(at: Path, n: nat)
    requires at != [] && n <= |PageOf(at)| && DEPTH * n + 1 <= |at|
    ensures PageAt(at[..DEPTH * n]) == PageOf(at[..DEPTH * n + 1])
  {
    var y := at[..DEPTH * n + 1];
    assert y[..DEPTH * n] == at[..DEPTH * n] && Stem(y) == at[..DEPTH * n];
    StemPages(y);
  }

  lemma WaysAreStored(pages: PageSet, m: State, tasks: seq<Task>)
    requires PagesLive(pages, m) && TasksOk(m, tasks)
    ensures WaysStored(pages, tasks)
  {
    hide Sub, WayStored, PagesLive;
    forall i | 0 <= i < |tasks| ensures WayStored(pages, tasks[i].at) {
      assert TaskOk(m, tasks[i]);
      WayIsStored(pages, m, tasks[i].at);
    }
  }

  // ----- dropping the cleared pages

  /** A page that is reached is not cleared, so dropping the cleared ones loses nothing. */
  lemma KeptSlot(newRoot: Node, pages: PageSet, output: UpdatedPages, m: State, y: Path)
    requires AllClearedRight(m, output) && |y| <= KEY_BITS && Reachable(m, y, 0)
    ensures StoredMem(newRoot, Kept(pages, output))[y] == StoredMem(newRoot, Merged(pages, output))[y]
  {
    hide Sub, PageOf, IndexOf, StoredMem;
    if y == [] {
      RootAt(newRoot, Kept(pages, output));
      RootAt(newRoot, Merged(pages, output));
    } else {
      StoredAt(newRoot, Kept(pages, output), y);
      MergedAt(newRoot, pages, output, y);
      assert y[..|Stem(y)|] == Stem(y);
      if PageOf(y) in output { assert ClearedRight(m, output, y); }
    }
  }

  lemma KeptHolds(newRoot: Node, pages: PageSet, output: UpdatedPages, m: State)
    requires AllClearedRight(m, output) && Holds(StoredMem(newRoot, Merged(pages, output)), m, [])
    ensures Holds(StoredMem(newRoot, Kept(pages, output)), m, [])
  {
    hide Sub, Holds, StoredMem, AllClearedRight;
    forall y: Path | |y| <= KEY_BITS && Reachable(m, y, 0)
      ensures StoredMem(newRoot, Kept(pages, output))[y] == StoredMem(newRoot, Merged(pages, output))[y]
    {
      KeptSlot(newRoot, pages, output, m, y);
    }
    HoldsToo(StoredMem(newRoot, Merged(pages, output)), StoredMem(newRoot, Kept(pages, output)), m, []);
  }

  // ----- runs

  /** One batch: whatever the store, the tasks that fit its map can be run on it, and it is in order again
      afterwards. */
  method UpdateStore(root: Node, pages: PageSet, tasks: seq<Task>, ghost m0: State)
    returns (newRoot: Node, newPages: PageSet)
    requires StoreOk(root, pages, m0) && TasksOk(m0, tasks)
    ensures StoreOk(newRoot, newPages, Updated(m0, tasks, |tasks|)) && newRoot == Root(Updated(m0, tasks, |tasks|))
  {
    hide Holds, StoredMem, PagesLive, TasksOk, WaysStored, Updated, Recorded, Merged, Kept;
    WaysAreStored(pages, m0, tasks);
    var output;
    newRoot, output := UpdateAll(root, pages, tasks, m0);
    newPages := Kept(pages, output);
    KeptHolds(newRoot, pages, output, Updated(m0, tasks, |tasks|));
    KeptLive(pages, m0, output, Updated(m0, tasks, |tasks|));
  }

  /** The map after the first `n` batches. */
  ghost function After(m0: State, batches: seq<seq<Task>>, n: nat): State
    requires n <= |batches|
  {
    if n == 0 then m0 else Updated(After(m0, batches, n - 1), batches[n - 1], |batches[n - 1]|)
  }

  ghost predicate BatchesOk(m0: State, batches: seq<seq<Task>>) {
    forall i | 0 <= i < |batches| :: TasksOk(After(m0, batches, i), batches[i])
  }

  /** A whole run: after every number of batches the store holds the map they lead to. */
  method RunBatches(root: Node, pages: PageSet, batches: seq<seq<Task>>, ghost m0: State)
    returns (newRoot: Node, newPages: PageSet)
    requires StoreOk(root, pages, m0) && BatchesOk(m0, batches)
    ensures StoreOk(newRoot, newPages, After(m0, batches, |batches|))
    ensures batches != [] ==> newRoot == Root(After(m0, batches, |batches|))
  {
    hide StoreOk, TasksOk, Updated;
    newRoot, newPages := root, pages;
    for i := 0 to |batches|
      invariant StoreOk(newRoot, newPages, After(m0, batches, i)) && (i > 0 ==> newRoot == Root(After(m0, batches, i)))
    {
      assert TasksOk(After(m0, batches, i), batches[i]);
      newRoot, newPages := UpdateStore(newRoot, newPages, batches[i], After(m0, batches, i));
    }
  }
}
