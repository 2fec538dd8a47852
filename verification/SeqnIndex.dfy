/** An index from keys to the sequence number of their latest write, with a queue by sequence number to
    prune it from the old end. */
module SeqnIndex {

  datatype Index<K> = Index(latest: map<K, nat>, bySeqn: seq<(nat, K)>)

  ghost predicate Queued<K>(q: seq<(nat, K)>, s: nat, k: K) {
    exists i | 0 <= i < |q| :: q[i] == (s, k)
  }

  ghost predicate InOrder<K>(q: seq<(nat, K)>) {
    forall i, j | 0 <= i <= j < |q| :: q[i].0 <= q[j].0
  }

  /** The index covers the writes numbered `lo` and up: each key's latest one, and all in the queue. */
  ghost predicate Covers<K>(ix: Index<K>, writes: seq<set<K>>, lo: nat) {
    && InOrder(ix.bySeqn)
    && (forall k | k in ix.latest :: LatestIs(writes, lo, k, ix.latest[k]))
    && (forall s: nat, k | lo <= s < |writes| && k in writes[s] :: k in ix.latest && Queued(ix.bySeqn, s, k))
    && (forall i | 0 <= i < |ix.bySeqn| :: WrittenAt(writes, lo, ix.bySeqn[i].0, ix.bySeqn[i].1))
  }

  ghost predicate WrittenAt<K>(writes: seq<set<K>>, lo: nat, s: nat, k: K) {
    lo <= s < |writes| && k in writes[s]
  }

  ghost predicate LatestIs<K>(writes: seq<set<K>>, lo: nat, k: K, s: nat) {
    WrittenAt(writes, lo, s, k) && forall t | s < t < |writes| :: k !in writes[t]
  }

  /** Nothing was written after the latest write. */
  lemma NotWritten<K>(ix: Index<K>, writes: seq<set<K>>, lo: nat, k: K, s: nat)
    requires Covers(ix, writes, lo) && lo <= s < |writes| && (k in ix.latest ==> ix.latest[k] < s)
    ensures k !in writes[s]
  {
    if k in ix.latest { assert LatestIs(writes, lo, k, ix.latest[k]); }
  }

  lemma IsWritten<K>(ix: Index<K>, writes: seq<set<K>>, lo: nat, k: K)
    requires Covers(ix, writes, lo) && k in ix.latest
    ensures WrittenAt(writes, lo, ix.latest[k], k)
  {
    assert LatestIs(writes, lo, k, ix.latest[k]);
  }

  /** Drop everything numbered below `min`. */
  method PruneBelow<K>(ix0: Index<K>, min: nat, ghost writes: seq<set<K>>, ghost lo: nat) returns (ix: Index<K>)
    requires Covers(ix0, writes, lo)
    ensures forall k :: k in ix.latest <==> k in ix0.latest && ix0.latest[k] >= min
    ensures forall k | k in ix.latest :: ix.latest[k] == ix0.latest[k]
    ensures forall s: nat, k :: Queued(ix.bySeqn, s, k) <==> Queued(ix0.bySeqn, s, k) && s >= min
    ensures InOrder(ix.bySeqn)
  {
    var latest := ix0.latest;
    var j := 0;
    while j < |ix0.bySeqn| && ix0.bySeqn[j].0 < min
      invariant 0 <= j <= |ix0.bySeqn|
      invariant forall i | 0 <= i < j :: ix0.bySeqn[i].0 < min
      invariant forall k :: k in latest <==> k in ix0.latest && (ix0.latest[k] >= min || !Popped(ix0.bySeqn, j, k))
      invariant forall k | k in latest :: latest[k] == ix0.latest[k]
    {
      var (seqn, key) := ix0.bySeqn[j];
      if key in latest {
        var got := latest[key];
        latest := latest - {key};
        if got != seqn && got >= min { latest := latest[key := got]; }
      }
      j := j + 1;
    }
    ix := Index(latest, ix0.bySeqn[j..]);
    AllPopped(ix0, min, writes, lo, j);
    Suffix(ix0.bySeqn, j, min);
  }

  ghost predicate Popped<K>(q: seq<(nat, K)>, j: nat, k: K)
    requires j <= |q|
  {
    exists i | 0 <= i < j :: q[i].1 == k
  }

  lemma AllPopped<K>(ix: Index<K>, min: nat, writes: seq<set<K>>, lo: nat, j: nat)
    requires Covers(ix, writes, lo) && j <= |ix.bySeqn| && (j < |ix.bySeqn| ==> ix.bySeqn[j].0 >= min)
    ensures forall k | k in ix.latest && ix.latest[k] < min :: Popped(ix.bySeqn, j, k)
  {
    forall k | k in ix.latest && ix.latest[k] < min ensures Popped(ix.bySeqn, j, k) {
      assert LatestIs(writes, lo, k, ix.latest[k]);
      var i :| 0 <= i < |ix.bySeqn| && ix.bySeqn[i] == (ix.latest[k], k);
      assert i < j;
    }
  }

  lemma Suffix<K>(q: seq<(nat, K)>, j: nat, min: nat)
    requires InOrder(q) && j <= |q| && (j < |q| ==> q[j].0 >= min) && forall i | 0 <= i < j :: q[i].0 < min
    ensures InOrder(q[j..])
    ensures forall s: nat, k :: Queued(q[j..], s, k) <==> Queued(q, s, k) && s >= min
  {
    forall s: nat, k | Queued(q, s, k) && s >= min ensures Queued(q[j..], s, k) {
      var i :| 0 <= i < |q| && q[i] == (s, k);
      assert q[j..][i - j] == (s, k);
    }
    forall s: nat, k | Queued(q[j..], s, k) ensures Queued(q, s, k) && s >= min {
      var i :| 0 <= i < |q[j..]| && q[j..][i] == (s, k);
      assert q[i + j] == (s, k);
    }
  }

  /** Pruning covers exactly the writes that remain. */
  lemma PrunedCovers<K>(ix0: Index<K>, ix: Index<K>, writes: seq<set<K>>, lo: nat, min: nat)
    requires Covers(ix0, writes, lo) && lo <= min && InOrder(ix.bySeqn)
    requires forall k :: k in ix.latest <==> k in ix0.latest && ix0.latest[k] >= min
    requires forall k | k in ix.latest :: ix.latest[k] == ix0.latest[k]
    requires forall s: nat, k :: Queued(ix.bySeqn, s, k) <==> Queued(ix0.bySeqn, s, k) && s >= min
    ensures Covers(ix, writes, min)
  {
    forall k | k in ix.latest ensures LatestIs(writes, min, k, ix.latest[k]) {
      assert LatestIs(writes, lo, k, ix0.latest[k]);
    }
    forall s: nat, k | min <= s < |writes| && k in writes[s] ensures k in ix.latest && Queued(ix.bySeqn, s, k) {
      assert k in ix0.latest && Queued(ix0.bySeqn, s, k);
      assert LatestIs(writes, lo, k, ix0.latest[k]);
    }
    forall i | 0 <= i < |ix.bySeqn| ensures WrittenAt(writes, min, ix.bySeqn[i].0, ix.bySeqn[i].1) {
      var (s, k) := ix.bySeqn[i];
      assert Queued(ix.bySeqn, s, k) && Queued(ix0.bySeqn, s, k);
      var j :| 0 <= j < |ix0.bySeqn| && ix0.bySeqn[j] == (s, k);
    }
  }

  /** Insert all keys with a sequence number above all others. */
  method Insert<K>(ix0: Index<K>, seqn: nat, keys: set<K>, ghost writes: seq<set<K>>, ghost lo: nat)
    returns (ix: Index<K>)
    requires Covers(ix0, writes, lo) && seqn == |writes| && lo <= seqn
    ensures Covers(ix, writes + [keys], lo)
  {
    hide Covers, Inserted;
    var latest: map<K, nat>, bySeqn: seq<(nat, K)>, left := ix0.latest, ix0.bySeqn, keys;
    assert keys - left == {};
    NoneInserted(ix0, seqn);
    while left != {}
      invariant left <= keys
      invariant Inserted(ix0, latest, bySeqn, seqn, keys - left)
      decreases |left|
    {
      var key :| key in left;
      InsertOne(ix0, latest, bySeqn, seqn, keys - left, key);
      assert keys - left + {key} == keys - (left - {key});
      bySeqn := bySeqn + [(seqn, key)];
      latest := latest[key := seqn];
      left := left - {key};
    }
    assert keys - left == keys;
    ix := Index(latest, bySeqn);
    InsertedCovers(ix0, ix, seqn, keys, writes, lo);
  }

  ghost predicate Inserted<K>(ix0: Index<K>, latest: map<K, nat>, q: seq<(nat, K)>, seqn: nat, done: set<K>) {
    && latest.Keys == ix0.latest.Keys + done
    && (forall k | k in latest :: latest[k] == if k in done then seqn else ix0.latest[k])
    && |q| >= |ix0.bySeqn| && q[..|ix0.bySeqn|] == ix0.bySeqn
    && (forall i | |ix0.bySeqn| <= i < |q| :: q[i].0 == seqn && q[i].1 in done)
    && (forall k | k in done :: Queued(q, seqn, k))
  }

  lemma NoneInserted<K>(ix0: Index<K>, seqn: nat)
    ensures Inserted(ix0, ix0.latest, ix0.bySeqn, seqn, {})
  {
  }

  lemma InsertOne<K>(ix0: Index<K>, latest: map<K, nat>, q: seq<(nat, K)>, seqn: nat, done: set<K>, key: K)
    requires Inserted(ix0, latest, q, seqn, done)
    ensures Inserted(ix0, latest[key := seqn], q + [(seqn, key)], seqn, done + {key})
  {
    var q' := q + [(seqn, key)];
    assert q'[..|ix0.bySeqn|] == q[..|ix0.bySeqn|];
    assert q'[|q|] == (seqn, key);
    forall k | k in done + {key} ensures Queued(q', seqn, k) {
      if k != key {
        var i :| 0 <= i < |q| && q[i] == (seqn, k);
        assert q'[i] == (seqn, k);
      }
    }
  }

  lemma InsertedCovers<K>(ix0: Index<K>, ix: Index<K>, seqn: nat, keys: set<K>, writes: seq<set<K>>, lo: nat)
    requires Covers(ix0, writes, lo) && seqn == |writes| && lo <= seqn
             && Inserted(ix0, ix.latest, ix.bySeqn, seqn, keys)
    ensures Covers(ix, writes + [keys], lo)
  {
    var writes', n := writes + [keys], |ix0.bySeqn|;
    forall i | 0 <= i < |ix.bySeqn| ensures WrittenAt(writes', lo, ix.bySeqn[i].0, ix.bySeqn[i].1) {
      if i < n {
        assert ix.bySeqn[i] == ix.bySeqn[..n][i];
        assert WrittenAt(writes, lo, ix0.bySeqn[i].0, ix0.bySeqn[i].1);
      }
    }
    forall i, j | 0 <= i <= j < |ix.bySeqn| ensures ix.bySeqn[i].0 <= ix.bySeqn[j].0 {
      if i < n { assert ix.bySeqn[i] == ix.bySeqn[..n][i] && WrittenAt(writes, lo, ix0.bySeqn[i].0, ix0.bySeqn[i].1); }
      if j < n { assert ix.bySeqn[j] == ix.bySeqn[..n][j]; }
    }
    forall s: nat, k | lo <= s < |writes'| && k in writes'[s] ensures k in ix.latest && Queued(ix.bySeqn, s, k) {
      if s < seqn {
        assert k in writes[s] && Queued(ix0.bySeqn, s, k);
        var i :| 0 <= i < n && ix0.bySeqn[i] == (s, k);
        assert ix.bySeqn[i] == ix.bySeqn[..n][i];
      }
    }
    forall k | k in ix.latest ensures LatestIs(writes', lo, k, ix.latest[k]) {
      if k !in keys { assert LatestIs(writes, lo, k, ix0.latest[k]); }
    }
  }

  lemma EmptyCovers<K>(lo: nat)
    ensures Covers<K>(Index(map[], []), [], lo)
  {
  }
}
