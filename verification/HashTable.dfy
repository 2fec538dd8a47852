/** The bucket table of the page store: one meta byte per bucket, open addressing with triangular
    probing, tombstones for cleared buckets. */
module HashTable {
  import opened Wrappers
  import opened Probing

  type Byte = b: nat | b < 256

  const EMPTY: Byte := 0
  const TOMBSTONE: Byte := 127
  const FULL_MASK: Byte := 128

  /** A 64-bit hash of an encoded page identifier. */
  type Hash = h: nat | h < 0x1_0000_0000_0000_0000

  /** An encoded page identifier, as it labels a page in the store. */
  type Label = nat

  /** The seven high bits of the hash under the mark of a full bucket. */
  function FullEntry(hash: Hash): (b: Byte)
    ensures b >= FULL_MASK
  {
    FULL_MASK + hash / 0x200_0000_0000_0000
  }

  ghost function CountFull(bytes: seq<Byte>, n: nat): nat
    requires n <= |bytes|
  {
    if n == 0 then 0 else CountFull(bytes, n - 1) + if bytes[n - 1] >= FULL_MASK then 1 else 0
  }

  lemma {:induction false} CountUpdate(bytes: seq<Byte>, n: nat, b: nat, value: Byte)
    requires n <= |bytes| && b < |bytes|
    ensures CountFull(bytes[b := value], n)
            == CountFull(bytes, n) + (if b < n && value >= FULL_MASK then 1 else 0)
               - (if b < n && bytes[b] >= FULL_MASK then 1 else 0)
  {
    if n > 0 { CountUpdate(bytes, n - 1, b, value); }
  }

  class MetaMap {
    const buckets: nat
    var bitvec: seq<Byte>

    constructor (bytes: seq<Byte>, buckets: nat)
      ensures this.buckets == buckets && bitvec == bytes
    {
      this.buckets, bitvec := buckets, bytes;
    }

    method FullCount() returns (n: nat)
      ensures n == CountFull(bitvec, |bitvec|)
    {
      n := 0;
      for i := 0 to |bitvec|
        invariant n == CountFull(bitvec, i)
      {
        if bitvec[i] >= FULL_MASK { n := n + 1; }
      }
    }

    method SetFull(bucket: nat, hash: Hash)
      requires bucket < |bitvec|
      modifies this
      ensures bitvec == old(bitvec)[bucket := FullEntry(hash)]
    {
      bitvec := bitvec[bucket := FullEntry(hash)];
    }

    method SetTombstone(bucket: nat)
      requires bucket < |bitvec|
      modifies this
      ensures bitvec == old(bitvec)[bucket := TOMBSTONE]
    {
      bitvec := bitvec[bucket := TOMBSTONE];
    }

    predicate HintEmpty(bucket: nat)
      requires bucket < |bitvec|
      reads this
    {
      bitvec[bucket] == EMPTY
    }

    predicate HintTombstone(bucket: nat)
      requires bucket < |bitvec|
      reads this
    {
      bitvec[bucket] == TOMBSTONE
    }

    predicate HintNotMatch(bucket: nat, hash: Hash)
      requires bucket < |bitvec|
      reads this
    {
      bitvec[bucket] != FullEntry(hash)
    }
  }

  // ----- probing

  ghost predicate EmptyAt(bytes: seq<Byte>, m: nat, hash: Hash, k: nat)
    requires 0 < m <= |bytes|
  {
    bytes[ProbeAt(hash, m, k)] == EMPTY
  }

  ghost predicate FreeAt(bytes: seq<Byte>, m: nat, hash: Hash, k: nat)
    requires 0 < m <= |bytes|
  {
    EmptyAt(bytes, m, hash, k) || bytes[ProbeAt(hash, m, k)] == TOMBSTONE
  }

  ghost predicate HitAt(bytes: seq<Byte>, m: nat, hash: Hash, k: nat)
    requires 0 < m <= |bytes|
  {
    bytes[ProbeAt(hash, m, k)] == FullEntry(hash)
  }

  /** Probe `k` is one at which the search for the hash halts. */
  ghost predicate StopsAt(bytes: seq<Byte>, m: nat, hash: Hash, k: nat)
    requires 0 < m <= |bytes|
  {
    FreeAt(bytes, m, hash, k) || HitAt(bytes, m, hash, k)
  }

  ghost predicate Stops(bytes: seq<Byte>, m: nat, hash: Hash)
    requires 0 < m <= |bytes|
  {
    exists k: nat :: StopsAt(bytes, m, hash, k)
  }

  datatype ProbeResult = PossibleHit(bucket: nat) | EmptyBucket(bucket: nat) | TombstoneBucket(bucket: nat)

  /** The result a probe that halts gives. */
  ghost function ResultAt(bytes: seq<Byte>, m: nat, hash: Hash, k: nat): ProbeResult
    requires 0 < m <= |bytes|
  {
    var b := ProbeAt(hash, m, k);
    if bytes[b] == EMPTY then EmptyBucket(b) else if bytes[b] == TOMBSTONE then TombstoneBucket(b) else PossibleHit(b)
  }

  class ProbeSequence {
    const hash: Hash
    var bucket: nat
    var step: nat

    /** After `step` probes the bucket is that of the last one. */
    ghost predicate At(m: nat)
      reads this
    {
      m > 0 && bucket == if step == 0 then hash % m else ProbeAt(hash, m, step - 1)
    }

    constructor (hash: Hash, buckets: nat)
      requires buckets > 0
      ensures this.hash == hash && step == 0 && At(buckets)
    {
      this.hash, bucket, step := hash, hash % buckets, 0;
    }

    /** Probe on until a possible hit, a tombstone or an empty bucket; `stop` is any later probe that
        halts. */
    method Next(meta: MetaMap, ghost stop: nat) returns (r: ProbeResult)
      requires 0 < meta.buckets <= |meta.bitvec| && At(meta.buckets)
      requires step <= stop && StopsAt(meta.bitvec, meta.buckets, hash, stop)
      modifies this
      ensures At(meta.buckets) && old(step) < step <= stop + 1
      ensures StopsAt(meta.bitvec, meta.buckets, hash, step - 1)
      ensures r == ResultAt(meta.bitvec, meta.buckets, hash, step - 1)
      ensures forall k | old(step) <= k < step - 1 :: !StopsAt(meta.bitvec, meta.buckets, hash, k)
    {
      hide ProbeAt;
      var m := meta.buckets;
      while true
        invariant old(step) <= step <= stop && At(m)
        invariant forall k | old(step) <= k < step :: !StopsAt(meta.bitvec, m, hash, k)
        decreases stop - step
      {
        ghost var k := step;
        NextBucket(hash, m, k, bucket);
        bucket := bucket + step;
        step := step + 1;
        bucket := bucket % m;
        if meta.HintEmpty(bucket) { return EmptyBucket(bucket); }
        if meta.HintTombstone(bucket) { return TombstoneBucket(bucket); }
        if meta.HintNotMatch(bucket, hash) { continue; }
        return PossibleHit(bucket);
      }
    }
  }

  lemma NextBucket(hash: Hash, m: nat, step: nat, bucket: nat)
    requires m > 0 && bucket == if step == 0 then hash % m else ProbeAt(hash, m, step - 1)
    ensures (bucket + step) % m == ProbeAt(hash, m, step) < m
  {
    NextProbe(hash, m, if step == 0 then 0 else step - 1);
  }

  // ----- allocation

  /** How many possible hits come before probe `k`. */
  ghost function HitsBefore(bytes: seq<Byte>, m: nat, hash: Hash, k: nat): nat
    requires 0 < m <= |bytes|
  {
    if k == 0 then 0
    else HitsBefore(bytes, m, hash, k - 1) + if HitAt(bytes, m, hash, k - 1) then 1 else 0
  }

  const ATTEMPTS: nat := 10000

  /** The first free probe. */
  ghost predicate FirstFree(bytes: seq<Byte>, m: nat, hash: Hash, k: nat)
    requires 0 < m <= |bytes|
  {
    FreeAt(bytes, m, hash, k) && forall j | 0 <= j < k :: !FreeAt(bytes, m, hash, j)
  }

  ghost predicate Allocates(bytes: seq<Byte>, m: nat, hash: Hash)
    requires 0 < m <= |bytes|
  {
    exists k: nat :: FirstFree(bytes, m, hash, k) && HitsBefore(bytes, m, hash, k) < ATTEMPTS - 1
  }

  lemma {:induction false} NoHits(bytes: seq<Byte>, m: nat, hash: Hash, from: nat, to: nat)
    requires 0 < m <= |bytes| && from <= to && forall k | from <= k < to :: !StopsAt(bytes, m, hash, k)
    ensures HitsBefore(bytes, m, hash, to) == HitsBefore(bytes, m, hash, from)
  {
    hide ProbeAt;
    if from < to { NoHits(bytes, m, hash, from, to - 1); assert !StopsAt(bytes, m, hash, to - 1); }
  }

  lemma {:induction false} HitsGrow(bytes: seq<Byte>, m: nat, hash: Hash, from: nat, to: nat)
    requires 0 < m <= |bytes| && from <= to
    ensures HitsBefore(bytes, m, hash, from) <= HitsBefore(bytes, m, hash, to)
  {
    if from < to { HitsGrow(bytes, m, hash, from, to - 1); }
  }

  lemma LaterStop(bytes: seq<Byte>, m: nat, hash: Hash, from: nat) returns (stop: nat)
    requires 0 < m <= |bytes| && Stops(bytes, m, hash)
    ensures stop >= from && StopsAt(bytes, m, hash, stop)
  {
    var k: nat :| StopsAt(bytes, m, hash, k);
    stop := Later(hash, m, k, from);
  }

  /** Give the page the first free bucket on its probe sequence, and mark it full; give up after a
      limited number of possible hits. */
  method AllocateBucket(hash: Hash, meta: MetaMap) returns (r: Option<nat>)
    requires 0 < meta.buckets <= |meta.bitvec| && Stops(meta.bitvec, meta.buckets, hash)
    modifies meta
    ensures r.None? ==> meta.bitvec == old(meta.bitvec)
    ensures r.Some? ==> r.value < meta.buckets && meta.bitvec == old(meta.bitvec)[r.value := FullEntry(hash)]
    ensures r.Some? ==>
              exists k: nat ::
                FirstFree(old(meta.bitvec), meta.buckets, hash, k) && ProbeAt(hash, meta.buckets, k) == r.value
    ensures r.Some? <==> Allocates(old(meta.bitvec), meta.buckets, hash)
  {
    hide ProbeAt, Stops;
    var m := meta.buckets;
    ghost var bytes := meta.bitvec;
    var probe := new ProbeSequence(hash, m);
    var i := 0;
    while true
      invariant fresh(probe) && probe.At(m) && probe.hash == hash && 0 <= i < ATTEMPTS && meta.bitvec == bytes
      invariant HitsBefore(bytes, m, hash, probe.step) == i
      invariant forall k | 0 <= k < probe.step :: !FreeAt(bytes, m, hash, k)
      decreases ATTEMPTS - i
    {
      i := i + 1;
      if i >= ATTEMPTS {
        GivesUp(bytes, m, hash, probe.step);
        return None;
      }
      ghost var from := probe.step;
      ghost var stop := LaterStop(bytes, m, hash, from);
      var result := probe.Next(meta, stop);
      NoHits(bytes, m, hash, from, probe.step - 1);
      forall k | from <= k < probe.step - 1 ensures !FreeAt(bytes, m, hash, k) { assert !StopsAt(bytes, m, hash, k); }
      if !result.PossibleHit? {
        assert FirstFree(bytes, m, hash, probe.step - 1);
        InTable(hash, m, probe.step - 1);
        meta.SetFull(result.bucket, hash);
        return Some(result.bucket);
      }
    }
  }

  lemma GivesUp(bytes: seq<Byte>, m: nat, hash: Hash, step: nat)
    requires 0 < m <= |bytes| && HitsBefore(bytes, m, hash, step) >= ATTEMPTS - 1
    requires forall k | 0 <= k < step :: !FreeAt(bytes, m, hash, k)
    ensures !Allocates(bytes, m, hash)
  {
    hide ProbeAt;
    forall k: nat | FirstFree(bytes, m, hash, k) ensures HitsBefore(bytes, m, hash, k) >= ATTEMPTS - 1 {
      HitsGrow(bytes, m, hash, step, k);
    }
  }

  // ----- the table

  /** Page `p` is in bucket `b`, and no bucket before it on its probe sequence is empty. */
  ghost predicate Findable(bytes: seq<Byte>, m: nat, hash: Hash, b: nat)
    requires 0 < m <= |bytes|
  {
    exists k: nat :: ProbeAt(hash, m, k) == b && NoneEmpty(bytes, m, hash, k)
  }

  ghost predicate NoneEmpty(bytes: seq<Byte>, m: nat, hash: Hash, k: nat)
    requires 0 < m <= |bytes|
  {
    forall j | 0 <= j < k :: !EmptyAt(bytes, m, hash, j)
  }

  /** The bucket table: which pages are stored where, against meta bytes and page labels. */
  ghost predicate TableOk(bytes: seq<Byte>, m: nat, labels: seq<Label>, hash: Label -> Hash, stored: map<Label, nat>) {
    && 0 < m <= |bytes| && |labels| == m
    && (forall p | p in stored :: HasPage(bytes, m, labels, hash(p), p, stored[p]))
    && (forall b | 0 <= b < m && bytes[b] >= FULL_MASK :: labels[b] in stored && stored[labels[b]] == b)
    && (forall b | m <= b < |bytes| :: bytes[b] == EMPTY)
  }

  ghost predicate HasPage(bytes: seq<Byte>, m: nat, labels: seq<Label>, hash: Hash, p: Label, b: nat)
    requires 0 < m <= |bytes| && |labels| == m
  {
    b < m && bytes[b] == FullEntry(hash) && labels[b] == p && Findable(bytes, m, hash, b)
  }

  lemma StaysFindable(bytes: seq<Byte>, m: nat, hash: Hash, b: nat, at: nat, value: Byte)
    requires 0 < m <= |bytes| && at < |bytes| && value != EMPTY && Findable(bytes, m, hash, b)
    ensures Findable(bytes[at := value], m, hash, b)
  {
    hide ProbeAt;
    var k: nat :| ProbeAt(hash, m, k) == b && NoneEmpty(bytes, m, hash, k);
    var after := bytes[at := value];
    forall j | 0 <= j < k ensures !EmptyAt(after, m, hash, j) {
      assert !EmptyAt(bytes, m, hash, j);
      InTable(hash, m, j);
    }
  }

  lemma InTable(hash: Hash, m: nat, k: nat)
    requires m > 0
    ensures ProbeAt(hash, m, k) < m
  {
  }

  lemma InsertOk(bytes: seq<Byte>, m: nat, labels: seq<Label>, hash: Label -> Hash, stored: map<Label, nat>, p: Label,
                 b: nat, k: nat)
    requires TableOk(bytes, m, labels, hash, stored) && p !in stored && b < m
    requires FirstFree(bytes, m, hash(p), k) && ProbeAt(hash(p), m, k) == b
    ensures TableOk(bytes[b := FullEntry(hash(p))], m, labels[b := p], hash, stored[p := b])
    ensures bytes[b] < FULL_MASK
  {
    hide ProbeAt, Findable;
    var bytes', labels', stored' := bytes[b := FullEntry(hash(p))], labels[b := p], stored[p := b];
    assert bytes[b] < FULL_MASK;
    forall q | q in stored' ensures HasPage(bytes', m, labels', hash(q), q, stored'[q]) {
      if q != p {
        assert HasPage(bytes, m, labels, hash(q), q, stored[q]);
        StaysFindable(bytes, m, hash(q), stored[q], b, FullEntry(hash(p)));
      } else {
        NewFindable(bytes, m, hash(p), b, k);
      }
    }
  }

  lemma NewFindable(bytes: seq<Byte>, m: nat, hash: Hash, b: nat, k: nat)
    requires 0 < m <= |bytes| && FirstFree(bytes, m, hash, k) && ProbeAt(hash, m, k) == b
    ensures Findable(bytes[b := FullEntry(hash)], m, hash, b)
  {
    hide ProbeAt;
    InTable(hash, m, k);
    var after := bytes[b := FullEntry(hash)];
    forall j | 0 <= j < k ensures !EmptyAt(after, m, hash, j) {
      assert !FreeAt(bytes, m, hash, j);
      InTable(hash, m, j);
    }
    assert NoneEmpty(after, m, hash, k);
  }

  lemma RemoveOk(bytes: seq<Byte>, m: nat, labels: seq<Label>, hash: Label -> Hash, stored: map<Label, nat>, p: Label)
    requires TableOk(bytes, m, labels, hash, stored) && p in stored
    ensures stored[p] < m && bytes[stored[p]] >= FULL_MASK
    ensures TableOk(bytes[stored[p] := TOMBSTONE], m, labels, hash, stored - {p})
  {
    hide ProbeAt, Findable;
    var b := stored[p];
    assert HasPage(bytes, m, labels, hash(p), p, b);
    forall q | q in stored - {p} ensures HasPage(bytes[b := TOMBSTONE], m, labels, hash(q), q, stored[q]) {
      assert HasPage(bytes, m, labels, hash(q), q, stored[q]);
      StaysFindable(bytes, m, hash(q), stored[q], b, TOMBSTONE);
    }
  }

  class DB {
    const meta: MetaMap
    const hash: Label -> Hash
    /** The label of the page last written to each bucket. */
    var labels: seq<Label>
    var occupied: int
    ghost var stored: map<Label, nat>

    ghost predicate Valid()
      reads this, meta
    {
      && TableOk(meta.bitvec, meta.buckets, labels, hash, stored)
      && occupied == CountFull(meta.bitvec, |meta.bitvec|)
    }

    constructor (meta: MetaMap, hash: Label -> Hash, labels: seq<Label>, ghost stored: map<Label, nat>)
      requires TableOk(meta.bitvec, meta.buckets, labels, hash, stored)
      ensures Valid() && this.meta == meta && this.hash == hash && this.labels == labels && this.stored == stored
    {
      this.meta, this.hash, this.labels, this.stored := meta, hash, labels, stored;
      var full := meta.FullCount();
      occupied := full;
    }

    /** Store a new page: allocate a bucket and write the labelled page there. */
    method Insert(p: Label) returns (r: Option<nat>)
      requires Valid() && p !in stored && Stops(meta.bitvec, meta.buckets, hash(p))
      modifies this, meta
      ensures Valid() && (r.Some? <==> Allocates(old(meta.bitvec), meta.buckets, hash(p)))
      ensures r.None? ==> stored == old(stored) && meta.bitvec == old(meta.bitvec) && labels == old(labels)
      ensures r.Some? ==> r.value !in old(stored).Values && stored == old(stored)[p := r.value]
    {
      hide ProbeAt, Stops, Allocates;
      ghost var bytes := meta.bitvec;
      r := AllocateBucket(hash(p), meta);
      if r.Some? {
        ghost var k: nat :| FirstFree(bytes, meta.buckets, hash(p), k) && ProbeAt(hash(p), meta.buckets, k) == r.value;
        InsertOk(bytes, meta.buckets, labels, hash, stored, p, r.value, k);
        assert forall q | q in stored :: HasPage(bytes, meta.buckets, labels, hash(q), q, stored[q]);
        CountUpdate(bytes, |bytes|, r.value, FullEntry(hash(p)));
        labels, stored, occupied := labels[r.value := p], stored[p := r.value], occupied + 1;
      }
    }

    /** Clear a stored page: its bucket becomes a tombstone. */
    method Clear(p: Label, bucket: nat)
      requires Valid() && p in stored && stored[p] == bucket
      modifies this, meta
      ensures Valid() && stored == old(stored) - {p} && labels == old(labels)
    {
      hide ProbeAt;
      RemoveOk(meta.bitvec, meta.buckets, labels, hash, stored, p);
      CountUpdate(meta.bitvec, |meta.bitvec|, bucket, TOMBSTONE);
      meta.SetTombstone(bucket);
      stored, occupied := stored - {p}, occupied - 1;
    }

    /** Probe on past tombstones to a bucket that may hold the page, or to an empty one. */
    method Probe(probe: ProbeSequence, p: Label, ghost stop: nat) returns (hit: Option<nat>)
      requires Valid() && probe.At(meta.buckets) && probe.hash == hash(p)
      requires probe.step <= stop && (EmptyAt(meta.bitvec, meta.buckets, hash(p), stop)
                                      || HitAt(meta.bitvec, meta.buckets, hash(p), stop))
      modifies probe
      ensures probe.At(meta.buckets) && old(probe.step) < probe.step <= stop + 1
      ensures hit.Some? ==> hit.value == probe.bucket && HitAt(meta.bitvec, meta.buckets, hash(p), probe.step - 1)
      ensures hit.None? ==> EmptyAt(meta.bitvec, meta.buckets, hash(p), probe.step - 1)
      ensures forall k | old(probe.step) <= k < probe.step - 1 ::
                !EmptyAt(meta.bitvec, meta.buckets, hash(p), k) && !HitAt(meta.bitvec, meta.buckets, hash(p), k)
    {
      hide ProbeAt, TableOk;
      assert 0 < meta.buckets <= |meta.bitvec| by { SizesOk(); }
      while true
        invariant probe.At(meta.buckets) && old(probe.step) <= probe.step <= stop && probe.hash == hash(p)
        invariant forall k | old(probe.step) <= k < probe.step ::
                    !EmptyAt(meta.bitvec, meta.buckets, hash(p), k) && !HitAt(meta.bitvec, meta.buckets, hash(p), k)
        decreases stop - probe.step
      {
        ghost var from := probe.step;
        var result := probe.Next(meta, stop);
        forall k | from <= k < probe.step - 1
          ensures !EmptyAt(meta.bitvec, meta.buckets, hash(p), k) && !HitAt(meta.bitvec, meta.buckets, hash(p), k)
        {
          assert !StopsAt(meta.bitvec, meta.buckets, hash(p), k);
        }
        match result {
          case TombstoneBucket(_) =>
          case EmptyBucket(_) => return None;
          case PossibleHit(bucket) => return Some(bucket);
        }
      }
    }

    lemma SizesOk()
      requires Valid()
      ensures 0 < meta.buckets <= |meta.bitvec| && |labels| == meta.buckets
    {
    }

    /** Load a page: probe, read the page at a possible hit, and go on when the label is another. For a
        page that is not stored, `stop` is any probe that finds an empty bucket. */
    method Load(p: Label, ghost stop: nat) returns (bucket: Option<nat>)
      requires Valid() && (p in stored || EmptyAt(meta.bitvec, meta.buckets, hash(p), stop))
      ensures bucket == if p in stored then Some(stored[p]) else None
    {
      hide ProbeAt;
      var probe := new ProbeSequence(hash(p), meta.buckets);
      ghost var last := stop;
      if p in stored { last := FoundAt(p); }
      while true
        invariant fresh(probe) && probe.At(meta.buckets) && probe.hash == hash(p) && probe.step <= last
        invariant p in stored ==>
                    && ProbeAt(hash(p), meta.buckets, last) == stored[p]
                    && NoneEmpty(meta.bitvec, meta.buckets, hash(p), last)
        decreases last - probe.step
      {
        ghost var m := meta.buckets;
        if p in stored { assert HasPage(meta.bitvec, m, labels, hash(p), p, stored[p]); }
        var hit := Probe(probe, p, last);
        InTable(hash(p), m, probe.step - 1);
        if hit.None? { return None; }
        if labels[hit.value] == p { return hit; }
      }
    }

    lemma FoundAt(p: Label) returns (k: nat)
      requires Valid() && p in stored
      ensures ProbeAt(hash(p), meta.buckets, k) == stored[p] && NoneEmpty(meta.bitvec, meta.buckets, hash(p), k)
    {
      hide ProbeAt;
      assert HasPage(meta.bitvec, meta.buckets, labels, hash(p), p, stored[p]);
      k :| ProbeAt(hash(p), meta.buckets, k) == stored[p] && NoneEmpty(meta.bitvec, meta.buckets, hash(p), k);
    }
  }

  /** With a power of two of buckets, one that is empty ends every search. */
  lemma EmptyEndsSearch(bytes: seq<Byte>, m: nat, hash: Hash, b: nat) returns (stop: nat)
    requires PowerOfTwo(m) && m <= |bytes| && b < m && bytes[b] == EMPTY
    ensures EmptyAt(bytes, m, hash, stop) && Stops(bytes, m, hash)
  {
    hide ProbeAt;
    stop := ComesTo(hash, m, b, 0);
    assert StopsAt(bytes, m, hash, stop);
  }
}
