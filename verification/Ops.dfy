/** Batches of writes and deletions, and splicing a prior leaf into such a batch. */
module Ops {
  import opened Wrappers
  import opened Trie
  import opened Update

  /** A write (`Some`) or a deletion (`None`) of a key. */
  type KeyOp = (Key, Option<ValueHash>)

  ghost predicate OpBefore(ops: seq<KeyOp>, i: nat, j: nat)
    requires i < |ops| && j < |ops|
  {
    Less(ops[i].0, ops[j].0)
  }

  ghost predicate OpsAscending(ops: seq<KeyOp>) {
    forall i, j | 0 <= i < j < |ops| :: OpBefore(ops, i, j)
  }

  ghost predicate OpsUnder(ops: seq<KeyOp>, p: Path) {
    forall i | 0 <= i < |ops| :: Covers(p, ops[i].0)
  }

  function ApplyOp(m: State, op: KeyOp): State {
    if op.1.Some? then m[op.0 := op.1.value] else m - {op.0}
  }

  /** The map after the operations, in order. */
  function ApplyOps(m: State, ops: seq<KeyOp>): State {
    if ops == [] then m else ApplyOp(ApplyOps(m, ops[..|ops| - 1]), ops[|ops| - 1])
  }

  lemma {:induction false} ApplyConcat(m: State, a: seq<KeyOp>, b: seq<KeyOp>)
    ensures ApplyOps(m, a + b) == ApplyOps(ApplyOps(m, a), b)
  {
    if b == [] {
      assert a + b == a;
    } else {
      assert (a + b)[..|a + b| - 1] == a + b[..|b| - 1];
      ApplyConcat(m, a, b[..|b| - 1]);
    }
  }

  lemma {:induction false} ApplyAgree(m: State, m': State, ops: seq<KeyOp>, p: Path)
    requires AgreeUnder(m, m', p)
    ensures AgreeUnder(ApplyOps(m, ops), ApplyOps(m', ops), p)
  {
    if ops != [] { ApplyAgree(m, m', ops[..|ops| - 1], p); }
  }

  /** Operations below `p` leave the rest of the map alone. */
  lemma {:induction false} ApplyElsewhere(m: State, ops: seq<KeyOp>, p: Path, k: Key)
    requires OpsUnder(ops, p) && !Covers(p, k)
    ensures k in ApplyOps(m, ops) <==> k in m
    ensures k in m ==> ApplyOps(m, ops)[k] == m[k]
  {
    if ops != [] {
      assert Covers(p, ops[|ops| - 1].0);
      ApplyElsewhere(m, ops[..|ops| - 1], p, k);
    }
  }

  lemma {:induction false} ApplyCommutes(m: State, x: KeyOp, ops: seq<KeyOp>)
    requires forall i | 0 <= i < |ops| :: ops[i].0 != x.0
    ensures ApplyOps(ApplyOp(m, x), ops) == ApplyOp(ApplyOps(m, ops), x)
  {
    if ops != [] {
      ApplyCommutes(m, x, ops[..|ops| - 1]);
      var before, last := ApplyOps(m, ops[..|ops| - 1]), ops[|ops| - 1];
      assert ApplyOp(ApplyOp(before, x), last) == ApplyOp(ApplyOp(before, last), x);
    }
  }

  /** The index of the first operation whose key is not below `key`. */
  function InsertionPoint(ops: seq<KeyOp>, key: Key): (at: nat)
    ensures at <= |ops|
    ensures forall j | 0 <= j < at :: Less(ops[j].0, key)
    ensures at < |ops| ==> !Less(ops[at].0, key)
  {
    if ops == [] || !Less(ops[0].0, key) then 0 else 1 + InsertionPoint(ops[1..], key)
  }

  /** The operations with the leaf's value spliced in where its key belongs, unless that key is
      among them. */
  function Spliced(leaf: Option<LeafData>, ops: seq<KeyOp>): seq<KeyOp> {
    if leaf.None? then ops
    else
      var at := InsertionPoint(ops, leaf.value.keyPath);
      if at < |ops| && ops[at].0 == leaf.value.keyPath then ops
      else ops[..at] + [(leaf.value.keyPath, Some(leaf.value.valueHash))] + ops[at..]
  }

  function Puts(ops: seq<KeyOp>): seq<Op> {
    if ops == [] then []
    else
      var rest, last := Puts(ops[..|ops| - 1]), ops[|ops| - 1];
      if last.1.Some? then rest + [(last.0, last.1.value)] else rest
  }

  function LeafOpsSpliced(leaf: Option<LeafData>, ops: seq<KeyOp>): seq<Op> {
    Puts(Spliced(leaf, ops))
  }

  ghost function LeafMap(leaf: Option<LeafData>): State {
    if leaf.Some? then map[leaf.value.keyPath := leaf.value.valueHash] else map[]
  }

  lemma LessOrEqual(a: Key, b: Key)
    ensures Less(a, b) || a == b || Less(b, a)
    ensures Less(a, b) ==> a != b
  {
    var n := SharedBits(a, b);
    SharedBitsIs(b, a, n);
    assert n == KEY_BITS ==> a == a[..n] == b[..n] == b;
  }

  lemma SplicedAscending(leaf: Option<LeafData>, ops: seq<KeyOp>)
    requires OpsAscending(ops)
    ensures OpsAscending(Spliced(leaf, ops))
  {
    var s := Spliced(leaf, ops);
    if s != ops {
      var key := leaf.value.keyPath;
      var at := InsertionPoint(ops, key);
      forall i, j | 0 <= i < j < |s| ensures OpBefore(s, i, j) {
        if i != at && j != at {
          assert OpBefore(ops, if i < at then i else i - 1, if j < at then j else j - 1);
        } else if i == at {
          LessOrEqual(ops[at].0, key);
          if at < j - 1 {
            assert OpBefore(ops, at, j - 1);
            SharedBitsBetween(key, ops[at].0, ops[j - 1].0);
          }
        }
      }
    }
  }

  lemma {:induction false} PutsFrom(ops: seq<KeyOp>, i: nat) returns (j: nat)
    requires i < |Puts(ops)|
    ensures j < |ops| && ops[j].0 == Puts(ops)[i].0
  {
    j := |ops| - 1;
    if i < |Puts(ops[..j])| { j := PutsFrom(ops[..j], i); }
  }

  lemma InitAscending(ops: seq<KeyOp>)
    requires OpsAscending(ops) && ops != []
    ensures OpsAscending(ops[..|ops| - 1])
  {
    var init := ops[..|ops| - 1];
    forall i, j | 0 <= i < j < |init| ensures OpBefore(init, i, j) { assert OpBefore(ops, i, j); }
  }

  lemma PutsBelow(ops: seq<KeyOp>, k: Key)
    requires forall j | 0 <= j < |ops| :: Less(ops[j].0, k)
    ensures forall i | 0 <= i < |Puts(ops)| :: Less(Puts(ops)[i].0, k)
    ensures k !in MapOf(Puts(ops))
  {
    forall i | 0 <= i < |Puts(ops)| ensures Less(Puts(ops)[i].0, k) {
      var j := PutsFrom(ops, i);
    }
    if k in MapOf(Puts(ops)) {
      var i := MapOfIndex(Puts(ops), k);
      LessOrEqual(k, k);
    }
  }

  lemma AscendingSnoc(ops: seq<Op>, op: Op)
    requires Ascending(ops) && forall i | 0 <= i < |ops| :: Less(ops[i].0, op.0)
    ensures Ascending(ops + [op]) && MapOf(ops + [op]) == MapOf(ops)[op.0 := op.1]
  {
    var s := ops + [op];
    assert s[..|ops|] == ops;
    forall i, j | 0 <= i < j < |s| ensures Before(s, i, j) {
      if j < |ops| { assert Before(ops, i, j); }
    }
  }

  /** Filtering out the deletions of an ascending list keeps its effect on the empty map. */
  lemma {:induction false} PutsMap(ops: seq<KeyOp>)
    requires OpsAscending(ops)
    ensures Ascending(Puts(ops)) && MapOf(Puts(ops)) == ApplyOps(map[], ops)
  {
    if ops != [] {
      var n := |ops| - 1;
      var init, last := ops[..n], ops[n];
      InitAscending(ops);
      PutsMap(init);
      forall j | 0 <= j < n ensures Less(init[j].0, last.0) { assert OpBefore(ops, j, n); }
      PutsBelow(init, last.0);
      if last.1.Some? { AscendingSnoc(Puts(init), (last.0, last.1.value)); }
    }
  }

  /** The spliced list is sorted, and is exactly the leaf with the operations applied to it. */
  lemma SplicedEffect(leaf: Option<LeafData>, ops: seq<KeyOp>)
    requires OpsAscending(ops)
    ensures Ascending(LeafOpsSpliced(leaf, ops))
    ensures MapOf(LeafOpsSpliced(leaf, ops)) == ApplyOps(LeafMap(leaf), ops)
  {
    SplicedAscending(leaf, ops);
    PutsMap(Spliced(leaf, ops));
    if leaf.Some? { SplicedMap(leaf.value, ops); }
  }

  lemma SplicedMap(leaf: LeafData, ops: seq<KeyOp>)
    requires OpsAscending(ops)
    ensures ApplyOps(map[], Spliced(Some(leaf), ops)) == ApplyOps(LeafMap(Some(leaf)), ops)
  {
    var key := leaf.keyPath;
    var at := InsertionPoint(ops, key);
    var a, x, b := ops[..at], (key, Some(leaf.valueHash)), ops[at..];
    forall i | 0 <= i < |a| ensures a[i].0 != key { LessOrEqual(a[i].0, key); }
    assert ops == a + b;
    assert LeafMap(Some(leaf)) == ApplyOp(map[], x);
    if at < |ops| && ops[at].0 == key {
      ApplyMasked(map[], a, x, b);
    } else {
      ApplyMoved(map[], a, x, b);
    }
  }

  lemma ApplyOnce(m: State, op: KeyOp)
    ensures ApplyOps(m, [op]) == ApplyOp(m, op)
  {
    assert [op][..0] == [];
    assert ApplyOps(m, []) == m;
  }

  lemma ApplyMoved(m: State, a: seq<KeyOp>, x: KeyOp, b: seq<KeyOp>)
    requires forall i | 0 <= i < |a| :: a[i].0 != x.0
    ensures ApplyOps(m, a + [x] + b) == ApplyOps(ApplyOp(m, x), a + b)
  {
    ApplyConcat(m, a + [x], b);
    ApplyConcat(m, a, [x]);
    ApplyOnce(ApplyOps(m, a), x);
    ApplyCommutes(m, x, a);
    ApplyConcat(ApplyOp(m, x), a, b);
  }

  lemma ApplyMasked(m: State, a: seq<KeyOp>, x: KeyOp, b: seq<KeyOp>)
    requires forall i | 0 <= i < |a| :: a[i].0 != x.0
    requires b != [] && b[0].0 == x.0
    ensures ApplyOps(m, a + b) == ApplyOps(ApplyOp(m, x), a + b)
  {
    ApplyConcat(m, a, b);
    ApplyConcat(ApplyOp(m, x), a, b);
    ApplyCommutes(m, x, a);
    ApplyOverwritten(ApplyOps(m, a), x, b);
  }

  lemma {:induction false} ApplyOverwritten(m: State, x: KeyOp, b: seq<KeyOp>)
    requires b != [] && b[0].0 == x.0
    ensures ApplyOps(ApplyOp(m, x), b) == ApplyOps(m, b)
  {
    if |b| == 1 {
      ApplyOnce(m, b[0]);
      ApplyOnce(ApplyOp(m, x), b[0]);
      assert b == [b[0]];
    } else {
      ApplyOverwritten(m, x, b[..|b| - 1]);
    }
  }

  /** Splicing keeps everything below the position of the leaf. */
  lemma SplicedUnder(leaf: Option<LeafData>, ops: seq<KeyOp>, p: Path)
    requires OpsUnder(ops, p) && (leaf.Some? ==> Covers(p, leaf.value.keyPath))
    ensures forall op | op in LeafOpsSpliced(leaf, ops) :: Covers(p, op.0)
  {
    var spliced := Spliced(leaf, ops);
    assert OpsUnder(spliced, p) by {
      if spliced != ops {
        var at := InsertionPoint(ops, leaf.value.keyPath);
        assert forall i | 0 <= i < |spliced| ::
            spliced[i].0 == if i < at then ops[i].0 else if i == at then leaf.value.keyPath else ops[i - 1].0;
      }
    }
    forall i | 0 <= i < |Puts(spliced)| ensures Covers(p, Puts(spliced)[i].0) {
      var j := PutsFrom(spliced, i);
    }
  }
}
