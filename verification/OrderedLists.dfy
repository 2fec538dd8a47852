/** Ascending lists of keyed items: searching, cutting and overriding. */
module OrderedLists {
  import opened Wrappers

  type Key = nat

  ghost predicate Above<V>(l: seq<(Key, V)>, k: Key) {
    forall i | 0 <= i < |l| :: k < l[i].0
  }

  ghost predicate NotBelow<V>(l: seq<(Key, V)>, k: Key) {
    forall i | 0 <= i < |l| :: k <= l[i].0
  }

  ghost predicate AllUnder<V>(l: seq<(Key, V)>, k: Key) {
    forall i | 0 <= i < |l| :: l[i].0 < k
  }

  ghost predicate Ascending<V>(l: seq<(Key, V)>) {
    l == [] || (Above(l[1..], l[0].0) && Ascending(l[1..]))
  }

  /** What the list says about a key. */
  ghost function Find<V>(l: seq<(Key, V)>, k: Key): Option<V> {
    if l == [] then None else if l[0].0 == k then Some(l[0].1) else Find(l[1..], k)
  }

  lemma {:induction false} FindAbsent<V>(l: seq<(Key, V)>, k: Key)
    requires forall i | 0 <= i < |l| :: l[i].0 != k
    ensures Find(l, k) == None
  {
    if l != [] { FindAbsent(l[1..], k); }
  }

  lemma {:induction false} FindConcat<V>(a: seq<(Key, V)>, b: seq<(Key, V)>, k: Key)
    ensures Find(a + b, k) == if Find(a, k).Some? then Find(a, k) else Find(b, k)
  {
    if a == [] {
      assert a + b == b;
    } else {
      assert (a + b)[1..] == a[1..] + b;
      FindConcat(a[1..], b, k);
    }
  }

  lemma {:induction false} FindMember<V>(l: seq<(Key, V)>, k: Key)
    ensures Find(l, k).Some? ==> exists i | 0 <= i < |l| :: l[i].0 == k
  {
    if l != [] && l[0].0 != k {
      FindMember(l[1..], k);
      if Find(l, k).Some? {
        var i :| 0 <= i < |l[1..]| && l[1..][i].0 == k;
        assert l[i + 1].0 == k;
      }
    }
  }

  // ----- cutting

  /** The items below the end key, if there is one. */
  function CutEnd<V>(l: seq<(Key, V)>, end: Option<Key>): seq<(Key, V)> {
    if l == [] then []
    else if end.None? || l[0].0 < end.value then [l[0]] + CutEnd(l[1..], end)
    else CutEnd(l[1..], end)
  }

  function CutStart<V>(l: seq<(Key, V)>, start: Key): seq<(Key, V)> {
    if l == [] then []
    else if start <= l[0].0 then [l[0]] + CutStart(l[1..], start)
    else CutStart(l[1..], start)
  }

  lemma {:induction false} CutEndConcat<V>(a: seq<(Key, V)>, b: seq<(Key, V)>, end: Option<Key>)
    ensures CutEnd(a + b, end) == CutEnd(a, end) + CutEnd(b, end)
  {
    if a == [] {
      assert a + b == b;
    } else {
      assert (a + b)[1..] == a[1..] + b;
      CutEndConcat(a[1..], b, end);
    }
  }

  lemma {:induction false} CutStartConcat<V>(a: seq<(Key, V)>, b: seq<(Key, V)>, start: Key)
    ensures CutStart(a + b, start) == CutStart(a, start) + CutStart(b, start)
  {
    if a == [] {
      assert a + b == b;
    } else {
      assert (a + b)[1..] == a[1..] + b;
      CutStartConcat(a[1..], b, start);
    }
  }

  lemma {:induction false} CutStartAll<V>(l: seq<(Key, V)>, start: Key)
    ensures NotBelow(l, start) ==> CutStart(l, start) == l
    ensures AllUnder(l, start) ==> CutStart(l, start) == []
  {
    if l != [] { CutStartAll(l[1..], start); }
  }

  lemma {:induction false} CutEndNone<V>(l: seq<(Key, V)>, end: Option<Key>)
    requires end.Some? && NotBelow(l, end.value)
    ensures CutEnd(l, end) == []
  {
    if l != [] { CutEndNone(l[1..], end); }
  }

  lemma {:induction false} CutKeeps<V>(l: seq<(Key, V)>, start: Key, end: Option<Key>)
    ensures forall k: Key :: Above(l, k) ==> Above(CutEnd(l, end), k) && Above(CutStart(l, start), k)
    ensures forall k: Key :: NotBelow(l, k) ==> NotBelow(CutEnd(l, end), k)
    ensures Ascending(l) ==> Ascending(CutEnd(l, end)) && Ascending(CutStart(l, start))
    ensures NotBelow(CutStart(l, start), start)
    ensures end.Some? ==> AllUnder(CutEnd(l, end), end.value)
  {
    if l != [] {
      CutKeeps(l[1..], start, end);
      forall k: Key | Above(l, k)
        ensures Above(l[1..], k)
      {
        assert forall i | 0 <= i < |l[1..]| :: l[1..][i] == l[i + 1];
      }
      forall k: Key | NotBelow(l, k)
        ensures NotBelow(l[1..], k)
      {
        assert forall i | 0 <= i < |l[1..]| :: l[1..][i] == l[i + 1];
      }
    }
  }

  lemma {:induction false} FindCutEnd<V>(l: seq<(Key, V)>, end: Option<Key>, k: Key)
    ensures Find(CutEnd(l, end), k) == if end.None? || k < end.value then Find(l, k) else None
  {
    if l != [] { FindCutEnd(l[1..], end, k); }
  }

  lemma {:induction false} FindCutStart<V>(l: seq<(Key, V)>, start: Key, k: Key)
    ensures Find(CutStart(l, start), k) == if start <= k then Find(l, k) else None
  {
    if l != [] { FindCutStart(l[1..], start, k); }
  }

  // ----- overriding

  datatype Change<V> = Delete | Put(value: V)

  /** Two lists of changes merged; on equal keys the first one's stays. */
  ghost function MergeChanges<V>(p: seq<(Key, Change<V>)>, s: seq<(Key, Change<V>)>): seq<(Key, Change<V>)> {
    if p == [] then s
    else if s == [] then p
    else if p[0].0 < s[0].0 then [p[0]] + MergeChanges(p[1..], s)
    else if p[0].0 == s[0].0 then [p[0]] + MergeChanges(p[1..], s[1..])
    else [s[0]] + MergeChanges(p, s[1..])
  }

  ghost function WithPut<V>(c: (Key, Change<V>), rest: seq<(Key, V)>): seq<(Key, V)> {
    if c.1.Put? then [(c.0, c.1.value)] + rest else rest
  }

  /** A list of items with changes merged in, deleted items left out. */
  ghost function Merge<V>(l: seq<(Key, V)>, m: seq<(Key, Change<V>)>): seq<(Key, V)> {
    if m == [] then l
    else if l == [] || m[0].0 < l[0].0 then
      WithPut(m[0], Merge(l, m[1..]))
    else if m[0].0 == l[0].0 then
      WithPut(m[0], Merge(l[1..], m[1..]))
    else [l[0]] + Merge(l[1..], m)
  }

  lemma AboveTail<V>(l: seq<(Key, V)>, k: Key)
    requires l != []
    ensures Above(l, k) <==> k < l[0].0 && Above(l[1..], k)
  {
    assert forall i | 0 < i < |l| :: l[i] == l[1..][i - 1];
  }

  lemma AboveWeaker<V>(l: seq<(Key, V)>, j: Key, k: Key)
    requires Above(l, k) && j <= k
    ensures Above(l, j)
  {
  }

  lemma {:induction false} AboveAbsent<V>(l: seq<(Key, V)>, k: Key)
    requires Above(l, k)
    ensures Find(l, k) == None
  {
    FindAbsent(l, k);
  }

  /** Merged changes ascend, and say what the first list says, or else the second. */
  lemma {:induction false} MergeChangesIs<V>(p: seq<(Key, Change<V>)>, s: seq<(Key, Change<V>)>)
    requires Ascending(p) && Ascending(s)
    ensures Ascending(MergeChanges(p, s))
    ensures forall k: Key :: Above(p, k) && Above(s, k) ==> Above(MergeChanges(p, s), k)
  {
    if p != [] && s != [] {
      if p[0].0 < s[0].0 {
        MergeChangesIs(p[1..], s);
        AboveTail(s, p[0].0);
        AboveWeaker(s[1..], p[0].0, s[0].0);
      } else if p[0].0 == s[0].0 {
        MergeChangesIs(p[1..], s[1..]);
      } else {
        MergeChangesIs(p, s[1..]);
        AboveTail(p, s[0].0);
        AboveWeaker(p[1..], s[0].0, p[0].0);
      }
      forall k: Key | Above(p, k) && Above(s, k) ensures Above(MergeChanges(p, s), k) {
        AboveTail(p, k); AboveTail(s, k); AboveTail(MergeChanges(p, s), k);
      }
    }
  }

  lemma {:induction false} MergeChangesFind<V>(p: seq<(Key, Change<V>)>, s: seq<(Key, Change<V>)>, k: Key)
    requires Ascending(p) && Ascending(s)
    ensures Find(MergeChanges(p, s), k) == if Find(p, k).Some? then Find(p, k) else Find(s, k)
  {
    if p == [] {
    } else if s == [] {
      assert Find(s, k) == None;
      if Find(p, k).None? { assert Find(MergeChanges(p, s), k) == Find(p, k); }
    } else if p[0].0 < s[0].0 {
      MergeChangesFind(p[1..], s, k);
    } else if p[0].0 == s[0].0 {
      MergeChangesFind(p[1..], s[1..], k);
    } else {
      MergeChangesFind(p, s[1..], k);
      if k == s[0].0 {
        AboveTail(p, k);
        AboveWeaker(p[1..], k, p[0].0);
        AboveAbsent(p, k);
      }
    }
  }

  ghost function Overridden<V>(old': Option<V>, change: Option<Change<V>>): Option<V> {
    if change.None? then old' else if change.value.Put? then Some(change.value.value) else None
  }

  lemma {:induction false} MergeIs<V>(l: seq<(Key, V)>, m: seq<(Key, Change<V>)>)
    requires Ascending(l) && Ascending(m)
    ensures Ascending(Merge(l, m))
    ensures forall k: Key :: Above(l, k) && Above(m, k) ==> Above(Merge(l, m), k)
  {
    if m != [] {
      if l == [] || m[0].0 < l[0].0 {
        MergeIs(l, m[1..]);
        if l != [] { AboveTail(l, m[0].0); AboveWeaker(l[1..], m[0].0, l[0].0); }
      } else if m[0].0 == l[0].0 {
        MergeIs(l[1..], m[1..]);
      } else {
        MergeIs(l[1..], m);
        AboveTail(m, l[0].0);
        AboveWeaker(m[1..], l[0].0, m[0].0);
      }
      forall k: Key | Above(l, k) && Above(m, k) ensures Above(Merge(l, m), k) {
        AboveTail(m, k);
        if l != [] { AboveTail(l, k); }
        if Merge(l, m) != [] { AboveTail(Merge(l, m), k); }
      }
    }
  }

  /** The merge is exactly the list overridden by the changes. */
  lemma {:induction false} MergeFind<V>(l: seq<(Key, V)>, m: seq<(Key, Change<V>)>, k: Key)
    requires Ascending(l) && Ascending(m)
    ensures Find(Merge(l, m), k) == Overridden(Find(l, k), Find(m, k))
  {
    if m != [] {
      if l == [] || m[0].0 < l[0].0 {
        MergeFind(l, m[1..], k);
        if k == m[0].0 {
          AboveAbsent(m[1..], k);
          if l != [] { AboveTail(l, k); AboveWeaker(l[1..], k, l[0].0); AboveAbsent(l, k); }
        }
      } else if m[0].0 == l[0].0 {
        MergeFind(l[1..], m[1..], k);
        if k == m[0].0 { AboveAbsent(m[1..], k); AboveAbsent(l[1..], k); }
      } else {
        MergeFind(l[1..], m, k);
        if k == l[0].0 { AboveTail(m, k); AboveWeaker(m[1..], k, m[0].0); AboveAbsent(m, k); }
      }
    }
  }
}
