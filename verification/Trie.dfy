/** Paths, nodes and the canonical compact trie of a key-value map.

    Node hashes are idealised as a free datatype: hashing is injective and the three node kinds
    are told apart. `Sub(m, p)` is the reference for everything the other modules compute. */
module Trie {

  const KEY_BITS: nat := 256

  type Path = seq<bool>

  type Key = k: Path | |k| == KEY_BITS witness seq(KEY_BITS, _ => false)

  /** The 256-bit hash of a value, read as a number. */
  type ValueHash = nat

  datatype LeafData = LeafData(keyPath: Key, valueHash: ValueHash)

  datatype Node = Terminator | Leaf(data: LeafData) | Internal(left: Node, right: Node)

  type State = map<Key, ValueHash>

  // ----- bit strings

  /** The number of leading bits two paths have in common. */
  function SharedBits(a: Path, b: Path): (n: nat)
    ensures n <= |a| && n <= |b| && a[..n] == b[..n]
    ensures n < |a| && n < |b| ==> a[n] != b[n]
  {
    SharedFrom(a, b, 0)
  }

  function SharedFrom(a: Path, b: Path, i: nat): (n: nat)
    requires i <= |a| && i <= |b|
    ensures i <= n <= |a| && n <= |b|
    ensures forall j | i <= j < n :: a[j] == b[j]
    ensures n < |a| && n < |b| ==> a[n] != b[n]
    decreases |a| - i
  {
    if i < |a| && i < |b| && a[i] == b[i] then SharedFrom(a, b, i + 1) else i
  }

  /** Lexicographic order; a proper prefix comes first. */
  predicate Less(a: Path, b: Path) {
    var n := SharedBits(a, b);
    n < |b| && (n == |a| || (!a[n] && b[n]))
  }

  /** The sibling, at depth `layer`, of the node on path `p`. */
  function Sib(p: Path, layer: nat): (s: Path)
    requires 0 < layer <= |p|
    ensures |s| == layer
  {
    p[..layer - 1] + [!p[layer - 1]]
  }

  lemma SharedBitsIs(a: Path, b: Path, n: nat)
    requires n <= |a| && n <= |b| && a[..n] == b[..n]
    ensures SharedBits(a, b) >= n
    ensures n < |a| && n < |b| && a[n] != b[n] ==> SharedBits(a, b) == n
  {
    var s := SharedBits(a, b);
    assert forall i :: 0 <= i < n ==> a[i] == a[..n][i] == b[i];
    assert forall i :: 0 <= i < s ==> a[i] == a[..s][i] == b[i];
  }

  /** In an ascending triple the outer two share exactly what both neighbours share. */
  lemma SharedBitsBetween(a: Path, b: Path, c: Path)
    requires Less(a, b) && Less(b, c)
    ensures Less(a, c)
    ensures SharedBits(a, c) == if SharedBits(a, b) < SharedBits(b, c) then SharedBits(a, b) else SharedBits(b, c)
  {
    var x, y := SharedBits(a, b), SharedBits(b, c);
    var n := if x < y then x else y;
    assert a[..n] == b[..x][..n] == b[..n] == b[..y][..n] == c[..n];
    if x < y {
      assert b[..y][x] == c[..y][x];
    } else if y < x {
      assert a[..x][y] == b[..x][y];
    }
    SharedBitsIs(a, c, n);
    if n == |a| { assert SharedBits(a, c) == n; }
  }

  /** Whether `k` lies below position `p`. */
  predicate Covers(p: Path, k: Path) { p <= k }

  // ----- the canonical trie

  ghost predicate Empty(m: State, p: Path) {
    forall k | k in m :: !(Covers(p, k))
  }

  ghost predicate Only(m: State, p: Path, k: Key) {
    k in m && Covers(p, k) && forall k' | k' in m && Covers(p, k') :: k' == k
  }

  ghost predicate AgreeUnder(m: State, m': State, p: Path) {
    forall k: Key | Covers(p, k) :: (k in m <==> k in m') && (k in m ==> m[k] == m'[k])
  }

  /** The canonical sub-trie of `m` at position `p`: a terminator when no key lies below, the
      leaf when one does, and otherwise the node over both halves. */
  ghost function Sub(m: State, p: Path): Node
    requires |p| <= KEY_BITS
    decreases KEY_BITS - |p|
  {
    if Empty(m, p) then Terminator
    else if exists k :: Only(m, p, k) then
      var k :| Only(m, p, k);
      Leaf(LeafData(k, m[k]))
    else
      assert |p| < KEY_BITS by { if |p| == KEY_BITS { FullPathIsKey(m, p); } }
      Internal(Sub(m, p + [false]), Sub(m, p + [true]))
  }

  lemma FullPathIsKey(m: State, p: Path)
    requires |p| == KEY_BITS && !Empty(m, p)
    ensures exists k :: Only(m, p, k)
  {
    var k :| k in m && Covers(p, k);
    assert Only(m, p, k);
  }

  ghost function Root(m: State): Node { Sub(m, []) }

  /** What the node kind says about the keys below. */
  lemma SubKind(m: State, p: Path)
    requires |p| <= KEY_BITS
    ensures Sub(m, p) == Terminator <==> Empty(m, p)
    ensures forall d :: Sub(m, p) == Leaf(d) <==> Only(m, p, d.keyPath) && m[d.keyPath] == d.valueHash
    ensures Sub(m, p).Internal? ==> |p| < KEY_BITS
                                    && Sub(m, p) == Internal(Sub(m, p + [false]), Sub(m, p + [true]))
  {
    if !Empty(m, p) && |p| == KEY_BITS { FullPathIsKey(m, p); }
  }

  /** Two different keys below make the node internal. */
  lemma SubInternal(m: State, p: Path, k: Key, k': Key)
    requires |p| <= KEY_BITS && k in m && k' in m && k != k' && Covers(p, k) && p <= k'
    ensures |p| < KEY_BITS && Sub(m, p) == Internal(Sub(m, p + [false]), Sub(m, p + [true]))
  {
    assert |p| == KEY_BITS ==> k == p && k' == p;
  }

  lemma {:induction false} SubFrame(m: State, m': State, p: Path)
    requires |p| <= KEY_BITS && AgreeUnder(m, m', p)
    ensures Sub(m, p) == Sub(m', p)
    decreases KEY_BITS - |p|
  {
    assert Empty(m, p) == Empty(m', p);
    assert forall k: Key :: Only(m, p, k) == Only(m', p, k);
    if Sub(m, p).Internal? {
      SubKind(m, p);
      SubFrame(m, m', p + [false]);
      SubFrame(m, m', p + [true]);
    }
  }

  /** One level of compaction: two empty halves vanish, a lone leaf moves up. */
  function Combine(l: Node, r: Node): Node {
    if l.Terminator? && !r.Internal? then r
    else if r.Terminator? && !l.Internal? then l
    else Internal(l, r)
  }

  lemma CoversSplits(p: Path, k: Key)
    requires |p| < KEY_BITS
    ensures Covers(p + [false], k) <==> Covers(p, k) && !k[|p|]
    ensures Covers(p + [true], k) <==> Covers(p, k) && k[|p|]
  {
    if Covers(p, k) { assert k[..|p| + 1] == p + [k[|p|]]; }
    if Covers(p + [false], k) { assert k[..|p|] == k[..|p| + 1][..|p|] == p; }
    if Covers(p + [true], k) { assert k[..|p|] == k[..|p| + 1][..|p|] == p; }
  }

  /** The trie is the level-by-level compaction of itself. */
  lemma SubStep(m: State, p: Path)
    requires |p| < KEY_BITS
    ensures Sub(m, p) == Combine(Sub(m, p + [false]), Sub(m, p + [true]))
  {
    var l, r := p + [false], p + [true];
    forall k | k in m
      ensures Covers(l, k) <==> Covers(p, k) && !k[|p|]
      ensures Covers(r, k) <==> Covers(p, k) && k[|p|]
    {
      CoversSplits(p, k);
    }
    SubKind(m, p); SubKind(m, l); SubKind(m, r);
    if Empty(m, l) {
      assert forall k: Key :: Only(m, p, k) == Only(m, r, k);
    } else if Empty(m, r) {
      assert forall k: Key :: Only(m, p, k) == Only(m, l, k);
    } else {
      var k :| k in m && Covers(l, k);
      var k' :| k' in m && Covers(r, k');
      SubInternal(m, p, k, k');
    }
  }
}
