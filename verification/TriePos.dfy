/** Positions in the paged trie: which page a node lives in and at which index, kept incrementally by a
    moving cursor. */
module TriePos {
  import opened Wrappers
  import opened Trie

  const DEPTH: nat := 6
  const NODES_PER_PAGE: nat := 126

  /** A page ID: the list of child indices, six bits each, on the way from the root page. */
  type ChildIndex = x: nat | x < 64
  type PageId = seq<ChildIndex>

  // ----- numbers from bits

  function Pow2(n: nat): (r: nat)
    ensures r >= 1
  {
    if n == 0 then 1 else 2 * Pow2(n - 1)
  }

  /** A bit string read as a number, most significant bit first. */
  function AsUint(bits: Path): (r: nat)
    ensures r < Pow2(|bits|)
  {
    if bits == [] then 0
    else 2 * AsUint(bits[..|bits| - 1]) + if bits[|bits| - 1] then 1 else 0
  }

  lemma AsUintSnoc(bits: Path, bit: bool)
    ensures AsUint(bits + [bit]) == 2 * AsUint(bits) + if bit then 1 else 0
  {
    assert (bits + [bit])[..|bits|] == bits;
  }

  lemma {:induction false} AsUintInjective(a: Path, b: Path)
    requires |a| == |b| && AsUint(a) == AsUint(b)
    ensures a == b
  {
    if a != [] {
      var n := |a| - 1;
      AsUintInjective(a[..n], b[..n]);
      assert a == a[..n] + [a[n]] && b == b[..n] + [b[n]];
    }
  }

  // ----- positions

  /** The start of the part of a non-empty path that lies in its last page. */
  function PageStart(depth: nat): nat
    requires depth > 0
  {
    ((depth - 1) / DEPTH) * DEPTH
  }

  function DepthInPage(depth: nat): nat {
    if depth == 0 then 0 else depth - PageStart(depth)
  }

  function LastPagePath(path: Path): Path
    requires path != []
  {
    path[PageStart(|path|)..]
  }

  /** The index in a page of the node at the given path below the page. */
  function NodeIndex(pagePath: Path): nat {
    var depth := if |pagePath| < DEPTH then |pagePath| else DEPTH;
    if depth == 0 then 0 else Pow2(depth) - 2 + AsUint(pagePath[..depth])
  }

  /** The index of a position in its page, recomputed from the path. */
  function IndexOf(path: Path): nat
    requires path != []
  {
    NodeIndex(LastPagePath(path))
  }

  /** The page a position lands in: its complete earlier sextets. */
  function PageOf(path: Path): (id: PageId)
    requires path != []
    ensures |id| == (|path| - 1) / DEPTH && forall i | 0 <= i < |id| :: id[i] == Sextet(path, i)
  {
    seq((|path| - 1) / DEPTH, i requires 0 <= i < (|path| - 1) / DEPTH => Sextet(path, i))
  }

  function Sextet(path: Path, i: nat): ChildIndex
    requires DEPTH * (i + 1) <= |path|
  {
    assert Pow2(6) == 64 by { assert Pow2(3) == 8; assert Pow2(4) == 16; assert Pow2(5) == 32; }
    AsUint(path[DEPTH * i..DEPTH * (i + 1)])
  }

  function SiblingIndex(index: nat): nat {
    if index % 2 == 0 then index + 1 else index - 1
  }

  function ParentIndex(index: nat): nat
    requires index >= 2
  {
    (index - 2) / 2
  }

  /** Stepping down multiplies out the index; a fresh page starts over. */
  lemma IndexDown(path: Path, bit: bool)
    ensures |path| % DEPTH == 0 ==> IndexOf(path + [bit]) == if bit then 1 else 0
    ensures |path| % DEPTH != 0 ==> IndexOf(path + [bit]) == 2 * IndexOf(path) + 2 + if bit then 1 else 0
  {
    var p := path + [bit];
    if |path| % DEPTH == 0 {
      assert PageStart(|p|) == |path|;
      assert LastPagePath(p) == [bit] && [bit][..1] == [bit] && [bit][..0] == [];
      assert Pow2(1) == 2;
    } else {
      assert PageStart(|p|) == PageStart(|path|);
      var last := LastPagePath(path);
      assert LastPagePath(p) == last + [bit];
      assert last[..|last|] == last && (last + [bit])[..|last| + 1] == last + [bit];
      AsUintSnoc(last, bit);
    }
  }

  lemma IndexSibling(path: Path)
    requires path != []
    ensures IndexOf(Sib(path, |path|)) == SiblingIndex(IndexOf(path))
  {
    var parent, bit := path[..|path| - 1], path[|path| - 1];
    assert path == parent + [bit] && Sib(path, |path|) == parent + [!bit];
    IndexDown(parent, bit);
    IndexDown(parent, !bit);
    hide IndexOf;
    if |parent| % DEPTH != 0 { SiblingOfDown(IndexOf(parent), bit); }
  }

  lemma SiblingOfDown(index: nat, bit: bool)
    ensures SiblingIndex(2 * index + 2 + if bit then 1 else 0) == 2 * index + 2 + if !bit then 1 else 0
  {
  }

  lemma {:induction false} IndexRange(path: Path)
    requires path != []
    ensures IndexOf(path) < NODES_PER_PAGE
    ensures Pow2(DepthInPage(|path|)) - 2 <= IndexOf(path) < 2 * Pow2(DepthInPage(|path|)) - 2
    ensures 1 <= DepthInPage(|path|) <= DEPTH
  {
    var last := LastPagePath(path);
    assert last[..|last|] == last;
    assert Pow2(1) == 2 && Pow2(2) == 4 && Pow2(3) == 8 && Pow2(4) == 16 && Pow2(5) == 32 && Pow2(6) == 64;
  }

  /** The first layer of a page is its first two indices. */
  lemma FirstLayer(path: Path)
    requires path != []
    ensures IndexOf(path) < 2 <==> DepthInPage(|path|) == 1
  {
    IndexRange(path);
    assert Pow2(1) == 2 && Pow2(2) == 4 && Pow2(3) == 8 && Pow2(4) == 16 && Pow2(5) == 32 && Pow2(6) == 64;
  }

  lemma {:induction false} Pow2Monotone(a: nat, b: nat)
    requires a < b
    ensures 2 * Pow2(a) <= Pow2(b)
  {
    if a + 1 < b { Pow2Monotone(a, b - 1); }
  }

  /** Page and index together determine the position. */
  lemma SlotInjective(a: Path, b: Path)
    requires a != [] && b != [] && PageOf(a) == PageOf(b) && IndexOf(a) == IndexOf(b)
    ensures a == b
  {
    IndexRange(a);
    IndexRange(b);
    var d, e := DepthInPage(|a|), DepthInPage(|b|);
    if d < e { Pow2Monotone(d, e); }
    if e < d { Pow2Monotone(e, d); }
    assert d == e && |a| == |b|;
    var la, lb := LastPagePath(a), LastPagePath(b);
    assert la[..d] == la && lb[..d] == lb;
    AsUintInjective(la, lb);
    forall i | 0 <= i < |PageOf(a)| ensures Sextet(a, i) == Sextet(b, i) { assert PageOf(a)[i] == PageOf(b)[i]; }
    SextetsInjective(a, b, |PageOf(a)|);
    assert a == a[..PageStart(|a|)] + la && b == b[..PageStart(|b|)] + lb;
  }

  lemma {:induction false} SextetsInjective(a: Path, b: Path, n: nat)
    requires DEPTH * n <= |a| && DEPTH * n <= |b|
    requires forall i | 0 <= i < n :: DEPTH * (i + 1) <= |a| && DEPTH * (i + 1) <= |b| && Sextet(a, i) == Sextet(b, i)
    ensures a[..DEPTH * n] == b[..DEPTH * n]
  {
    if n > 0 {
      SextetsInjective(a, b, n - 1);
      assert Sextet(a, n - 1) == Sextet(b, n - 1);
      AsUintInjective(a[DEPTH * (n - 1)..DEPTH * n], b[DEPTH * (n - 1)..DEPTH * n]);
      assert a[..DEPTH * n] == a[..DEPTH * (n - 1)] + a[DEPTH * (n - 1)..DEPTH * n];
      assert b[..DEPTH * n] == b[..DEPTH * (n - 1)] + b[DEPTH * (n - 1)..DEPTH * n];
    }
  }

  /** Siblings share a page. */
  lemma SiblingPage(path: Path)
    requires path != []
    ensures PageOf(Sib(path, |path|)) == PageOf(path)
  {
    var s := Sib(path, |path|);
    forall i | 0 <= i < (|path| - 1) / DEPTH ensures Sextet(s, i) == Sextet(path, i) {
      assert s[DEPTH * i..DEPTH * (i + 1)] == path[DEPTH * i..DEPTH * (i + 1)];
    }
  }

  /** Stepping up within a page. */
  lemma IndexUp(path: Path)
    requires |path| > 1 && DepthInPage(|path|) > 1
    ensures IndexOf(path) >= 2 && IndexOf(path[..|path| - 1]) == ParentIndex(IndexOf(path))
  {
    var parent, bit := path[..|path| - 1], path[|path| - 1];
    assert path == parent + [bit];
    IndexDown(parent, bit);
  }

  /** A cursor over trie positions. Bits of `path` beyond `depth` are irrelevant. */
  class TriePosition {
    var path: Key
    var depth: nat
    var nodeIndex: nat

    /** The index kept along the way is the one recomputed from the path. */
    ghost predicate Valid()
      reads this
    {
      && depth <= KEY_BITS
      && nodeIndex == if depth == 0 then 0 else IndexOf(path[..depth])
    }

    function Bits(): Path
      requires depth <= KEY_BITS
      reads this
    {
      path[..depth]
    }

    constructor ()
      ensures Valid() && Bits() == []
    {
      path, depth, nodeIndex := seq(KEY_BITS, _ => false), 0, 0;
    }

    constructor FromPathAndDepth(keyPath: Key, d: nat)
      requires 0 < d <= KEY_BITS
      ensures Valid() && Bits() == keyPath[..d]
    {
      path, depth, nodeIndex := keyPath, d, IndexOf(keyPath[..d]);
    }

    /** Move down one layer. */
    method Down(bit: bool)
      requires Valid() && depth < KEY_BITS
      modifies this
      ensures Valid() && Bits() == old(Bits()) + [bit]
    {
      IndexDown(Bits(), bit);
      if depth % DEPTH == 0 {
        nodeIndex := if bit then 1 else 0;
      } else {
        nodeIndex := 2 * nodeIndex + 2 + if bit then 1 else 0;
      }
      path := path[depth := bit];
      depth := depth + 1;
      assert Bits() == old(Bits()) + [bit];
    }

    /** Move up `d` layers, walking parent indices while in the page and recomputing otherwise. */
    method Up(d: nat)
      requires Valid() && d <= depth
      modifies this
      ensures Valid() && Bits() == old(Bits())[..old(depth) - d]
    {
      hide NodeIndex, AsUint, LastPagePath;
      var prevDepth, newDepth := depth, depth - d;
      if newDepth == 0 {
        path, depth, nodeIndex := seq(KEY_BITS, _ => false), 0, 0;
        return;
      }
      depth := newDepth;
      if (prevDepth + DEPTH - 1) / DEPTH == (newDepth + DEPTH - 1) / DEPTH {
        for i := 0 to d
          invariant depth == newDepth && path == old(path)
          invariant nodeIndex == IndexOf(path[..prevDepth - i])
        {
          ghost var here := path[..prevDepth - i];
          IndexUp(here);
          assert here[..|here| - 1] == path[..prevDepth - i - 1];
          nodeIndex := ParentIndex(nodeIndex);
        }
      } else {
        nodeIndex := NodeIndex(LastPagePath(path[..depth]));
      }
      assert Bits() == old(Bits())[..newDepth];
    }

    /** Move to the sibling. */
    method Sibling()
      requires Valid() && depth > 0
      modifies this
      ensures Valid() && Bits() == Sib(old(Bits()), old(depth))
    {
      IndexSibling(Bits());
      path := path[depth - 1 := !path[depth - 1]];
      nodeIndex := SiblingIndex(nodeIndex);
      assert Bits() == Sib(old(Bits()), depth);
    }

    /** The page this position lands in, chunk by chunk. */
    method PageIdOf() returns (id: Option<PageId>)
      requires Valid()
      ensures id == if depth == 0 then None else Some(PageOf(Bits()))
    {
      if depth == 0 { return None; }
      var pageId: PageId := [];
      var bits := Bits();
      for i := 0 to depth / DEPTH
        invariant |pageId| == i <= (depth - 1) / DEPTH
        invariant forall j | 0 <= j < i :: pageId[j] == Sextet(bits, j)
      {
        if (i + 1) * DEPTH == depth {
          assert pageId == PageOf(bits);
          return Some(pageId);
        }
        pageId := pageId + [Sextet(bits, i)];
      }
      assert pageId == PageOf(bits);
      return Some(pageId);
    }
  }
}
