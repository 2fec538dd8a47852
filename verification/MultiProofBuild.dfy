/** Compressing the path proofs of one trie into a multi-proof: what the result lists, why it is
    accepted, and why no sibling in it can be spared. */
module MultiProofBuild {
  import opened Wrappers
  import opened Trie
  import opened Update
  import opened PathProofs
  import opened MultiProofs

  /** The terminals and depths of the proofs. */
  function Compressed(ps: seq<PathProof>): seq<MultiPathProof> {
    seq(|ps|, i requires 0 <= i < |ps| => MultiPathProof(ps[i].terminal, |ps[i].siblings|))
  }

  function Depth(p: PathProof): nat { |p.siblings| }

  function Bits(p: PathProof): Position { p.terminal.Bits() }

  /** A proof of the lookup of its own terminal; a terminator's position is where it sits. */
  ghost predicate Proves(p: PathProof, root: Node) {
    && Depth(p) <= |Bits(p)|
    && (p.terminal.TerminatorTerminal? ==> Depth(p) == |Bits(p)|)
    && HashPath(p.terminal.ToNode(), Bits(p)[..Depth(p)], p.siblings) == root
  }

  /** Ordered path proofs of one trie. */
  ghost predicate FromTrie(ps: seq<PathProof>, root: Node) {
    && (forall i | 0 <= i < |ps| :: Proves(ps[i], root))
    && Sorted(Compressed(ps))
  }

  /** The node over the part of a proof from depth `d` down. */
  ghost function Up(p: PathProof, d: nat): Node
    requires d <= Depth(p) <= |Bits(p)|
  {
    HashPath(p.terminal.ToNode(), Bits(p)[d..Depth(p)], p.siblings[d..])
  }

  lemma {:induction false} HashPathConcat(node: Node, p: Path, q: Path, s: seq<Node>, t: seq<Node>)
    requires |p| == |s| && |q| == |t|
    ensures HashPath(node, p + q, s + t) == HashPath(HashPath(node, q, t), p, s)
  {
    if p == [] {
      assert p + q == q && s + t == t;
    } else {
      assert (p + q)[1..] == p[1..] + q && (s + t)[1..] == s[1..] + t;
      HashPathConcat(node, p[1..], q, s[1..], t);
    }
  }

  lemma UpFrom(p: PathProof, d: nat, c: nat)
    requires d <= c <= Depth(p) <= |Bits(p)|
    ensures Up(p, d) == HashPath(Up(p, c), Bits(p)[d..c], p.siblings[d..c])
  {
    assert Bits(p)[d..Depth(p)] == Bits(p)[d..c] + Bits(p)[c..Depth(p)];
    assert p.siblings[d..] == p.siblings[d..c] + p.siblings[c..];
    HashPathConcat(p.terminal.ToNode(), Bits(p)[d..c], Bits(p)[c..Depth(p)], p.siblings[d..c], p.siblings[c..]);
  }

  lemma UpStep(p: PathProof, d: nat)
    requires d < Depth(p) <= |Bits(p)|
    ensures Up(p, d) == Join(Bits(p)[d], Up(p, d + 1), p.siblings[d]).Written()
  {
    assert Bits(p)[d..Depth(p)][1..] == Bits(p)[d + 1..Depth(p)];
    assert p.siblings[d..][1..] == p.siblings[d + 1..];
  }

  /** Two proofs of one root agree on the node wherever their paths agree. */
  lemma {:induction false} UpAgrees(p: PathProof, q: PathProof, root: Node, d: nat)
    requires Proves(p, root) && Proves(q, root)
    requires d <= Depth(p) && d <= Depth(q) && Bits(p)[..d] == Bits(q)[..d]
    ensures Up(p, d) == Up(q, d)
  {
    hide HashPath;
    if d == 0 {
      assert p.siblings[0..] == p.siblings && q.siblings[0..] == q.siblings;
    } else {
      assert Bits(p)[..d - 1] == Bits(p)[..d][..d - 1] == Bits(q)[..d][..d - 1] == Bits(q)[..d - 1];
      assert Bits(p)[d - 1] == Bits(p)[..d][d - 1] == Bits(q)[..d][d - 1] == Bits(q)[d - 1];
      UpAgrees(p, q, root, d - 1);
      UpStep(p, d - 1);
      UpStep(q, d - 1);
    }
  }

  /** Two proofs in order part before either of their paths ends. */
  ghost predicate PartAt(ps: seq<PathProof>, i: nat, j: nat)
    requires i < |ps| && j < |ps|
  {
    var s := SharedBits(Bits(ps[i]), Bits(ps[j]));
    s < Depth(ps[i]) && s < Depth(ps[j]) && Less(Bits(ps[i]), Bits(ps[j]))
  }

  ghost predicate AllPart(ps: seq<PathProof>) {
    && (forall i | 0 <= i < |ps| :: Depth(ps[i]) <= |Bits(ps[i])|)
    && (forall i, j | 0 <= i < j < |ps| :: PartAt(ps, i, j))
  }

  lemma UpAtEnd(p: PathProof)
    requires Depth(p) <= |Bits(p)|
    ensures Up(p, Depth(p)) == p.terminal.ToNode()
  {
  }

  lemma OneTerminal(p: PathProof, q: PathProof, root: Node)
    requires Proves(p, root) && Proves(q, root) && Depth(p) <= Depth(q)
    requires Bits(p)[..Depth(p)] == Bits(q)[..Depth(p)]
    ensures Bits(p) == Bits(q)
  {
    UpAgrees(p, q, root, Depth(p));
    UpAtEnd(p);
    if Depth(p) < Depth(q) { UpStep(q, Depth(p)); } else { UpAtEnd(q); }
  }

  lemma FromTrieParts(ps: seq<PathProof>, root: Node)
    requires FromTrie(ps, root)
    ensures AllPart(ps)
  {
    hide HashPath;
    forall i, j | 0 <= i < j < |ps| ensures PartAt(ps, i, j) {
      assert Precedes(Compressed(ps), i, j);
      var a, b := Bits(ps[i]), Bits(ps[j]);
      var s := SharedBits(a, b);
      if Depth(ps[i]) <= s && Depth(ps[i]) <= Depth(ps[j]) {
        assert a[..Depth(ps[i])] == a[..s][..Depth(ps[i])] == b[..s][..Depth(ps[i])];
        OneTerminal(ps[i], ps[j], root);
      }
      if Depth(ps[j]) <= s && Depth(ps[j]) <= Depth(ps[i]) {
        assert a[..Depth(ps[j])] == a[..s][..Depth(ps[j])] == b[..s][..Depth(ps[j])];
        OneTerminal(ps[j], ps[i], root);
      }
    }
  }

  // ----- the layout

  /** The proofs from `lo` up to `hi` share their first `d` bits, and all reach that deep. */
  ghost predicate InRange(ps: seq<PathProof>, lo: nat, hi: nat, d: nat) {
    && lo < hi <= |ps|
    && d <= Depth(ps[lo]) <= |Bits(ps[lo])|
    && forall i | lo <= i < hi :: d <= Depth(ps[i]) && Covers(Bits(ps[lo])[..d], Bits(ps[i]))
  }

  /** The depth where a range of two or more proofs forks, and where its right half begins. */
  ghost function ForkDepth(ps: seq<PathProof>, lo: nat, hi: nat): nat
    requires lo < hi <= |ps|
  {
    SharedBits(Bits(ps[lo]), Bits(ps[hi - 1]))
  }

  ghost function RightHalf(ps: seq<PathProof>, lo: nat, hi: nat): nat
    requires lo < hi <= |ps|
  {
    FirstOne(Compressed(ps), lo, hi, ForkDepth(ps, lo, hi))
  }

  lemma CompressedSorted(ps: seq<PathProof>)
    requires AllPart(ps)
    ensures Sorted(Compressed(ps))
  {
    hide SharedBits;
    forall i, j | 0 <= i < j < |ps| ensures Precedes(Compressed(ps), i, j) { assert PartAt(ps, i, j); }
  }

  lemma HalfInRange(ps: seq<PathProof>, lo: nat, hi: nat, q: Path)
    requires lo < hi <= |ps| && |q| <= Depth(ps[lo]) <= |Bits(ps[lo])|
    requires AllUnder(Compressed(ps), lo, hi, q)
    requires forall i | lo <= i < hi :: |q| <= Depth(ps[i])
    ensures InRange(ps, lo, hi, |q|) && Bits(ps[lo])[..|q|] == q
  {
    var paths := Compressed(ps);
    assert Covers(q, paths[lo].Bits());
    assert Bits(ps[lo])[..|q|] == q;
    forall i | lo <= i < hi ensures Covers(q, Bits(ps[i])) { assert Covers(q, paths[i].Bits()); }
  }

  lemma HalvesInRange(ps: seq<PathProof>, lo: nat, hi: nat, d: nat)
    requires AllPart(ps) && InRange(ps, lo, hi, d) && lo + 1 < hi
    ensures var c, at := ForkDepth(ps, lo, hi), RightHalf(ps, lo, hi);
            && d <= c < Depth(ps[lo]) && lo < at < hi
            && InRange(ps, lo, at, c + 1) && Bits(ps[lo])[..c + 1] == Bits(ps[lo])[..c] + [false]
            && InRange(ps, at, hi, c + 1) && Bits(ps[at])[..c + 1] == Bits(ps[lo])[..c] + [true]
  {
    hide SharedFrom, FirstOne, Less, Sorted;
    CompressedSorted(ps);
    var c := ForkDepth(ps, lo, hi);
    assert Covers(Bits(ps[lo])[..d], Bits(ps[hi - 1]));
    SharedBitsIs(Bits(ps[lo]), Bits(ps[hi - 1]), d);
    forall i | lo <= i < hi ensures c + 1 <= Depth(ps[i]) { DeeperThanFork(ps, lo, hi, i); }
    assert Compressed(ps)[lo].Bits() == Bits(ps[lo]) && Compressed(ps)[hi - 1].Bits() == Bits(ps[hi - 1]);
    ForkFacts(Compressed(ps), lo, hi);
    HalfInRange(ps, lo, RightHalf(ps, lo, hi), Bits(ps[lo])[..c] + [false]);
    HalfInRange(ps, RightHalf(ps, lo, hi), hi, Bits(ps[lo])[..c] + [true]);
  }

  lemma StillInRange(ps: seq<PathProof>, lo: nat, hi: nat, d: nat)
    requires AllPart(ps) && InRange(ps, lo, hi, d) && lo + 1 < hi && d < ForkDepth(ps, lo, hi)
    ensures InRange(ps, lo, hi, d + 1)
  {
    hide SharedFrom, Less, Sorted;
    CompressedSorted(ps);
    var c := ForkDepth(ps, lo, hi);
    forall i | lo <= i < hi ensures d + 1 <= Depth(ps[i]) && Covers(Bits(ps[lo])[..d + 1], Bits(ps[i])) {
      DeeperThanFork(ps, lo, hi, i);
      Squeezed(Compressed(ps), lo, hi, i);
      assert Covers(Bits(ps[lo])[..c], Compressed(ps)[i].Bits());
      assert Bits(ps[lo])[..d + 1] == Bits(ps[lo])[..c][..d + 1];
    }
    DeeperThanFork(ps, lo, hi, lo);
  }

  lemma DeeperThanFork(ps: seq<PathProof>, lo: nat, hi: nat, i: nat)
    requires AllPart(ps) && lo <= i < hi <= |ps| && lo + 1 < hi
    ensures ForkDepth(ps, lo, hi) < Depth(ps[i])
  {
    assert PartAt(ps, lo, hi - 1);
    if lo < i < hi - 1 {
      assert PartAt(ps, lo, i) && PartAt(ps, i, hi - 1);
      SharedBitsBetween(Bits(ps[lo]), Bits(ps[i]), Bits(ps[hi - 1]));
    }
  }

  /** The siblings listed for a range: those all its proofs share, then its left half, then its
      right half; for a single proof, all that remain. */
  ghost function Layout(ps: seq<PathProof>, lo: nat, hi: nat, d: nat): seq<Node>
    requires AllPart(ps) && InRange(ps, lo, hi, d)
    decreases hi - lo
  {
    if lo + 1 == hi then ps[lo].siblings[d..]
    else
      HalvesInRange(ps, lo, hi, d);
      var c, at := ForkDepth(ps, lo, hi), RightHalf(ps, lo, hi);
      ps[lo].siblings[d..c] + Layout(ps, lo, at, c + 1) + Layout(ps, at, hi, c + 1)
  }

  lemma LayoutFork(ps: seq<PathProof>, lo: nat, hi: nat, d: nat)
    requires AllPart(ps) && InRange(ps, lo, hi, d) && lo + 1 < hi
    ensures var c, at := ForkDepth(ps, lo, hi), RightHalf(ps, lo, hi);
            && d <= c < Depth(ps[lo]) <= |Bits(ps[lo])| && lo < at < hi
            && InRange(ps, lo, at, c + 1) && InRange(ps, at, hi, c + 1)
            && Layout(ps, lo, hi, d) == ps[lo].siblings[d..c] + Layout(ps, lo, at, c + 1) + Layout(ps, at, hi, c + 1)
  {
    HalvesInRange(ps, lo, hi, d);
    hide AllPart, InRange, ForkDepth, RightHalf;
  }

  /** Stepping over one shared bit lists one sibling. */
  lemma LayoutAdvance(ps: seq<PathProof>, lo: nat, hi: nat, d: nat)
    requires AllPart(ps) && InRange(ps, lo, hi, d) && lo + 1 < hi && d < ForkDepth(ps, lo, hi)
    ensures d < Depth(ps[lo]) && InRange(ps, lo, hi, d + 1)
    ensures Layout(ps, lo, hi, d) == [ps[lo].siblings[d]] + Layout(ps, lo, hi, d + 1)
  {
    StillInRange(ps, lo, hi, d);
    HalvesInRange(ps, lo, hi, d);
    hide AllPart, InRange, ForkDepth, RightHalf;
    var c := ForkDepth(ps, lo, hi);
    assert ps[lo].siblings[d..c] == [ps[lo].siblings[d]] + ps[lo].siblings[d + 1..c];
  }

  // ----- acceptance

  /** Terminal and depth of every proof, in order. */
  ghost predicate Kept(ps: seq<PathProof>, lo: nat, hi: nat, inner: seq<VerifiedMultiPath>)
    requires lo <= hi <= |ps|
  {
    && |inner| == hi - lo
    && forall i | lo <= i < hi :: inner[i - lo].terminal == ps[i].terminal && inner[i - lo].depth == Depth(ps[i])
  }

  lemma ForkOfCompressed(ps: seq<PathProof>, lo: nat, hi: nat, d: nat, available: nat)
    requires AllPart(ps) && InRange(ps, lo, hi, d) && lo + 1 < hi
    requires ForkDepth(ps, lo, hi) - d <= available
    ensures ForkOf(d, Compressed(ps), lo, hi, available) == Some((ForkDepth(ps, lo, hi) - d, RightHalf(ps, lo, hi)))
  {
    hide SharedFrom, FirstOne, Less;
    HalvesInRange(ps, lo, hi, d);
    assert Covers(Bits(ps[lo])[..d], Bits(ps[hi - 1]));
    SharedFromDepth(Bits(ps[lo]), Bits(ps[hi - 1]), d);
    assert Compressed(ps)[lo].Bits() == Bits(ps[lo]) && Compressed(ps)[hi - 1].Bits() == Bits(ps[hi - 1]);
  }

  /** The children of a fork are each other's siblings. */
  lemma ForkUp(ps: seq<PathProof>, root: Node, lo: nat, hi: nat, d: nat)
    requires FromTrie(ps, root) && AllPart(ps) && InRange(ps, lo, hi, d) && lo + 1 < hi
    ensures var c, at := ForkDepth(ps, lo, hi), RightHalf(ps, lo, hi);
            && d <= c < Depth(ps[lo]) && lo < at < hi && c < Depth(ps[at])
            && HashPath(Internal(Up(ps[lo], c + 1), Up(ps[at], c + 1)), Bits(ps[lo])[d..c], ps[lo].siblings[d..c])
               == Up(ps[lo], d)
  {
    hide HashPath, SharedFrom, Sorted, AllPart;
    HalvesInRange(ps, lo, hi, d);
    var c, at := ForkDepth(ps, lo, hi), RightHalf(ps, lo, hi);
    var a, b := Bits(ps[lo]), Bits(ps[at]);
    assert b[..c] == b[..c + 1][..c] == a[..c];
    assert !a[c] && b[c] by { assert a[c] == a[..c + 1][c] && b[c] == b[..c + 1][c]; }
    UpAgrees(ps[lo], ps[at], root, c);
    UpStep(ps[lo], c);
    UpStep(ps[at], c);
    UpFrom(ps[lo], d, c);
  }

  /** The result of hashing a range: the true node, all of the layout used, every terminal kept. */
  ghost predicate Reads(ps: seq<PathProof>, lo: nat, hi: nat, d: nat, r: RangeResult)
    requires AllPart(ps) && InRange(ps, lo, hi, d)
  {
    && r.Hashed? && r.node == Up(ps[lo], d) && r.used == |Layout(ps, lo, hi, d)|
    && Kept(ps, lo, hi, r.inner)
  }

  ghost predicate Holds(siblings: seq<Node>, offset: nat, part: seq<Node>) {
    offset + |part| <= |siblings| && forall i | 0 <= i < |part| :: siblings[offset + i] == part[i]
  }

  lemma HoldsSplit(siblings: seq<Node>, offset: nat, a: seq<Node>, b: seq<Node>, c: seq<Node>)
    requires Holds(siblings, offset, a + b + c)
    ensures Holds(siblings, offset, a)
    ensures Holds(siblings, offset + |a|, b)
    ensures Holds(siblings, offset + |a| + |b|, c)
  {
    var all := a + b + c;
    assert forall i | 0 <= i < |a| :: all[i] == a[i];
    assert forall i | 0 <= i < |b| :: all[|a| + i] == b[i];
    assert forall i | 0 <= i < |c| :: all[|a| + |b| + i] == c[i];
  }

  lemma HoldsSlice(siblings: seq<Node>, offset: nat, part: seq<Node>)
    requires Holds(siblings, offset, part)
    ensures siblings[offset..offset + |part|] == part
  {
  }

  lemma HoldsFits(siblings: seq<Node>, offset: nat, part: seq<Node>)
    requires Holds(siblings, offset, part)
    ensures offset + |part| <= |siblings|
  {
  }

  lemma ReadsAll(ps: seq<PathProof>, lo: nat, hi: nat, d: nat, r: RangeResult)
    requires AllPart(ps) && InRange(ps, lo, hi, d) && Reads(ps, lo, hi, d, r)
    ensures r.Hashed? && r.used == |Layout(ps, lo, hi, d)|
  {
  }

  /** A single proof hashes to its own node. */
  lemma SingleAccepts(ps: seq<PathProof>, lo: nat, d: nat, siblings: seq<Node>, offset: nat)
    requires AllPart(ps) && InRange(ps, lo, lo + 1, d)
    requires Holds(siblings, offset, Layout(ps, lo, lo + 1, d))
    ensures Reads(ps, lo, lo + 1, d, VerifyRange(d, Compressed(ps), lo, lo + 1, siblings, offset))
  {
    hide HashPath;
    HoldsSlice(siblings, offset, Layout(ps, lo, lo + 1, d));
  }

  lemma KeptJoin(ps: seq<PathProof>, lo: nat, at: nat, hi: nat, l: seq<VerifiedMultiPath>, r: seq<VerifiedMultiPath>)
    requires lo <= at <= hi <= |ps| && Kept(ps, lo, at, l) && Kept(ps, at, hi, r)
    ensures Kept(ps, lo, hi, l + r)
  {
    forall i | lo <= i < hi
      ensures (l + r)[i - lo].terminal == ps[i].terminal && (l + r)[i - lo].depth == Depth(ps[i])
    {
      if at <= i { assert (l + r)[i - lo] == r[i - at]; }
    }
  }

  lemma JoinReads(ps: seq<PathProof>, root: Node, lo: nat, hi: nat, d: nat, offset: nat,
                  c: nat, at: nat, left: RangeResult, right: RangeResult)
    requires FromTrie(ps, root) && AllPart(ps) && InRange(ps, lo, hi, d) && lo + 1 < hi
    requires c == ForkDepth(ps, lo, hi) && at == RightHalf(ps, lo, hi) && lo < at < hi
    requires d <= c < Depth(ps[lo]) <= |Bits(ps[lo])| && InRange(ps, lo, at, c + 1) && InRange(ps, at, hi, c + 1)
    requires left.Hashed? && Reads(ps, lo, at, c + 1, left) && right.Hashed? && Reads(ps, at, hi, c + 1, right)
    ensures Reads(ps, lo, hi, d, JoinRanges(d, offset, Bits(ps[lo])[d..c], ps[lo].siblings[d..c], left, right))
  {
    hide HashPath, FromTrie, AllPart, Kept, ForkDepth, RightHalf, Layout;
    ForkUp(ps, root, lo, hi, d);
    LayoutFork(ps, lo, hi, d);
    KeptJoin(ps, lo, at, hi, left.inner, right.inner);
  }

  /** The layout of a range is read back exactly. */
  lemma {:induction false} RangeAccepts(ps: seq<PathProof>, root: Node, lo: nat, hi: nat, d: nat,
                                        siblings: seq<Node>, offset: nat)
    requires lo < hi <= |ps| && FromTrie(ps, root) && AllPart(ps) && InRange(ps, lo, hi, d)
    requires Holds(siblings, offset, Layout(ps, lo, hi, d))
    ensures Reads(ps, lo, hi, d, VerifyRange(d, Compressed(ps), lo, hi, siblings, offset))
    decreases hi - lo
  {
    hide HashPath, FromTrie, AllPart, InRange, VerifyRange, JoinRanges, ForkDepth, RightHalf, SharedFrom, Layout, Holds,
      Reads;
    if lo + 1 == hi {
      SingleAccepts(ps, lo, d, siblings, offset);
    } else {
      LayoutFork(ps, lo, hi, d);
      var c, at := ForkDepth(ps, lo, hi), RightHalf(ps, lo, hi);
      HoldsSplit(siblings, offset, ps[lo].siblings[d..c], Layout(ps, lo, at, c + 1), Layout(ps, at, hi, c + 1));
      HoldsFits(siblings, offset, ps[lo].siblings[d..c]);
      HoldsFits(siblings, offset + (c - d), Layout(ps, lo, at, c + 1));
      HoldsSlice(siblings, offset, ps[lo].siblings[d..c]);
      ForkOfCompressed(ps, lo, hi, d, |siblings| - offset);
      var n := c - d;
      assert d + n + 1 == c + 1 && d + n == c;
      RangeAccepts(ps, root, lo, at, c + 1, siblings, offset + n);
      RangeAccepts(ps, root, at, hi, c + 1, siblings, offset + n + |Layout(ps, lo, at, c + 1)|);
      var left := VerifyRange(c + 1, Compressed(ps), lo, at, siblings, offset + n);
      var right := VerifyRange(c + 1, Compressed(ps), at, hi, siblings, offset + n + |Layout(ps, lo, at, c + 1)|);
      ReadsAll(ps, lo, at, c + 1, left);
      ReadsAll(ps, at, hi, c + 1, right);
      JoinReads(ps, root, lo, hi, d, offset, c, at, left, right);
      assert Compressed(ps)[lo].Bits() == Bits(ps[lo]);
      RangeFold(d, Compressed(ps), lo, hi, siblings, offset, n, at, left, right);
    }
  }

  /** A range whose fork is known is the join of its halves. */
  lemma RangeFold(d: nat, paths: seq<MultiPathProof>, lo: nat, hi: nat, siblings: seq<Node>, offset: nat,
                  n: nat, at: nat, left: RangeResult, right: RangeResult)
    requires lo + 1 < hi <= |paths| && offset + n <= |siblings| && lo <= at <= hi
    requires ForkOf(d, paths, lo, hi, |siblings| - offset) == Some((n, at))
    requires left.Hashed? && left == VerifyRange(d + n + 1, paths, lo, at, siblings, offset + n)
    requires offset + n + left.used <= |siblings|
    requires right.Hashed? && right == VerifyRange(d + n + 1, paths, at, hi, siblings, offset + n + left.used)
    requires d + n <= |paths[lo].Bits()|
    ensures VerifyRange(d, paths, lo, hi, siblings, offset)
            == JoinRanges(d, offset, paths[lo].Bits()[d..d + n], siblings[offset..offset + n], left, right)
  {
    hide ForkOf, JoinRanges, HashPath;
  }

  lemma AllInRange(ps: seq<PathProof>)
    requires AllPart(ps) && ps != []
    ensures InRange(ps, 0, |ps|, 0)
  {
  }

  /** The multi-proof of ordered path proofs of one trie is accepted, with every terminal and depth
      kept. The empty list is accepted exactly for the empty trie. */
  lemma RoundTrip(ps: seq<PathProof>, root: Node)
    requires FromTrie(ps, root)
    ensures AllPart(ps) && (ps != [] ==> InRange(ps, 0, |ps|, 0))
    ensures var proof := MultiProof(Compressed(ps), if ps == [] then [] else Layout(ps, 0, |ps|, 0));
            && (VerifyMulti(proof, root).Accepted? <==> ps != [] || root == Terminator)
            && (ps != [] ==> Kept(ps, 0, |ps|, VerifyMulti(proof, root).proof.inner))
  {
    FromTrieParts(ps, root);
    if ps != [] {
      AllInRange(ps);
      var siblings := Layout(ps, 0, |ps|, 0);
      assert Holds(siblings, 0, siblings);
      RangeAccepts(ps, root, 0, |ps|, 0, siblings, 0);
      assert Up(ps[0], 0) == root by {
        assert Proves(ps[0], root) && ps[0].siblings[0..] == ps[0].siblings;
      }
      assert InOrder(Compressed(ps)) by {
        CompressedSorted(ps);
        forall i | 0 < i < |ps| ensures Less(Compressed(ps)[i - 1].Bits(), Compressed(ps)[i].Bits()) {
          assert Precedes(Compressed(ps), i - 1, i);
        }
      }
      hide VerifyRange, InOrder, Layout, FromTrie, AllPart, InRange;
    }
  }

  // ----- construction

  datatype ProofRange = ProofRange(lower: nat, upper: nat, pathBitIndex: nat)

  /** The ranges still on the stack continue, top first, where the current one ends. */
  ghost predicate Chain(ps: seq<PathProof>, from: nat, stack: seq<ProofRange>)
    decreases stack
  {
    if stack == [] then from == |ps|
    else
      var top := stack[|stack| - 1];
      && top.lower == from && InRange(ps, top.lower, top.upper, top.pathBitIndex)
      && Chain(ps, top.upper, stack[..|stack| - 1])
  }

  ghost function RestLayout(ps: seq<PathProof>, from: nat, stack: seq<ProofRange>): seq<Node>
    requires AllPart(ps) && Chain(ps, from, stack)
    decreases stack
  {
    if stack == [] then []
    else
      var top := stack[|stack| - 1];
      Layout(ps, top.lower, top.upper, top.pathBitIndex) + RestLayout(ps, top.upper, stack[..|stack| - 1])
  }

  lemma RestPush(ps: seq<PathProof>, stack: seq<ProofRange>, top: ProofRange)
    requires AllPart(ps) && InRange(ps, top.lower, top.upper, top.pathBitIndex) && Chain(ps, top.upper, stack)
    ensures Chain(ps, top.lower, stack + [top])
    ensures RestLayout(ps, top.lower, stack + [top])
            == Layout(ps, top.lower, top.upper, top.pathBitIndex) + RestLayout(ps, top.upper, stack)
  {
    assert (stack + [top])[..|stack|] == stack;
  }

  /** Comparing one bit of the first and last path tells whether the range forks there. */
  lemma ForkHere(ps: seq<PathProof>, lo: nat, hi: nat, d: nat)
    requires AllPart(ps) && InRange(ps, lo, hi, d) && lo + 1 < hi
    ensures d < |Bits(ps[lo])| && d < |Bits(ps[hi - 1])| && d < Depth(ps[lo])
    ensures Bits(ps[lo])[d] != Bits(ps[hi - 1])[d] ==> ForkDepth(ps, lo, hi) == d
    ensures Bits(ps[lo])[d] == Bits(ps[hi - 1])[d] ==> d < ForkDepth(ps, lo, hi)
  {
    hide SharedFrom;
    var a, z := Bits(ps[lo]), Bits(ps[hi - 1]);
    assert PartAt(ps, lo, hi - 1);
    assert Covers(a[..d], z);
    assert z[..d] == a[..d];
    SharedBitsIs(a, z, d);
    if a[d] == z[d] {
      assert a[..d + 1] == a[..d] + [a[d]] && z[..d + 1] == z[..d] + [z[d]];
      SharedBitsIs(a, z, d + 1);
    }
  }

  /** What is still to be laid out: the current range, then the stacked ones. */
  ghost function Remaining(ps: seq<PathProof>, cur: ProofRange, stack: seq<ProofRange>): seq<Node>
    requires AllPart(ps) && InRange(ps, cur.lower, cur.upper, cur.pathBitIndex) && Chain(ps, cur.upper, stack)
  {
    Layout(ps, cur.lower, cur.upper, cur.pathBitIndex) + RestLayout(ps, cur.upper, stack)
  }

  /** All that is laid out, gathered and remaining is the layout of the whole. */
  ghost predicate OnTrack(ps: seq<PathProof>, paths: seq<MultiPathProof>, siblings: seq<Node>, common: seq<Node>,
                          cur: ProofRange, stack: seq<ProofRange>)
  {
    && AllPart(ps) && ps != [] && InRange(ps, 0, |ps|, 0)
    && cur.lower < cur.upper <= |ps| && InRange(ps, cur.lower, cur.upper, cur.pathBitIndex)
    && Chain(ps, cur.upper, stack)
    && paths == Compressed(ps)[..cur.lower]
    && (cur.lower + 1 == cur.upper ==> common == [])
    && siblings + common + Remaining(ps, cur, stack) == Layout(ps, 0, |ps|, 0)
  }

  lemma RemainingAdvance(ps: seq<PathProof>, cur: ProofRange, stack: seq<ProofRange>)
    requires AllPart(ps) && InRange(ps, cur.lower, cur.upper, cur.pathBitIndex) && Chain(ps, cur.upper, stack)
    requires cur.lower + 1 < cur.upper && cur.pathBitIndex < ForkDepth(ps, cur.lower, cur.upper)
    ensures cur.pathBitIndex < Depth(ps[cur.lower])
    ensures InRange(ps, cur.lower, cur.upper, cur.pathBitIndex + 1)
    ensures Remaining(ps, cur, stack) == [ps[cur.lower].siblings[cur.pathBitIndex]]
                                         + Remaining(ps, cur.(pathBitIndex := cur.pathBitIndex + 1), stack)
  {
    LayoutAdvance(ps, cur.lower, cur.upper, cur.pathBitIndex);
    hide AllPart, InRange, Chain, Layout, RestLayout, ForkDepth;
  }

  lemma RemainingBisect(ps: seq<PathProof>, cur: ProofRange, stack: seq<ProofRange>, left: ProofRange,
                        right: ProofRange)
    requires AllPart(ps) && InRange(ps, cur.lower, cur.upper, cur.pathBitIndex) && Chain(ps, cur.upper, stack)
    requires cur.lower + 1 < cur.upper && cur.pathBitIndex == ForkDepth(ps, cur.lower, cur.upper)
    requires left == ProofRange(cur.lower, RightHalf(ps, cur.lower, cur.upper), cur.pathBitIndex + 1)
    requires right == ProofRange(RightHalf(ps, cur.lower, cur.upper), cur.upper, cur.pathBitIndex + 1)
    ensures left.lower < left.upper < right.upper && InRange(ps, left.lower, left.upper, left.pathBitIndex)
    ensures Chain(ps, left.upper, stack + [right])
    ensures Remaining(ps, cur, stack) == Remaining(ps, left, stack + [right])
  {
    var lo, hi, d := cur.lower, cur.upper, cur.pathBitIndex;
    hide AllPart, Layout, ForkDepth, RightHalf;
    LayoutFork(ps, lo, hi, d);
    RestPush(ps, stack, right);
    hide Chain, RestLayout;
    var l, r := Layout(ps, lo, left.upper, d + 1), Layout(ps, right.lower, hi, d + 1);
    assert ps[lo].siblings[d..d] + l == l;
    Regroup(l, r, RestLayout(ps, hi, stack));
  }

  lemma Regroup<T>(l: seq<T>, r: seq<T>, t: seq<T>)
    ensures ([] + l + r) + t == l + (r + t)
  {
  }

  lemma Absorb<T>(a: seq<T>, u: seq<T>, rest: seq<T>)
    ensures a + [] + (u + rest) == a + u + [] + rest
  {
  }

  lemma Gather<T>(a: seq<T>, b: seq<T>, x: T, rest: seq<T>)
    ensures a + b + ([x] + rest) == a + (b + [x]) + rest
  {
  }

  lemma TrackAdvance(ps: seq<PathProof>, paths: seq<MultiPathProof>, siblings: seq<Node>, common: seq<Node>,
                     cur: ProofRange, stack: seq<ProofRange>, next: ProofRange)
    requires OnTrack(ps, paths, siblings, common, cur, stack) && cur.lower + 1 < cur.upper
    requires cur.pathBitIndex < ForkDepth(ps, cur.lower, cur.upper)
    requires next == cur.(pathBitIndex := cur.pathBitIndex + 1)
    ensures cur.pathBitIndex < Depth(ps[cur.lower])
    ensures OnTrack(ps, paths, siblings, common + [ps[cur.lower].siblings[cur.pathBitIndex]], next, stack)
  {
    hide AllPart, InRange, Chain, Layout, Remaining, ForkDepth;
    RemainingAdvance(ps, cur, stack);
    Gather(siblings, common, ps[cur.lower].siblings[cur.pathBitIndex], Remaining(ps, next, stack));
  }

  lemma TrackBisect(ps: seq<PathProof>, paths: seq<MultiPathProof>, siblings: seq<Node>, common: seq<Node>,
                    cur: ProofRange, stack: seq<ProofRange>, left: ProofRange, right: ProofRange)
    requires OnTrack(ps, paths, siblings, common, cur, stack) && cur.lower + 1 < cur.upper
    requires cur.pathBitIndex == ForkDepth(ps, cur.lower, cur.upper)
    requires left == ProofRange(cur.lower, RightHalf(ps, cur.lower, cur.upper), cur.pathBitIndex + 1)
    requires right == ProofRange(RightHalf(ps, cur.lower, cur.upper), cur.upper, cur.pathBitIndex + 1)
    ensures OnTrack(ps, paths, siblings + common, [], left, stack + [right])
  {
    hide AllPart, InRange, Chain, Layout, Remaining, ForkDepth, RightHalf;
    RemainingBisect(ps, cur, stack, left, right);
    assert siblings + common + [] == siblings + common;
  }

  lemma TrackUnique(ps: seq<PathProof>, paths: seq<MultiPathProof>, siblings: seq<Node>, common: seq<Node>,
                    cur: ProofRange, stack: seq<ProofRange>, unique: seq<Node>, paths': seq<MultiPathProof>)
    requires OnTrack(ps, paths, siblings, common, cur, stack) && cur.lower + 1 == cur.upper
    requires cur.pathBitIndex <= Depth(ps[cur.lower]) && unique == ps[cur.lower].siblings[cur.pathBitIndex..]
    requires paths' == paths + [MultiPathProof(ps[cur.lower].terminal, Depth(ps[cur.lower]))]
    ensures stack == [] ==> paths' == Compressed(ps) && siblings + unique == Layout(ps, 0, |ps|, 0)
    ensures stack != [] ==> OnTrack(ps, paths', siblings + unique, common, stack[|stack| - 1], stack[..|stack| - 1])
  {
    hide AllPart, Layout, InRange, Chain, Remaining;
    CompressedTake(ps, cur.lower);
    RemainingPop(ps, cur, stack, unique);
    if stack == [] {
      assert siblings + [] + unique == siblings + unique;
    } else {
      Absorb(siblings, unique, Remaining(ps, stack[|stack| - 1], stack[..|stack| - 1]));
    }
  }

  lemma CompressedTake(ps: seq<PathProof>, i: nat)
    requires i < |ps|
    ensures Compressed(ps)[..i] + [MultiPathProof(ps[i].terminal, Depth(ps[i]))] == Compressed(ps)[..i + 1]
    ensures Compressed(ps)[..|ps|] == Compressed(ps)
  {
  }

  lemma RemainingPop(ps: seq<PathProof>, cur: ProofRange, stack: seq<ProofRange>, unique: seq<Node>)
    requires AllPart(ps) && InRange(ps, cur.lower, cur.upper, cur.pathBitIndex) && Chain(ps, cur.upper, stack)
    requires cur.lower + 1 == cur.upper && unique == ps[cur.lower].siblings[cur.pathBitIndex..]
    ensures stack == [] ==> Remaining(ps, cur, stack) == unique && cur.upper == |ps|
    ensures stack != [] ==>
              var top, rest := stack[|stack| - 1], stack[..|stack| - 1];
              && top.lower == cur.upper < top.upper <= |ps|
              && InRange(ps, top.lower, top.upper, top.pathBitIndex) && Chain(ps, top.upper, rest)
              && Remaining(ps, cur, stack) == unique + Remaining(ps, top, rest)
  {
    hide AllPart;
  }

  lemma TrackFacts(ps: seq<PathProof>, paths: seq<MultiPathProof>, siblings: seq<Node>, common: seq<Node>,
                   cur: ProofRange, stack: seq<ProofRange>)
    requires OnTrack(ps, paths, siblings, common, cur, stack)
    ensures AllPart(ps) && cur.lower < cur.upper <= |ps| && InRange(ps, cur.lower, cur.upper, cur.pathBitIndex)
    ensures cur.pathBitIndex <= Depth(ps[cur.lower]) <= |Bits(ps[cur.lower])|
    ensures |paths| == cur.lower
  {
    hide AllPart;
  }

  lemma TrackStart(ps: seq<PathProof>)
    requires AllPart(ps) && ps != []
    ensures InRange(ps, 0, |ps|, 0) && OnTrack(ps, [], [], [], ProofRange(0, |ps|, 0), [])
  {
    AllInRange(ps);
    hide AllPart, InRange, Layout;
    var all := Layout(ps, 0, |ps|, 0);
    assert Remaining(ps, ProofRange(0, |ps|, 0), []) == all + [];
    assert [] + [] + (all + []) == all;
    assert Compressed(ps)[..0] == [];
  }

  /** Construct a multi-proof from ordered path proofs of one trie. */
  method FromPathProofs(ps: seq<PathProof>, ghost root: Node) returns (proof: MultiProof)
    requires FromTrie(ps, root)
    ensures AllPart(ps) && (ps != [] ==> InRange(ps, 0, |ps|, 0))
    ensures proof == MultiProof(Compressed(ps), if ps == [] then [] else Layout(ps, 0, |ps|, 0))
  {
    hide FromTrie, Layout, SharedFrom, AllPart, InRange, OnTrack, FirstOne;
    FromTrieParts(ps, root);
    if ps == [] { return MultiProof([], []); }
    TrackStart(ps);
    var paths, siblings, common: seq<Node> := [], [], [];
    var cur := ProofRange(0, |ps|, 0);
    var stack: seq<ProofRange> := [];
    while true
      invariant OnTrack(ps, paths, siblings, common, cur, stack)
      decreases |ps| - |paths|, KEY_BITS + 1 - cur.pathBitIndex
    {
      TrackFacts(ps, paths, siblings, common, cur, stack);
      if cur.lower + 1 == cur.upper {
        var unique := ps[cur.lower].siblings[cur.pathBitIndex..];
        var path := MultiPathProof(ps[cur.lower].terminal, cur.pathBitIndex + |unique|);
        TrackUnique(ps, paths, siblings, common, cur, stack, unique, paths + [path]);
        paths := paths + [path];
        siblings := siblings + unique;
        if stack == [] { break; }
        cur, stack := stack[|stack| - 1], stack[..|stack| - 1];
        TrackFacts(ps, paths, siblings, common, cur, stack);
      } else {
        ForkHere(ps, cur.lower, cur.upper, cur.pathBitIndex);
        if Bits(ps[cur.lower])[cur.pathBitIndex] != Bits(ps[cur.upper - 1])[cur.pathBitIndex] {
          var mid := FirstOne(Compressed(ps), cur.lower, cur.upper, cur.pathBitIndex);
          var left := ProofRange(cur.lower, mid, cur.pathBitIndex + 1);
          var right := ProofRange(mid, cur.upper, cur.pathBitIndex + 1);
          TrackBisect(ps, paths, siblings, common, cur, stack, left, right);
          siblings, common, cur, stack := siblings + common, [], left, stack + [right];
        } else {
          var next := cur.(pathBitIndex := cur.pathBitIndex + 1);
          TrackAdvance(ps, paths, siblings, common, cur, stack, next);
          common, cur := common + [ps[cur.lower].siblings[cur.pathBitIndex]], next;
        }
      }
    }
    proof := MultiProof(paths, siblings);
  }
}
