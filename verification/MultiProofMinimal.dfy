/** The sibling list of a multi-proof: which trie positions it holds, that none is missing or
    repeated, and that the verifier's ranges tile it. */
module MultiProofMinimal {
  import opened Trie
  import opened PathProofs
  import opened MultiProofs
  import opened MultiProofBuild

  function Proven(p: PathProof): Path
    requires Depth(p) <= |Bits(p)|
  {
    Bits(p)[..Depth(p)]
  }

  /** The siblings along `p` strictly below depth `lo`, down to depth `hi`. */
  ghost function SibsBetween(p: Path, lo: nat, hi: nat): (s: seq<Path>)
    requires lo <= hi <= |p|
    ensures |s| == hi - lo && forall i | 0 <= i < |s| :: s[i] == Sib(p, lo + 1 + i)
  {
    seq(hi - lo, i requires 0 <= i < hi - lo => Sib(p, lo + 1 + i))
  }

  /** The trie positions of the siblings in a layout. */
  ghost function Positions(ps: seq<PathProof>, lo: nat, hi: nat, d: nat): seq<Path>
    requires AllPart(ps) && InRange(ps, lo, hi, d)
    decreases hi - lo
  {
    if lo + 1 == hi then SibsBetween(Bits(ps[lo]), d, Depth(ps[lo]))
    else
      HalvesInRange(ps, lo, hi, d);
      var c, at := ForkDepth(ps, lo, hi), RightHalf(ps, lo, hi);
      SibsBetween(Bits(ps[lo]), d, c) + Positions(ps, lo, at, c + 1) + Positions(ps, at, hi, c + 1)
  }

  lemma PositionsFork(ps: seq<PathProof>, lo: nat, hi: nat, d: nat)
    requires AllPart(ps) && InRange(ps, lo, hi, d) && lo + 1 < hi
    ensures var c, at := ForkDepth(ps, lo, hi), RightHalf(ps, lo, hi);
            && d <= c < Depth(ps[lo]) && lo < at < hi && InRange(ps, lo, at, c + 1) && InRange(ps, at, hi, c + 1)
            && Positions(ps, lo, hi, d)
               == SibsBetween(Bits(ps[lo]), d, c) + Positions(ps, lo, at, c + 1) + Positions(ps, at, hi, c + 1)
  {
    HalvesInRange(ps, lo, hi, d);
    hide AllPart, InRange, ForkDepth, RightHalf, SibsBetween;
  }

  // ----- the layout holds the nodes at those positions

  lemma SiblingIs(m: State, p: PathProof, i: nat)
    requires Proves(p, Root(m)) && i < Depth(p)
    ensures p.siblings[i] == Sub(m, Sib(Bits(p), i + 1))
  {
    hide Sub, HashPath;
    var q := Proven(p);
    assert q[0..] == q && q[..0] == [];
    HashPathExact(m, q, 0, p.terminal.ToNode(), p.siblings);
    OnPathAt(m, q, 0, p.terminal.ToNode(), p.siblings, i);
    assert Sib(q, i + 1) == Sib(Bits(p), i + 1);
  }

  ghost predicate NodesAt(m: State, nodes: seq<Node>, positions: seq<Path>) {
    && |nodes| == |positions|
    && forall i | 0 <= i < |nodes| :: |positions[i]| <= KEY_BITS && nodes[i] == Sub(m, positions[i])
  }

  lemma SliceNodes(m: State, p: PathProof, lo: nat, hi: nat)
    requires Proves(p, Root(m)) && lo <= hi <= Depth(p)
    ensures NodesAt(m, p.siblings[lo..hi], SibsBetween(Bits(p), lo, hi))
  {
    hide Sub, HashPath;
    var nodes, positions := p.siblings[lo..hi], SibsBetween(Bits(p), lo, hi);
    forall i | 0 <= i < |nodes| ensures |positions[i]| <= KEY_BITS && nodes[i] == Sub(m, positions[i]) {
      SiblingIs(m, p, lo + i);
    }
  }

  lemma NodesConcat(m: State, a: seq<Node>, p: seq<Path>, b: seq<Node>, q: seq<Path>)
    requires NodesAt(m, a, p) && NodesAt(m, b, q)
    ensures NodesAt(m, a + b, p + q)
  {
    hide Sub;
  }

  lemma FirstInRange(ps: seq<PathProof>, root: Node, lo: nat, hi: nat, d: nat)
    requires lo < hi <= |ps| && FromTrie(ps, root) && AllPart(ps) && InRange(ps, lo, hi, d)
    ensures d <= Depth(ps[lo]) <= |Bits(ps[lo])| && Proves(ps[lo], root)
  {
    hide HashPath;
  }

  lemma SingleNodes(m: State, ps: seq<PathProof>, lo: nat, d: nat)
    requires AllPart(ps) && InRange(ps, lo, lo + 1, d) && d <= Depth(ps[lo]) && Proves(ps[lo], Root(m))
    ensures NodesAt(m, Layout(ps, lo, lo + 1, d), Positions(ps, lo, lo + 1, d))
  {
    hide Sub, AllPart, HashPath, SibsBetween, NodesAt;
    SliceNodes(m, ps[lo], d, Depth(ps[lo]));
    assert ps[lo].siblings[d..] == ps[lo].siblings[d..Depth(ps[lo])];
  }

  lemma ThreeNodes(m: State, a: seq<Node>, p: seq<Path>, b: seq<Node>, q: seq<Path>, c: seq<Node>, r: seq<Path>)
    requires NodesAt(m, a, p) && NodesAt(m, b, q) && NodesAt(m, c, r)
    ensures NodesAt(m, a + b + c, p + q + r)
  {
    hide NodesAt;
    NodesConcat(m, a, p, b, q);
    NodesConcat(m, a + b, p + q, c, r);
  }

  /** In a trie of `m` the layout lists, in order, the canonical nodes at its positions. */
  lemma {:induction false} LayoutNodes(m: State, ps: seq<PathProof>, lo: nat, hi: nat, d: nat)
    requires lo < hi <= |ps| && FromTrie(ps, Root(m)) && AllPart(ps) && InRange(ps, lo, hi, d)
    ensures NodesAt(m, Layout(ps, lo, hi, d), Positions(ps, lo, hi, d))
    decreases hi - lo
  {
    hide Sub, InRange, AllPart, FromTrie, Proves, ForkDepth, RightHalf, SibsBetween, NodesAt, Layout, Positions;
    FirstInRange(ps, Root(m), lo, hi, d);
    if lo + 1 == hi {
      SingleNodes(m, ps, lo, d);
    } else {
      LayoutFork(ps, lo, hi, d);
      PositionsFork(ps, lo, hi, d);
      var c, at := ForkDepth(ps, lo, hi), RightHalf(ps, lo, hi);
      SliceNodes(m, ps[lo], d, c);
      LayoutNodes(m, ps, lo, at, c + 1);
      LayoutNodes(m, ps, at, hi, c + 1);
      ThreeNodes(m, ps[lo].siblings[d..c], SibsBetween(Bits(ps[lo]), d, c),
                 Layout(ps, lo, at, c + 1), Positions(ps, lo, at, c + 1),
                 Layout(ps, at, hi, c + 1), Positions(ps, at, hi, c + 1));
    }
  }

  // ----- exactly the needed positions

  /** `q` hangs off the path of proof `i` at depth `layer`, and no proven path of the range runs
      through it. */
  ghost predicate NeededBy(ps: seq<PathProof>, lo: nat, hi: nat, d: nat, q: Path, i: nat, layer: nat)
    requires AllPart(ps) && hi <= |ps|
  {
    && lo <= i < hi && d < layer <= Depth(ps[i]) && q == Sib(Bits(ps[i]), layer)
    && forall j | lo <= j < hi :: !Covers(q, Proven(ps[j]))
  }

  ghost predicate Needed(ps: seq<PathProof>, lo: nat, hi: nat, d: nat, q: Path)
    requires AllPart(ps) && hi <= |ps|
  {
    exists i: nat, layer: nat :: NeededBy(ps, lo, hi, d, q, i, layer)
  }

  lemma SibsBetweenIn(p: Path, lo: nat, hi: nat, q: Path)
    requires lo <= hi <= |p|
    ensures q in SibsBetween(p, lo, hi) <==> exists layer | lo < layer <= hi :: q == Sib(p, layer)
  {
    if layer :| lo < layer <= hi && q == Sib(p, layer) {
      assert SibsBetween(p, lo, hi)[layer - lo - 1] == q;
    }
    if q in SibsBetween(p, lo, hi) {
      var i :| 0 <= i < hi - lo && SibsBetween(p, lo, hi)[i] == q;
      assert q == Sib(p, lo + 1 + i);
    }
  }

  lemma NotOnPath(p: Path, q: Path, layer: nat, r: Path)
    requires 0 < layer <= |p| && q == Sib(p, layer) && layer <= |r| && r[..layer] == p[..layer]
    ensures !Covers(q, r)
  {
    assert q[layer - 1] != p[..layer][layer - 1] == r[..layer][layer - 1];
  }

  lemma SameBits(ps: seq<PathProof>, lo: nat, hi: nat, d: nat, i: nat, n: nat)
    requires AllPart(ps) && InRange(ps, lo, hi, d) && lo <= i < hi && n <= d
    ensures d <= Depth(ps[i]) && Bits(ps[i])[..n] == Bits(ps[lo])[..n] && Proven(ps[i])[..n] == Bits(ps[lo])[..n]
  {
    assert Covers(Bits(ps[lo])[..d], Bits(ps[i]));
    assert Bits(ps[i])[..d] == Bits(ps[lo])[..d];
    assert Bits(ps[i])[..n] == Bits(ps[i])[..d][..n] && Bits(ps[lo])[..n] == Bits(ps[lo])[..d][..n];
  }

  /** The common part lists needed positions. */
  lemma CommonNeeded(ps: seq<PathProof>, lo: nat, hi: nat, d: nat, c: nat, layer: nat)
    requires AllPart(ps) && InRange(ps, lo, hi, c) && d < layer <= c
    ensures NeededBy(ps, lo, hi, d, Sib(Bits(ps[lo]), layer), lo, layer)
  {
    forall j | lo <= j < hi ensures !Covers(Sib(Bits(ps[lo]), layer), Proven(ps[j])) {
      SameBits(ps, lo, hi, c, j, layer);
      NotOnPath(Bits(ps[lo]), Sib(Bits(ps[lo]), layer), layer, Proven(ps[j]));
    }
  }

  /** What one half needs the whole needs: the other half lies on the other side of the fork. */
  lemma HalfNeeded(ps: seq<PathProof>, lo: nat, hi: nat, d: nat, a: nat, b: nat, c: nat, q: Path, i: nat, layer: nat)
    requires AllPart(ps) && lo <= a < b <= hi <= |ps| && d <= c
    requires NeededBy(ps, a, b, c + 1, q, i, layer)
    requires forall j | lo <= j < hi && !(a <= j < b) :: c < Depth(ps[j]) && Bits(ps[j])[c] != Bits(ps[i])[c]
    ensures NeededBy(ps, lo, hi, d, q, i, layer)
  {
    forall j | lo <= j < hi && !(a <= j < b) ensures !Covers(q, Proven(ps[j])) {
      assert q[c] == Bits(ps[i])[c] && Proven(ps[j])[c] == Bits(ps[j])[c];
    }
  }

  lemma NeededInHalf(ps: seq<PathProof>, lo: nat, hi: nat, d: nat, a: nat, b: nat, c: nat, q: Path, i: nat, layer: nat)
    requires AllPart(ps) && lo <= a <= i < b <= hi <= |ps|
    requires NeededBy(ps, lo, hi, d, q, i, layer) && c + 1 < layer
    ensures NeededBy(ps, a, b, c + 1, q, i, layer)
  {
  }

  /** Which side of the fork a proof is on. */
  lemma Side(ps: seq<PathProof>, lo: nat, hi: nat, d: nat, j: nat)
    requires AllPart(ps) && InRange(ps, lo, hi, d) && lo + 1 < hi && lo <= j < hi
    ensures var c, at := ForkDepth(ps, lo, hi), RightHalf(ps, lo, hi);
            && c < |Bits(ps[lo])| && c < Depth(ps[j]) <= |Bits(ps[j])|
            && Bits(ps[j])[c] == (at <= j) && Bits(ps[j])[..c] == Bits(ps[lo])[..c]
  {
    hide SharedFrom, FirstOne;
    HalvesInRange(ps, lo, hi, d);
    var c, at := ForkDepth(ps, lo, hi), RightHalf(ps, lo, hi);
    var first := if j < at then lo else at;
    SameBits(ps, first, if j < at then at else hi, c + 1, j, c + 1);
    assert Bits(ps[j])[c] == Bits(ps[j])[..c + 1][c];
    assert Bits(ps[j])[..c] == Bits(ps[j])[..c + 1][..c];
  }

  lemma ForkInRange(ps: seq<PathProof>, lo: nat, hi: nat, d: nat)
    requires AllPart(ps) && InRange(ps, lo, hi, d) && lo + 1 < hi
    ensures InRange(ps, lo, hi, ForkDepth(ps, lo, hi))
  {
    hide ForkDepth, RightHalf, AllPart;
    var c := ForkDepth(ps, lo, hi);
    Side(ps, lo, hi, d, lo);
    forall j | lo <= j < hi ensures c <= Depth(ps[j]) && Covers(Bits(ps[lo])[..c], Bits(ps[j])) {
      Side(ps, lo, hi, d, j);
      assert Bits(ps[j])[..c] <= Bits(ps[j]);
    }
    HalvesInRange(ps, lo, hi, d);
  }

  /** The sibling right at the fork is on a proven path of the other half. */
  lemma ForkCovered(ps: seq<PathProof>, lo: nat, hi: nat, d: nat, i: nat) returns (j: nat)
    requires AllPart(ps) && InRange(ps, lo, hi, d) && lo + 1 < hi && lo <= i < hi
    ensures ForkDepth(ps, lo, hi) < |Bits(ps[i])| && lo <= j < hi
    ensures Covers(Sib(Bits(ps[i]), ForkDepth(ps, lo, hi) + 1), Proven(ps[j]))
  {
    HalvesInRange(ps, lo, hi, d);
    hide ForkDepth, RightHalf;
    var c, at := ForkDepth(ps, lo, hi), RightHalf(ps, lo, hi);
    j := if i < at then at else lo;
    Side(ps, lo, hi, d, i);
    Side(ps, lo, hi, d, j);
    assert Proven(ps[j])[..c + 1] == Bits(ps[i])[..c] + [!Bits(ps[i])[c]];
  }

  /** A position is listed for a range exactly when it is needed there. */
  lemma {:induction false} ListedIffNeeded(ps: seq<PathProof>, lo: nat, hi: nat, d: nat, q: Path)
    requires AllPart(ps) && InRange(ps, lo, hi, d)
    ensures q in Positions(ps, lo, hi, d) <==> Needed(ps, lo, hi, d, q)
    decreases hi - lo
  {
    if lo + 1 == hi {
      SingleNeeded(ps, lo, d, q);
    } else {
      HalvesInRange(ps, lo, hi, d);
      ForkInRange(ps, lo, hi, d);
      var c, at := ForkDepth(ps, lo, hi), RightHalf(ps, lo, hi);
      assert c < |Bits(ps[lo])|;
      hide AllPart, InRange, ForkDepth, RightHalf, SibsBetween, Needed;
      ListedIffNeeded(ps, lo, at, c + 1, q);
      ListedIffNeeded(ps, at, hi, c + 1, q);
      SibsBetweenIn(Bits(ps[lo]), d, c, q);
      if q in Positions(ps, lo, hi, d) { ListedNeeded(ps, lo, hi, d, q); }
      if Needed(ps, lo, hi, d, q) { NeededListed(ps, lo, hi, d, q); }
    }
  }

  lemma SingleNeeded(ps: seq<PathProof>, lo: nat, d: nat, q: Path)
    requires AllPart(ps) && InRange(ps, lo, lo + 1, d)
    ensures q in Positions(ps, lo, lo + 1, d) <==> Needed(ps, lo, lo + 1, d, q)
  {
    SibsBetweenIn(Bits(ps[lo]), d, Depth(ps[lo]), q);
    if layer :| d < layer <= Depth(ps[lo]) && q == Sib(Bits(ps[lo]), layer) {
      assert Proven(ps[lo])[..layer] == Bits(ps[lo])[..layer];
      NotOnPath(Bits(ps[lo]), q, layer, Proven(ps[lo]));
      assert NeededBy(ps, lo, lo + 1, d, q, lo, layer);
    }
  }

  lemma ListedNeeded(ps: seq<PathProof>, lo: nat, hi: nat, d: nat, q: Path)
    requires hi <= |ps| && AllPart(ps) && InRange(ps, lo, hi, d) && lo + 1 < hi && lo < RightHalf(ps, lo, hi) < hi
    requires d <= ForkDepth(ps, lo, hi) < |Bits(ps[lo])| && InRange(ps, lo, hi, ForkDepth(ps, lo, hi))
    requires var c, at := ForkDepth(ps, lo, hi), RightHalf(ps, lo, hi);
             || (exists layer | d < layer <= c :: q == Sib(Bits(ps[lo]), layer))
             || Needed(ps, lo, at, c + 1, q) || Needed(ps, at, hi, c + 1, q)
    ensures Needed(ps, lo, hi, d, q)
  {
    hide SharedFrom, FirstOne, AllPart, InRange, ForkDepth, RightHalf;
    var c, at := ForkDepth(ps, lo, hi), RightHalf(ps, lo, hi);
    forall j | lo <= j < hi ensures c < Depth(ps[j]) <= |Bits(ps[j])| && Bits(ps[j])[c] == (at <= j) {
      Side(ps, lo, hi, d, j);
    }
    var below := c + 1;
    if layer :| d < layer <= c && q == Sib(Bits(ps[lo]), layer) {
      CommonNeeded(ps, lo, hi, d, c, layer);
    } else if i: nat, layer: nat :| NeededBy(ps, lo, at, below, q, i, layer) {
      HalfNeeded(ps, lo, hi, d, lo, at, c, q, i, layer);
    } else {
      var i: nat, layer: nat :| NeededBy(ps, at, hi, below, q, i, layer);
      HalfNeeded(ps, lo, hi, d, at, hi, c, q, i, layer);
    }
  }

  lemma NeededListed(ps: seq<PathProof>, lo: nat, hi: nat, d: nat, q: Path)
    requires hi <= |ps| && AllPart(ps) && InRange(ps, lo, hi, d) && lo + 1 < hi && lo < RightHalf(ps, lo, hi) < hi
    requires d <= ForkDepth(ps, lo, hi) < |Bits(ps[lo])| && Needed(ps, lo, hi, d, q)
    ensures var c, at := ForkDepth(ps, lo, hi), RightHalf(ps, lo, hi);
            || (exists layer | d < layer <= c :: q == Sib(Bits(ps[lo]), layer))
            || Needed(ps, lo, at, c + 1, q) || Needed(ps, at, hi, c + 1, q)
  {
    hide SharedFrom, FirstOne, AllPart, InRange, ForkDepth, RightHalf;
    var c, at := ForkDepth(ps, lo, hi), RightHalf(ps, lo, hi);
    var i: nat, layer: nat :| NeededBy(ps, lo, hi, d, q, i, layer);
    Side(ps, lo, hi, d, i);
    if layer <= c {
      assert Bits(ps[i])[..layer] == Bits(ps[i])[..c][..layer] == Bits(ps[lo])[..c][..layer] == Bits(ps[lo])[..layer];
      SameSib(Bits(ps[i]), Bits(ps[lo]), layer);
    } else if layer == c + 1 {
      var j := ForkCovered(ps, lo, hi, d, i);
    } else if i < at {
      NeededInHalf(ps, lo, hi, d, lo, at, c, q, i, layer);
    } else {
      NeededInHalf(ps, lo, hi, d, at, hi, c, q, i, layer);
    }
  }

  lemma SameSib(a: Path, b: Path, layer: nat)
    requires 0 < layer <= |a| && layer <= |b| && a[..layer] == b[..layer]
    ensures Sib(a, layer) == Sib(b, layer)
  {
    assert a[..layer - 1] == a[..layer][..layer - 1] && b[..layer - 1] == b[..layer][..layer - 1];
    assert a[layer - 1] == a[..layer][layer - 1] && b[layer - 1] == b[..layer][layer - 1];
  }

  // ----- nothing listed twice

  ghost predicate NoRepeat(s: seq<Path>) {
    forall i, j | 0 <= i < j < |s| :: s[i] != s[j]
  }

  /** Positions listed for a half lie strictly below the fork, on that half's side. */
  lemma HalfShape(ps: seq<PathProof>, lo: nat, hi: nat, d: nat, a: nat, b: nat, i: nat)
    requires AllPart(ps) && InRange(ps, lo, hi, d) && lo + 1 < hi && lo <= a < b <= hi
    requires InRange(ps, a, b, ForkDepth(ps, lo, hi) + 1)
    requires (a == lo && b == RightHalf(ps, lo, hi)) || (a == RightHalf(ps, lo, hi) && b == hi)
    requires i < |Positions(ps, a, b, ForkDepth(ps, lo, hi) + 1)|
    ensures var c := ForkDepth(ps, lo, hi);
            var q := Positions(ps, a, b, c + 1)[i];
            |q| > c + 1 && q[c] == (a != lo)
  {
    HalvesInRange(ps, lo, hi, d);
    hide AllPart, InRange, Positions, ForkDepth, RightHalf;
    var c := ForkDepth(ps, lo, hi);
    var below := c + 1;
    var q := Positions(ps, a, b, below)[i];
    ListedIffNeeded(ps, a, b, below, q);
    var j: nat, layer: nat :| NeededBy(ps, a, b, below, q, j, layer);
    Side(ps, lo, hi, d, j);
  }

  lemma {:induction false} ListedOnce(ps: seq<PathProof>, lo: nat, hi: nat, d: nat)
    requires AllPart(ps) && InRange(ps, lo, hi, d)
    ensures NoRepeat(Positions(ps, lo, hi, d))
    decreases hi - lo
  {
    hide AllPart, ForkDepth, RightHalf, SibsBetween, NoRepeat;
    if lo + 1 == hi {
      SibsDistinct(Bits(ps[lo]), d, Depth(ps[lo]));
    } else {
      hide InRange, Positions;
      PositionsFork(ps, lo, hi, d);
      var c, at := ForkDepth(ps, lo, hi), RightHalf(ps, lo, hi);
      SibsDistinct(Bits(ps[lo]), d, c);
      ListedOnce(ps, lo, at, c + 1);
      ListedOnce(ps, at, hi, c + 1);
      var left, right := Positions(ps, lo, at, c + 1), Positions(ps, at, hi, c + 1);
      forall i | 0 <= i < |left| ensures |left[i]| > c + 1 && !left[i][c] { HalfShape(ps, lo, hi, d, lo, at, i); }
      forall i | 0 <= i < |right| ensures |right[i]| > c + 1 && right[i][c] { HalfShape(ps, lo, hi, d, at, hi, i); }
      ThreeParts(SibsBetween(Bits(ps[lo]), d, c), left, right, c);
    }
  }

  lemma SibsDistinct(p: Path, lo: nat, hi: nat)
    requires lo <= hi <= |p|
    ensures NoRepeat(SibsBetween(p, lo, hi))
  {
    var s := SibsBetween(p, lo, hi);
    forall i, j | 0 <= i < j < |s| ensures s[i] != s[j] {
      assert |s[i]| == lo + 1 + i && |s[j]| == lo + 1 + j;
    }
  }

  lemma ThreeParts(common: seq<Path>, left: seq<Path>, right: seq<Path>, c: nat)
    requires NoRepeat(common) && NoRepeat(left) && NoRepeat(right)
    requires forall i | 0 <= i < |common| :: |common[i]| <= c
    requires forall i | 0 <= i < |left| :: |left[i]| > c + 1 && !left[i][c]
    requires forall i | 0 <= i < |right| :: |right[i]| > c + 1 && right[i][c]
    ensures NoRepeat(common + left + right)
  {
    var s := common + left + right;
    forall i, j | 0 <= i < j < |s| ensures s[i] != s[j] {
      if i < |common| {
      } else if j < |common| + |left| {
        assert s[i] == left[i - |common|] && s[j] == left[j - |common|];
      } else if i < |common| + |left| {
        assert s[i] == left[i - |common|] && s[j] == right[j - |common| - |left|];
      } else {
        assert s[i] == right[i - |common| - |left|] && s[j] == right[j - |common| - |left|];
      }
    }
  }

  /** The whole list: every position that hangs off a proven path and has no proven path through it,
      each once, holding its canonical node. */
  lemma MinimalSiblings(m: State, ps: seq<PathProof>, q: Path)
    requires ps != [] && FromTrie(ps, Root(m))
    ensures AllPart(ps) && InRange(ps, 0, |ps|, 0)
    ensures NodesAt(m, Layout(ps, 0, |ps|, 0), Positions(ps, 0, |ps|, 0))
    ensures NoRepeat(Positions(ps, 0, |ps|, 0))
    ensures q in Positions(ps, 0, |ps|, 0) <==> Needed(ps, 0, |ps|, 0, q)
  {
    hide FromTrie, Layout, Positions, Sub;
    FromTrieParts(ps, Root(m));
    AllInRange(ps);
    LayoutNodes(m, ps, 0, |ps|, 0);
    ListedOnce(ps, 0, |ps|, 0);
    ListedIffNeeded(ps, 0, |ps|, 0, q);
  }

  // ----- the verifier's ranges tile the list

  ghost function Within(x: nat, start: nat, end: nat): nat { if start <= x < end then 1 else 0 }

  /** How many unique ranges, and how many common ranges, contain the index `x`. */
  ghost function UniqueHits(inner: seq<VerifiedMultiPath>, x: nat): nat {
    if inner == [] then 0
    else Within(x, inner[0].uniqueStart, inner[0].uniqueEnd) + UniqueHits(inner[1..], x)
  }

  ghost function CommonHits(bisections: seq<VerifiedBisection>, x: nat): nat {
    if bisections == [] then 0
    else Within(x, bisections[0].commonStart, bisections[0].commonEnd) + CommonHits(bisections[1..], x)
  }

  lemma {:induction false} UniqueHitsConcat(a: seq<VerifiedMultiPath>, b: seq<VerifiedMultiPath>, x: nat)
    ensures UniqueHits(a + b, x) == UniqueHits(a, x) + UniqueHits(b, x)
  {
    if a == [] {
      assert a + b == b;
    } else {
      assert (a + b)[1..] == a[1..] + b;
      UniqueHitsConcat(a[1..], b, x);
    }
  }

  lemma {:induction false} CommonHitsConcat(a: seq<VerifiedBisection>, b: seq<VerifiedBisection>, x: nat)
    ensures CommonHits(a + b, x) == CommonHits(a, x) + CommonHits(b, x)
  {
    if a == [] {
      assert a + b == b;
    } else {
      assert (a + b)[1..] == a[1..] + b;
      CommonHitsConcat(a[1..], b, x);
    }
  }

  /** Whatever range hashes, each sibling it used lies in exactly one of the ranges it recorded. */
  lemma {:induction false} RangesTile(d: nat, paths: seq<MultiPathProof>, lo: nat, hi: nat,
                                      siblings: seq<Node>, offset: nat, x: nat)
    requires lo <= hi <= |paths| && offset <= |siblings|
    requires VerifyRange(d, paths, lo, hi, siblings, offset).Hashed?
    ensures var r := VerifyRange(d, paths, lo, hi, siblings, offset);
            UniqueHits(r.inner, x) + CommonHits(r.bisections, x) == Within(x, offset, offset + r.used)
    decreases hi - lo
  {
    hide VerifyRange, HashPath, ForkOf, UniqueHits, CommonHits;
    if hi <= lo + 1 {
      SmallTile(d, paths, lo, hi, siblings, offset, x);
    } else {
      var n, at, left, right := RangeUnfold(d, paths, lo, hi, siblings, offset);
      RangesTile(d + n + 1, paths, lo, at, siblings, offset + n, x);
      RangesTile(d + n + 1, paths, at, hi, siblings, offset + n + left.used, x);
      var here := Bisection(d, offset, n);
      UniqueHitsConcat(left.inner, right.inner, x);
      CommonHitsConcat(here + left.bisections, right.bisections, x);
      CommonHitsConcat(here, left.bisections, x);
      BisectionHits(d, offset, n, x);
    }
  }

  lemma BisectionHits(d: nat, offset: nat, n: nat, x: nat)
    ensures CommonHits(Bisection(d, offset, n), x) == Within(x, offset, offset + n)
  {
  }

  lemma SmallTile(d: nat, paths: seq<MultiPathProof>, lo: nat, hi: nat, siblings: seq<Node>, offset: nat, x: nat)
    requires lo <= hi <= |paths| && hi <= lo + 1 && offset <= |siblings|
    requires VerifyRange(d, paths, lo, hi, siblings, offset).Hashed?
    ensures var r := VerifyRange(d, paths, lo, hi, siblings, offset);
            UniqueHits(r.inner, x) + CommonHits(r.bisections, x) == Within(x, offset, offset + r.used)
  {
    hide HashPath;
  }

  /** In every accepted multi-proof each sibling belongs to exactly one unique or common range. */
  lemma SiblingsTiled(proof: MultiProof, root: Node, x: nat)
    requires VerifyMulti(proof, root).Accepted? && x < |proof.siblings|
    ensures var v := VerifyMulti(proof, root).proof;
            UniqueHits(v.inner, x) + CommonHits(v.bisections, x) == 1
  {
    hide VerifyRange;
    RangesTile(0, proof.paths, 0, |proof.paths|, proof.siblings, 0, x);
  }

  // ----- the order of the ranges

  /** A range of siblings: shared by the paths below a fork, or of a single path. */
  datatype Part = Common(start: nat, end: nat) | Unique(start: nat, end: nat)

  /** The parts follow each other without a gap. */
  ghost predicate Chained(parts: seq<Part>, start: nat, end: nat) {
    if parts == [] then start == end
    else parts[0].start == start <= parts[0].end && Chained(parts[1..], parts[0].end, end)
  }

  /** The ranges of one kind. */
  ghost function Kind(parts: seq<Part>, unique: bool): seq<(nat, nat)> {
    if parts == [] then []
    else if parts[0].Unique? == unique then [(parts[0].start, parts[0].end)] + Kind(parts[1..], unique)
    else Kind(parts[1..], unique)
  }

  ghost function UniqueRanges(inner: seq<VerifiedMultiPath>): seq<(nat, nat)> {
    seq(|inner|, i requires 0 <= i < |inner| => (inner[i].uniqueStart, inner[i].uniqueEnd))
  }

  ghost function CommonRanges(bisections: seq<VerifiedBisection>): seq<(nat, nat)> {
    seq(|bisections|, i requires 0 <= i < |bisections| => (bisections[i].commonStart, bisections[i].commonEnd))
  }

  /** The parts are the recorded ranges, those of either kind in their order. */
  ghost predicate PartsOf(parts: seq<Part>, inner: seq<VerifiedMultiPath>, bisections: seq<VerifiedBisection>) {
    Kind(parts, true) == UniqueRanges(inner) && Kind(parts, false) == CommonRanges(bisections)
  }

  lemma {:induction false} ChainedConcat(a: seq<Part>, b: seq<Part>, start: nat, mid: nat, end: nat)
    requires Chained(a, start, mid) && Chained(b, mid, end)
    ensures Chained(a + b, start, end)
  {
    if a == [] {
      assert a + b == b;
    } else {
      ChainedConcat(a[1..], b, a[0].end, mid, end);
      assert (a + b)[1..] == a[1..] + b;
    }
  }

  lemma {:induction false} KindConcat(a: seq<Part>, b: seq<Part>, unique: bool)
    ensures Kind(a + b, unique) == Kind(a, unique) + Kind(b, unique)
  {
    if a == [] {
      assert a + b == b;
    } else {
      KindConcat(a[1..], b, unique);
      assert (a + b)[1..] == a[1..] + b && (a + b)[0] == a[0];
    }
  }

  lemma PartsConcat(a: seq<Part>, inner: seq<VerifiedMultiPath>, bisections: seq<VerifiedBisection>, b: seq<Part>,
                    inner': seq<VerifiedMultiPath>, bisections': seq<VerifiedBisection>, start: nat, mid: nat, end: nat)
    requires PartsOf(a, inner, bisections) && Chained(a, start, mid) && PartsOf(b, inner', bisections')
             && Chained(b, mid, end)
    ensures PartsOf(a + b, inner + inner', bisections + bisections') && Chained(a + b, start, end)
  {
    hide Kind, Chained;
    ChainedConcat(a, b, start, mid, end);
    KindConcat(a, b, true);
    KindConcat(a, b, false);
    assert UniqueRanges(inner + inner') == UniqueRanges(inner) + UniqueRanges(inner');
    assert CommonRanges(bisections + bisections') == CommonRanges(bisections) + CommonRanges(bisections');
  }

  lemma ForkPart(d: nat, offset: nat, n: nat) returns (parts: seq<Part>)
    ensures PartsOf(parts, [], Bisection(d, offset, n)) && Chained(parts, offset, offset + n)
  {
    parts := if n > 0 then [Common(offset, offset + n)] else [];
  }

  lemma SinglePart(d: nat, paths: seq<MultiPathProof>, lo: nat, hi: nat, siblings: seq<Node>, offset: nat)
    returns (parts: seq<Part>)
    requires lo <= hi <= |paths| && hi <= lo + 1 && offset <= |siblings| && (lo < hi || offset == 0)
    requires VerifyRange(d, paths, lo, hi, siblings, offset).Hashed?
    ensures var r := VerifyRange(d, paths, lo, hi, siblings, offset);
            PartsOf(parts, r.inner, r.bisections) && Chained(parts, offset, offset + r.used)
  {
    hide HashPath, PartsOf, Chained;
    var e := VerifyRange(d, paths, lo, hi, siblings, offset).inner[0];
    assert VerifyRange(d, paths, lo, hi, siblings, offset).inner == [e];
    parts := [Unique(e.uniqueStart, e.uniqueEnd)];
    OnePart(e);
  }

  lemma OnePart(e: VerifiedMultiPath)
    requires e.uniqueStart <= e.uniqueEnd
    ensures var parts := [Unique(e.uniqueStart, e.uniqueEnd)];
            PartsOf(parts, [e], []) && Chained(parts, e.uniqueStart, e.uniqueEnd)
  {
    var parts := [Unique(e.uniqueStart, e.uniqueEnd)];
    assert parts[1..] == [];
    assert UniqueRanges([e])[0] == (e.uniqueStart, e.uniqueEnd);
  }

  /** Whatever range hashes, the ranges it recorded lie end to end: what its paths share comes first, then
      all of the left half, then all of the right half. */
  lemma {:induction false} RangesInOrder(d: nat, paths: seq<MultiPathProof>, lo: nat, hi: nat, siblings: seq<Node>,
                                         offset: nat)
    returns (parts: seq<Part>)
    requires lo <= hi <= |paths| && offset <= |siblings| && (lo < hi || offset == 0)
    requires VerifyRange(d, paths, lo, hi, siblings, offset).Hashed?
    ensures var r := VerifyRange(d, paths, lo, hi, siblings, offset);
            PartsOf(parts, r.inner, r.bisections) && Chained(parts, offset, offset + r.used)
    decreases hi - lo
  {
    hide VerifyRange, HashPath, ForkOf, PartsOf, Chained;
    if hi <= lo + 1 {
      parts := SinglePart(d, paths, lo, hi, siblings, offset);
    } else {
      var n, at, left, right := RangeUnfold(d, paths, lo, hi, siblings, offset);
      var here := ForkPart(d, offset, n);
      var a := RangesInOrder(d + n + 1, paths, lo, at, siblings, offset + n);
      var b := RangesInOrder(d + n + 1, paths, at, hi, siblings, offset + n + left.used);
      PartsConcat(here, [], Bisection(d, offset, n), a, left.inner, left.bisections, offset, offset + n,
                  offset + n + left.used);
      PartsConcat(here + a, [] + left.inner, Bisection(d, offset, n) + left.bisections, b, right.inner,
                  right.bisections, offset, offset + n + left.used, offset + n + left.used + right.used);
      assert [] + left.inner + right.inner == left.inner + right.inner;
      parts := here + a + b;
    }
  }

  /** In every accepted multi-proof the unique and the common ranges, each in their order, interleave to
      run through the siblings from the first to the last. */
  lemma SiblingsInOrder(proof: MultiProof, root: Node) returns (parts: seq<Part>)
    requires VerifyMulti(proof, root).Accepted?
    ensures var v := VerifyMulti(proof, root).proof;
            PartsOf(parts, v.inner, v.bisections) && Chained(parts, 0, |proof.siblings|)
  {
    hide VerifyRange, PartsOf, Chained;
    parts := RangesInOrder(0, proof.paths, 0, |proof.paths|, proof.siblings, 0);
  }
}
