/** Multi-proofs: many path proofs of one trie compressed into their terminals and the siblings that
    cannot be rebuilt, verified by recursive bisection. */
module MultiProofs {
  import opened Wrappers
  import opened Trie
  import opened PathProofs

  datatype MultiPathProof = MultiPathProof(terminal: Terminal, depth: nat) {
    function Bits(): Position { terminal.Bits() }
  }

  datatype MultiProof = MultiProof(paths: seq<MultiPathProof>, siblings: seq<Node>)

  datatype VerifiedMultiPath = VerifiedMultiPath(terminal: Terminal, depth: nat, uniqueStart: nat, uniqueEnd: nat) {
    function Bits(): Position { terminal.Bits() }
  }

  datatype VerifiedBisection = VerifiedBisection(startDepth: nat, commonStart: nat, commonEnd: nat)

  datatype VerifiedMultiProof = VerifiedMultiProof(
    inner: seq<VerifiedMultiPath>, bisections: seq<VerifiedBisection>, siblings: seq<Node>, root: Node)

  datatype MultiError = MultiRootMismatch | MultiPathsOutOfOrder | MultiTooManySiblings

  /** The verifier indexes out of bounds on some malformed inputs: that is an outcome of its own. */
  datatype Verdict = Accepted(proof: VerifiedMultiProof) | Rejected(error: MultiError) | Panics

  datatype RangeResult =
    | Hashed(node: Node, used: nat, inner: seq<VerifiedMultiPath>, bisections: seq<VerifiedBisection>)
    | RangePanics

  ghost predicate Precedes(paths: seq<MultiPathProof>, i: nat, j: nat)
    requires i < |paths| && j < |paths|
  {
    Less(paths[i].Bits(), paths[j].Bits())
  }

  ghost predicate Sorted(paths: seq<MultiPathProof>) {
    forall i, j | 0 <= i < j < |paths| :: Precedes(paths, i, j)
  }

  /** The paths from `lo` up to `hi` start with `q`. */
  ghost predicate AllUnder(paths: seq<MultiPathProof>, lo: nat, hi: nat, q: Path)
    requires hi <= |paths|
  {
    forall i | lo <= i < hi :: Covers(q, paths[i].Bits())
  }

  /** The first path from `lo` on whose bit at `depth` is set. */
  function FirstOne(paths: seq<MultiPathProof>, lo: nat, hi: nat, depth: nat): (at: nat)
    requires lo <= hi <= |paths|
    ensures lo <= at <= hi
    ensures forall i | lo <= i < at :: depth < |paths[i].Bits()| ==> !paths[i].Bits()[depth]
    ensures at < hi ==> depth < |paths[at].Bits()| && paths[at].Bits()[depth]
    decreases hi - lo
  {
    if lo == hi || (depth < |paths[lo].Bits()| && paths[lo].Bits()[depth]) then lo
    else FirstOne(paths, lo + 1, hi, depth)
  }

  lemma SharedFromDepth(a: Path, b: Path, d: nat)
    requires d <= |a| && Covers(a[..d], b)
    ensures d <= |b| && SharedBits(a, b) == d + SharedBits(a[d..], b[d..])
  {
    var n := SharedBits(a[d..], b[d..]);
    assert a[..d + n] == a[..d] + a[d..][..n] && b[..d + n] == b[..d] + b[d..][..n];
    SharedBitsIs(a, b, d + n);
  }

  /** What the first and the last path of a range share, all paths in between share; and they go on
      past that point unless the first one ends there. */
  lemma Squeezed(paths: seq<MultiPathProof>, lo: nat, hi: nat, i: nat)
    requires Sorted(paths) && lo <= i < hi <= |paths|
    ensures var c := SharedBits(paths[lo].Bits(), paths[hi - 1].Bits());
            && Covers(paths[lo].Bits()[..c], paths[i].Bits())
            && (c < |paths[lo].Bits()| ==> c < |paths[i].Bits()|)
  {
    var a, b, z := paths[lo].Bits(), paths[i].Bits(), paths[hi - 1].Bits();
    var c := SharedBits(a, z);
    if lo < hi - 1 { assert Precedes(paths, lo, hi - 1); }
    if lo < i { assert Precedes(paths, lo, i); }
    if lo < i < hi - 1 {
      assert Precedes(paths, i, hi - 1);
      SharedBitsBetween(a, b, z);
      assert b[..c] == b[..SharedBits(a, b)][..c] == a[..SharedBits(a, b)][..c] == a[..c];
    }
  }

  lemma StaysSet(paths: seq<MultiPathProof>, at: nat, i: nat, c: nat)
    requires Sorted(paths) && at <= i < |paths|
    requires c < |paths[at].Bits()| && c < |paths[i].Bits()| && paths[at].Bits()[c]
    requires paths[at].Bits()[..c] == paths[i].Bits()[..c]
    ensures paths[i].Bits()[c]
  {
    if at < i {
      assert Precedes(paths, at, i);
      SharedBitsIs(paths[at].Bits(), paths[i].Bits(), c);
    }
  }

  /** A sorted range of two or more paths forks into two non-empty halves, unless its first path
      ends at the fork. */
  lemma ForkFacts(paths: seq<MultiPathProof>, lo: nat, hi: nat)
    requires Sorted(paths) && lo + 1 < hi <= |paths|
    ensures var first, last := paths[lo].Bits(), paths[hi - 1].Bits();
            var c := SharedBits(first, last);
            && c < |last|
            && (c < |first| ==>
                  var at := FirstOne(paths, lo, hi, c);
                  && lo < at < hi
                  && AllUnder(paths, lo, at, first[..c] + [false])
                  && AllUnder(paths, at, hi, first[..c] + [true]))
  {
    var first, last := paths[lo].Bits(), paths[hi - 1].Bits();
    var c := SharedBits(first, last);
    assert Precedes(paths, lo, hi - 1);
    if c < |first| {
      var at := FirstOne(paths, lo, hi, c);
      forall i | lo <= i < hi ensures Covers(first[..c] + [at <= i], paths[i].Bits()) {
        Squeezed(paths, lo, hi, i);
        if at <= i {
          Squeezed(paths, lo, hi, at);
          StaysSet(paths, at, i, c);
        }
        assert paths[i].Bits()[..c + 1] == paths[i].Bits()[..c] + [at <= i];
      }
    }
  }

  /** A range of two or more paths: how many bits from `startDepth` its first and last path share,
      and where its right half begins; `None` where the code indexes out of bounds. */
  function ForkOf(startDepth: nat, paths: seq<MultiPathProof>, lo: nat, hi: nat,
                  available: nat): (r: Option<(nat, nat)>)
    requires lo + 1 < hi <= |paths|
    ensures r.Some? ==>
              r.value.0 <= available && lo < r.value.1 < hi && startDepth + r.value.0 < |paths[lo].Bits()|
  {
    var first, last := paths[lo].Bits(), paths[hi - 1].Bits();
    if |first| < startDepth || |last| < startDepth then None
    else
      var commonBits := SharedBits(first[startDepth..], last[startDepth..]);
      var at := FirstOne(paths, lo, hi, startDepth + commonBits);
      if |first| <= startDepth + commonBits || available < commonBits || !(lo < at < hi) then None
      else Some((commonBits, at))
  }

  /** The result for a whole range from those of its halves. */
  function JoinRanges(startDepth: nat, offset: nat, common: Path, commonSiblings: seq<Node>,
                      left: RangeResult, right: RangeResult): RangeResult
    requires |common| == |commonSiblings| && left.Hashed? && right.Hashed?
  {
    Hashed(HashPath(Internal(left.node, right.node), common, commonSiblings),
           |common| + left.used + right.used,
           left.inner + right.inner,
           Bisection(startDepth, offset, |common|) + left.bisections + right.bisections)
  }

  function Bisection(startDepth: nat, offset: nat, commonBits: nat): seq<VerifiedBisection> {
    if commonBits > 0 then [VerifiedBisection(startDepth, offset, offset + commonBits)] else []
  }

  /** Hash the paths from `lo` up to `hi`, all below one position at depth `startDepth`, using the
      siblings from index `offset` on. */
  function VerifyRange(startDepth: nat, paths: seq<MultiPathProof>, lo: nat, hi: nat,
                       siblings: seq<Node>, offset: nat): (r: RangeResult)
    requires lo <= hi <= |paths| && offset <= |siblings|
    ensures r.Hashed? ==> offset + r.used <= |siblings|
    decreases hi - lo
  {
    if lo == hi then
      Hashed(Terminator, 0, [VerifiedMultiPath(TerminatorTerminal([]), 0, 0, 0)], [])
    else if lo + 1 == hi then
      var t := paths[lo];
      if t.depth < startDepth || |t.Bits()| < t.depth || |siblings| - offset < t.depth - startDepth then RangePanics
      else
        var uniqueEnd := offset + (t.depth - startDepth);
        Hashed(HashPath(t.terminal.ToNode(), t.Bits()[startDepth..t.depth], siblings[offset..uniqueEnd]),
               t.depth - startDepth,
               [VerifiedMultiPath(t.terminal, t.depth, offset, uniqueEnd)], [])
    else
      match ForkOf(startDepth, paths, lo, hi, |siblings| - offset)
      case None => RangePanics
      case Some((n, at)) =>
        var left := VerifyRange(startDepth + n + 1, paths, lo, at, siblings, offset + n);
        if left.RangePanics? then RangePanics
        else
          var right := VerifyRange(startDepth + n + 1, paths, at, hi, siblings, offset + n + left.used);
          if right.RangePanics? then RangePanics
          else
            JoinRanges(startDepth, offset, paths[lo].Bits()[startDepth..startDepth + n],
                       siblings[offset..offset + n], left, right)
  }

  /** The parts of a range of two or more paths that hashes: `n` common siblings, then two halves. */
  ghost predicate SplitsAs(d: nat, paths: seq<MultiPathProof>, lo: nat, hi: nat, siblings: seq<Node>, offset: nat,
                           n: nat, at: nat, left: RangeResult, right: RangeResult)
    requires lo + 1 < hi <= |paths| && offset <= |siblings|
  {
    && d + n < |paths[lo].Bits()| && lo < at < hi && offset + n <= |siblings|
    && left == VerifyRange(d + n + 1, paths, lo, at, siblings, offset + n)
    && left.Hashed?
    && right == VerifyRange(d + n + 1, paths, at, hi, siblings, offset + n + left.used)
    && right.Hashed?
    && VerifyRange(d, paths, lo, hi, siblings, offset)
       == JoinRanges(d, offset, paths[lo].Bits()[d..d + n], siblings[offset..offset + n], left, right)
  }

  lemma RangeUnfold(d: nat, paths: seq<MultiPathProof>, lo: nat, hi: nat, siblings: seq<Node>, offset: nat)
    returns (n: nat, at: nat, left: RangeResult, right: RangeResult)
    requires lo + 1 < hi <= |paths| && offset <= |siblings|
    requires VerifyRange(d, paths, lo, hi, siblings, offset).Hashed?
    ensures ForkOf(d, paths, lo, hi, |siblings| - offset) == Some((n, at))
    ensures SplitsAs(d, paths, lo, hi, siblings, offset, n, at, left, right)
  {
    hide ForkOf, JoinRanges, HashPath;
    var fork := ForkOf(d, paths, lo, hi, |siblings| - offset).value;
    n, at := fork.0, fork.1;
    left := VerifyRange(d + n + 1, paths, lo, at, siblings, offset + n);
    right := VerifyRange(d + n + 1, paths, at, hi, siblings, offset + n + left.used);
  }

  /** A sorted range below `q` that hashes splits into two ranges below the two children of one node. */
  lemma RangeSplit(d: nat, paths: seq<MultiPathProof>, lo: nat, hi: nat, siblings: seq<Node>, offset: nat, q: Path)
    returns (n: nat, at: nat, left: RangeResult, right: RangeResult)
    requires Sorted(paths) && lo + 1 < hi <= |paths| && |q| == d && AllUnder(paths, lo, hi, q)
    requires offset <= |siblings| && VerifyRange(d, paths, lo, hi, siblings, offset).Hashed?
    ensures SplitsAs(d, paths, lo, hi, siblings, offset, n, at, left, right)
    ensures paths[lo].Bits()[..d] == q
    ensures AllUnder(paths, lo, at, paths[lo].Bits()[..d + n] + [false])
    ensures AllUnder(paths, at, hi, paths[lo].Bits()[..d + n] + [true])
  {
    hide VerifyRange, SharedFrom, FirstOne, HashPath, JoinRanges;
    n, at, left, right := RangeUnfold(d, paths, lo, hi, siblings, offset);
    assert Covers(q, paths[lo].Bits()) && Covers(q, paths[hi - 1].Bits());
    assert paths[lo].Bits()[..d] == q;
    SharedFromDepth(paths[lo].Bits(), paths[hi - 1].Bits(), d);
    ForkFacts(paths, lo, hi);
  }

  // ----- soundness

  /** The entry repeats the path, whose terminal is truly at that depth. */
  ghost predicate TrueAt(m: State, path: MultiPathProof, v: VerifiedMultiPath, d: nat) {
    && v.terminal == path.terminal && v.depth == path.depth
    && d <= v.depth <= |v.Bits()|
    && Sub(m, v.Bits()[..v.depth]) == v.terminal.ToNode()
  }

  /** The two proven paths part before either ends. */
  ghost predicate Parts(inner: seq<VerifiedMultiPath>, i: nat, j: nat)
    requires i < |inner| && j < |inner|
  {
    var s := SharedBits(inner[i].Bits(), inner[j].Bits());
    s < inner[i].depth && s < inner[j].depth && Less(inner[i].Bits(), inner[j].Bits())
  }

  ghost predicate AllTrue(m: State, paths: seq<MultiPathProof>, lo: nat, hi: nat,
                          inner: seq<VerifiedMultiPath>, d: nat)
    requires lo <= hi <= |paths|
  {
    && |inner| == hi - lo
    && (forall i | 0 <= i < |inner| :: TrueAt(m, paths[lo + i], inner[i], d))
    && (forall i, j | 0 <= i < j < |inner| :: Parts(inner, i, j))
  }

  lemma OppositeSides(a: Path, b: Path, q: Path)
    requires Covers(q + [false], a) && Covers(q + [true], b)
    ensures SharedBits(a, b) == |q| && Less(a, b)
  {
    assert a[..|q|] == (q + [false])[..|q|] == q && b[..|q|] == (q + [true])[..|q|] == q;
    SharedBitsIs(a, b, |q|);
  }

  lemma AllTrueJoin(m: State, paths: seq<MultiPathProof>, lo: nat, at: nat, hi: nat, q: Path, d: nat,
                    l: seq<VerifiedMultiPath>, r: seq<VerifiedMultiPath>)
    requires lo <= at <= hi <= |paths| && d <= |q| + 1
    requires AllTrue(m, paths, lo, at, l, |q| + 1) && AllUnder(paths, lo, at, q + [false])
    requires AllTrue(m, paths, at, hi, r, |q| + 1) && AllUnder(paths, at, hi, q + [true])
    ensures AllTrue(m, paths, lo, hi, l + r, d)
  {
    hide Sub, SharedBits;
    var all := l + r;
    forall i | 0 <= i < |all| ensures TrueAt(m, paths[lo + i], all[i], d) {
      if i < |l| { assert TrueAt(m, paths[lo + i], l[i], |q| + 1); }
      else { assert TrueAt(m, paths[at + (i - |l|)], r[i - |l|], |q| + 1); }
    }
    forall i, j | 0 <= i < j < |all| ensures Parts(all, i, j) {
      if j < |l| {
        assert Parts(l, i, j);
      } else if |l| <= i {
        assert Parts(r, i - |l|, j - |l|);
      } else {
        assert TrueAt(m, paths[lo + i], l[i], |q| + 1) && TrueAt(m, paths[at + (j - |l|)], r[j - |l|], |q| + 1);
        OppositeSides(all[i].Bits(), all[j].Bits(), q);
      }
    }
  }

  /** A range that hashes to the canonical node at its position holds only true terminals. */
  lemma {:induction false} RangeSound(m: State, d: nat, paths: seq<MultiPathProof>, lo: nat, hi: nat,
                                      siblings: seq<Node>, offset: nat, q: Path)
    requires Sorted(paths) && lo < hi <= |paths| && |q| == d <= KEY_BITS && AllUnder(paths, lo, hi, q)
    requires offset <= |siblings|
    requires var r := VerifyRange(d, paths, lo, hi, siblings, offset); r.Hashed? && r.node == Sub(m, q)
    ensures AllTrue(m, paths, lo, hi, VerifyRange(d, paths, lo, hi, siblings, offset).inner, d)
    decreases hi - lo
  {
    hide Sub, Sorted, SharedFrom, ForkOf, HashPath, VerifyRange, Parts;
    if lo + 1 == hi {
      SingleSound(m, d, paths, lo, siblings, offset, q);
    } else {
      var n, at, left, right := RangeSplit(d, paths, lo, hi, siblings, offset, q);
      ForkSound(m, paths[lo].Bits(), d, n, left.node, right.node, siblings[offset..offset + n]);
      var p := paths[lo].Bits()[..d + n];
      RangeSound(m, d + n + 1, paths, lo, at, siblings, offset + n, p + [false]);
      RangeSound(m, d + n + 1, paths, at, hi, siblings, offset + n + left.used, p + [true]);
      AllTrueJoin(m, paths, lo, at, hi, p, d, left.inner, right.inner);
    }
  }

  lemma SingleSound(m: State, d: nat, paths: seq<MultiPathProof>, lo: nat, siblings: seq<Node>, offset: nat, q: Path)
    requires lo < |paths| && |q| == d <= KEY_BITS && AllUnder(paths, lo, lo + 1, q) && offset <= |siblings|
    requires var r := VerifyRange(d, paths, lo, lo + 1, siblings, offset); r.Hashed? && r.node == Sub(m, q)
    ensures AllTrue(m, paths, lo, lo + 1, VerifyRange(d, paths, lo, lo + 1, siblings, offset).inner, d)
  {
    hide Sub, HashPath, Parts;
    var t := paths[lo];
    assert Covers(q, t.Bits());
    assert t.Bits()[..d] == q;
    TerminalSound(m, t, d, siblings[offset..offset + (t.depth - d)]);
  }

  lemma ForkSound(m: State, bits: Position, d: nat, n: nat, l: Node, r: Node, siblings: seq<Node>)
    requires |siblings| == n && d + n < |bits|
    requires HashPath(Internal(l, r), bits[d..d + n], siblings) == Sub(m, bits[..d])
    ensures l == Sub(m, bits[..d + n] + [false]) && r == Sub(m, bits[..d + n] + [true])
  {
    hide Sub, OnPath, HashPath;
    var p := bits[..d + n];
    assert p[..d] == bits[..d] && p[d..] == bits[d..d + n];
    HashPathExact(m, p, d, Internal(l, r), siblings);
    OnPathAt(m, p, d, Internal(l, r), siblings, d);
    SubKind(m, p);
  }

  lemma TerminalSound(m: State, t: MultiPathProof, d: nat, siblings: seq<Node>)
    requires d <= t.depth <= |t.Bits()| && |siblings| == t.depth - d
    requires HashPath(t.terminal.ToNode(), t.Bits()[d..t.depth], siblings) == Sub(m, t.Bits()[..d])
    ensures Sub(m, t.Bits()[..t.depth]) == t.terminal.ToNode()
  {
    hide Sub, OnPath, HashPath;
    var p := t.Bits()[..t.depth];
    assert p[..d] == t.Bits()[..d] && p[d..] == t.Bits()[d..t.depth];
    HashPathExact(m, p, d, t.terminal.ToNode(), siblings);
    OnPathAt(m, p, d, t.terminal.ToNode(), siblings, d);
  }

  /** The order check: each path strictly above the one before it. */
  predicate InOrder(paths: seq<MultiPathProof>) {
    forall i | 0 < i < |paths| :: Less(paths[i - 1].Bits(), paths[i].Bits())
  }

  lemma {:induction false} InOrderSorted(paths: seq<MultiPathProof>, i: nat, j: nat)
    requires InOrder(paths) && i < j < |paths|
    ensures Precedes(paths, i, j)
  {
    if i + 1 < j {
      InOrderSorted(paths, i, j - 1);
      SharedBitsBetween(paths[i].Bits(), paths[j - 1].Bits(), paths[j].Bits());
    }
  }

  function VerifyMulti(proof: MultiProof, root: Node): Verdict {
    if !InOrder(proof.paths) then Rejected(MultiPathsOutOfOrder)
    else
      var r := VerifyRange(0, proof.paths, 0, |proof.paths|, proof.siblings, 0);
      if r.RangePanics? then Panics
      else if root != r.node then Rejected(MultiRootMismatch)
      else if r.used != |proof.siblings| then Rejected(MultiTooManySiblings)
      else Accepted(VerifiedMultiProof(r.inner, r.bisections, proof.siblings, root))
  }

  /** The terminals of an accepted multi-proof; an empty one proves the empty trie. */
  function ProvenPaths(proof: MultiProof): seq<MultiPathProof> {
    if proof.paths == [] then [MultiPathProof(TerminatorTerminal([]), 0)] else proof.paths
  }

  /** Whatever multi-proof is accepted against a canonical root, its terminals are the true ones and
      its paths part pairwise. */
  lemma VerifyMultiSound(m: State, proof: MultiProof)
    requires VerifyMulti(proof, Root(m)).Accepted?
    ensures AllTrue(m, ProvenPaths(proof), 0, |ProvenPaths(proof)|, VerifyMulti(proof, Root(m)).proof.inner, 0)
  {
    hide Sub;
    if proof.paths != [] {
      forall i, j | 0 <= i < j < |proof.paths| ensures Precedes(proof.paths, i, j) {
        InOrderSorted(proof.paths, i, j);
      }
      RangeSound(m, 0, proof.paths, 0, |proof.paths|, proof.siblings, 0, []);
    }
  }

  // ----- answering from a verified multi-proof

  predicate PathCovers(v: VerifiedMultiPath, key: Key)
    requires v.depth <= |v.Bits()|
  {
    v.Bits()[..v.depth] == key[..v.depth]
  }

  function ConfirmNonexistenceInner(v: VerifiedMultiProof, key: Key, index: nat): bool
    requires index < |v.inner|
  {
    match v.inner[index].terminal
    case TerminatorTerminal(_) => true
    case LeafTerminal(d) => d.keyPath != key
  }

  function ConfirmValueInner(v: VerifiedMultiProof, expected: LeafData, index: nat): bool
    requires index < |v.inner|
  {
    match v.inner[index].terminal
    case TerminatorTerminal(_) => false
    case LeafTerminal(d) => d == expected
  }

  /** A path of an accepted multi-proof answers exactly for the keys it covers. */
  lemma ConfirmMultiExact(m: State, proof: MultiProof, key: Key, value: ValueHash, index: nat)
    requires VerifyMulti(proof, Root(m)).Accepted?
    requires var v := VerifyMulti(proof, Root(m)).proof;
             index < |v.inner| && v.inner[index].depth <= |v.inner[index].Bits()| && PathCovers(v.inner[index], key)
    ensures var v := VerifyMulti(proof, Root(m)).proof;
            && (ConfirmValueInner(v, LeafData(key, value), index) <==> key in m && m[key] == value)
            && (ConfirmNonexistenceInner(v, key, index) <==> key !in m)
  {
    hide Sub, VerifyRange;
    VerifyMultiSound(m, proof);
    var v := VerifyMulti(proof, Root(m)).proof.inner[index];
    assert TrueAt(m, ProvenPaths(proof)[0 + index], v, 0);
    SubKind(m, v.Bits()[..v.depth]);
    assert Covers(v.Bits()[..v.depth], key);
  }

  /** How a proven path compares with the same-length prefix of the key. */
  datatype Order = Below | Equal | Above

  function Compare(v: VerifiedMultiPath, key: Key): Order
    requires v.depth <= |v.Bits()|
  {
    if PathCovers(v, key) then Equal
    else if Less(v.Bits()[..v.depth], key[..v.depth]) then Below
    else Above
  }

  ghost predicate Separated(inner: seq<VerifiedMultiPath>) {
    && (forall i | 0 <= i < |inner| :: inner[i].depth <= |inner[i].Bits()|)
    && (forall i, j | 0 <= i < j < |inner| :: Parts(inner, i, j))
  }

  /** Once a path is not below the key, all later ones are above it. */
  lemma CompareMonotone(inner: seq<VerifiedMultiPath>, i: nat, j: nat, key: Key)
    requires Separated(inner) && i < j < |inner|
    ensures Compare(inner[i], key) != Below ==> Compare(inner[j], key) == Above
  {
    assert Parts(inner, i, j);
    var a, b := inner[i].Bits()[..inner[i].depth], inner[j].Bits()[..inner[j].depth];
    var s := SharedBits(inner[i].Bits(), inner[j].Bits());
    assert a[..s] == inner[i].Bits()[..s] == inner[j].Bits()[..s] == b[..s];
    assert !a[s] && b[s];
    if Compare(inner[i], key) != Below { CompareKeys(a, b, s, key); }
  }

  lemma CompareKeys(a: Path, b: Path, s: nat, key: Key)
    requires |a| <= KEY_BITS && |b| <= KEY_BITS && s < |a| && s < |b| && a[..s] == b[..s] && !a[s] && b[s]
    requires !Less(a, key[..|a|])
    ensures b != key[..|b|] && !Less(b, key[..|b|])
  {
    var k, k' := key[..|a|], key[..|b|];
    var n, n' := SharedBits(a, k), SharedBits(b, k');
    assert forall i | 0 <= i < s :: a[i] == a[..s][i] == b[i];
    assert forall i | 0 <= i < |a| :: k[i] == key[i];
    assert forall i | 0 <= i < |b| :: k'[i] == key[i];
    if n < s {
      SharedBitsIs(b, k', n);
    } else {
      SharedBitsIs(b, k', s);
    }
  }

  lemma CompareAround(inner: seq<VerifiedMultiPath>, mid: nat, key: Key)
    requires Separated(inner) && mid < |inner|
    ensures Compare(inner[mid], key) != Above ==> forall i | 0 <= i < mid :: Compare(inner[i], key) == Below
    ensures Compare(inner[mid], key) != Below ==> forall i | mid < i < |inner| :: Compare(inner[i], key) == Above
  {
    hide Compare;
    forall i | 0 <= i < mid ensures Compare(inner[mid], key) != Above ==> Compare(inner[i], key) == Below {
      CompareMonotone(inner, i, mid, key);
    }
    forall i | mid < i < |inner| ensures Compare(inner[mid], key) != Below ==> Compare(inner[i], key) == Above {
      CompareMonotone(inner, mid, i, key);
    }
  }

  /** Binary search over the proven paths: finds the one path covering the key, if there is one. */
  method FindIndexFor(v: VerifiedMultiProof, key: Key) returns (r: Result<nat, KeyOutOfScope>)
    requires Separated(v.inner)
    ensures r.Ok? ==>
              && r.value < |v.inner|
              && forall i | 0 <= i < |v.inner| :: PathCovers(v.inner[i], key) <==> i == r.value
    ensures r.Err? ==> forall i | 0 <= i < |v.inner| :: !PathCovers(v.inner[i], key)
  {
    hide Less, Parts, SharedFrom;
    var lo, hi := 0, |v.inner|;
    while lo < hi
      invariant 0 <= lo <= hi <= |v.inner|
      invariant forall i | 0 <= i < lo :: Compare(v.inner[i], key) == Below
      invariant forall i | hi <= i < |v.inner| :: Compare(v.inner[i], key) == Above
    {
      var mid := (lo + hi) / 2;
      CompareAround(v.inner, mid, key);
      match Compare(v.inner[mid], key) {
        case Equal => return Ok(mid);
        case Below => lo := mid + 1;
        case Above => hi := mid;
      }
    }
    r := Err(KeyOutOfScope);
  }

  /** The paths of an accepted multi-proof are separated. */
  lemma AcceptedSeparated(m: State, proof: MultiProof)
    requires VerifyMulti(proof, Root(m)).Accepted?
    ensures Separated(VerifyMulti(proof, Root(m)).proof.inner)
  {
    hide Sub, VerifyMulti, Parts;
    VerifyMultiSound(m, proof);
    var inner := VerifyMulti(proof, Root(m)).proof.inner;
    forall i | 0 <= i < |inner| ensures inner[i].depth <= |inner[i].Bits()| {
      assert TrueAt(m, ProvenPaths(proof)[0 + i], inner[i], 0);
    }
  }

  /** Some proven path covers the key. */
  ghost predicate InScope(v: VerifiedMultiProof, key: Key) {
    exists i | 0 <= i < |v.inner| :: CoversKey(v, i, key)
  }

  ghost predicate CoversKey(v: VerifiedMultiProof, i: nat, key: Key)
    requires i < |v.inner|
  {
    v.inner[i].depth <= |v.inner[i].Bits()| && PathCovers(v.inner[i], key)
  }

  /** Whether an accepted multi-proof shows that a key has the given value: it answers exactly for the
      keys in its scope, and truly. */
  method ConfirmValue(v: VerifiedMultiProof, expected: LeafData, ghost m: State, ghost proof: MultiProof)
    returns (r: Result<bool, KeyOutOfScope>)
    requires VerifyMulti(proof, Root(m)) == Accepted(v)
    ensures r.Ok? <==> InScope(v, expected.keyPath)
    ensures r.Ok? ==> (r.value <==> expected.keyPath in m && m[expected.keyPath] == expected.valueHash)
  {
    hide VerifyMulti, Sub, Parts, PathCovers;
    AcceptedSeparated(m, proof);
    var index := FindIndexFor(v, expected.keyPath);
    if index.Err? { return Err(index.error); }
    assert CoversKey(v, index.value, expected.keyPath);
    ConfirmMultiExact(m, proof, expected.keyPath, expected.valueHash, index.value);
    r := Ok(ConfirmValueInner(v, expected, index.value));
  }

  /** The same for the absence of a key. */
  method ConfirmNonexistence(v: VerifiedMultiProof, key: Key, ghost m: State, ghost proof: MultiProof)
    returns (r: Result<bool, KeyOutOfScope>)
    requires VerifyMulti(proof, Root(m)) == Accepted(v)
    ensures r.Ok? <==> InScope(v, key)
    ensures r.Ok? ==> (r.value <==> key !in m)
  {
    hide VerifyMulti, Sub, Parts, PathCovers;
    AcceptedSeparated(m, proof);
    var index := FindIndexFor(v, key);
    if index.Err? { return Err(index.error); }
    assert CoversKey(v, index.value, key);
    ConfirmMultiExact(m, proof, key, 0, index.value);
    r := Ok(ConfirmNonexistenceInner(v, key, index.value));
  }
}
