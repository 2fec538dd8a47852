/** Path proofs: hashing a terminal up to the root, what a verified proof confirms, and verifying a
    batch update from the proven paths alone. */
module PathProofs {
  import opened Wrappers
  import opened Trie
  import opened Update
  import opened Ops

  type Position = p: Path | |p| <= KEY_BITS

  datatype Terminal = LeafTerminal(data: LeafData) | TerminatorTerminal(position: Position) {
    /** Where the terminal lies. */
    function Bits(): Position {
      match this
      case LeafTerminal(d) => d.keyPath
      case TerminatorTerminal(p) => p
    }

    function AsLeaf(): Option<LeafData> {
      if LeafTerminal? then Some(data) else None
    }

    function ToNode(): Node { TerminalNode(AsLeaf()) }
  }

  function TerminalNode(leaf: Option<LeafData>): Node {
    if leaf.Some? then Leaf(leaf.value) else Terminator
  }

  /** Siblings are in descending order: the one nearest the root first. */
  datatype PathProof = PathProof(terminal: Terminal, siblings: seq<Node>)

  datatype VerificationError = TooManySiblings | RootMismatch

  datatype VerifiedPathProof =
    VerifiedPathProof(keyPath: Path, terminal: Option<LeafData>, siblings: seq<Node>, root: Node)

  datatype KeyOutOfScope = KeyOutOfScope

  // ----- hashing up

  /** The node over a path, given what hangs off it. */
  function HashPath(node: Node, path: Path, siblings: seq<Node>): Node
    requires |path| == |siblings|
  {
    if path == [] then node
    else Join(path[0], HashPath(node, path[1..], siblings[1..]), siblings[0]).Written()
  }

  function Reversed<T>(s: seq<T>): (r: seq<T>)
    ensures |r| == |s| && forall i | 0 <= i < |s| :: r[i] == s[|s| - 1 - i]
  {
    seq(|s|, i requires 0 <= i < |s| => s[|s| - 1 - i])
  }

  function Min(a: nat, b: nat): nat { if a < b then a else b }

  /** Hash up, bottom sibling first; consumes as much of the path as there are siblings for. */
  method HashUpwards(start: Node, path: Path, siblings: seq<Node>) returns (node: Node)
    ensures var n := Min(|path|, |siblings|);
            node == HashPath(start, path[|path| - n..], Reversed(siblings[..n]))
  {
    node := start;
    var n := Min(|path|, |siblings|);
    for i := 0 to n
      invariant node == HashPath(start, path[|path| - i..], Reversed(siblings[..i]))
    {
      assert path[|path| - i - 1..][1..] == path[|path| - i..];
      assert Reversed(siblings[..i + 1])[1..] == Reversed(siblings[..i]);
      node := Join(path[|path| - i - 1], node, siblings[i]).Written();
    }
  }

  /** From depth `d` down to `q` every node is internal, with the given siblings, and the
      sub-trie at `q` is `node`. */
  ghost predicate OnPath(m: State, q: Path, d: nat, node: Node, siblings: seq<Node>)
    requires d <= |q| <= KEY_BITS && |siblings| == |q| - d
    decreases |q| - d
  {
    if d == |q| then node == Sub(m, q)
    else
      && Sub(m, q[..d]).Internal?
      && siblings[0] == Sub(m, Sib(q, d + 1))
      && OnPath(m, q, d + 1, node, siblings[1..])
  }

  lemma {:induction false} OnPathAt(m: State, q: Path, d: nat, node: Node, siblings: seq<Node>, i: nat)
    requires d <= |q| <= KEY_BITS && |siblings| == |q| - d && OnPath(m, q, d, node, siblings)
    ensures node == Sub(m, q)
    ensures d <= i < |q| ==> Sub(m, q[..i]).Internal? && siblings[i - d] == Sub(m, Sib(q, i + 1))
    decreases |q| - d
  {
    hide Sub;
    if d < |q| { OnPathAt(m, q, d + 1, node, siblings[1..], i); }
  }

  /** A path hashes to the canonical node exactly when it is the true path. */
  lemma {:induction false} HashPathExact(m: State, q: Path, d: nat, node: Node, siblings: seq<Node>)
    requires d <= |q| <= KEY_BITS && |siblings| == |q| - d
    ensures HashPath(node, q[d..], siblings) == Sub(m, q[..d]) <==> OnPath(m, q, d, node, siblings)
    decreases |q| - d
  {
    hide Sub;
    if d == |q| {
      assert q[..d] == q;
    } else {
      HashPathExact(m, q, d + 1, node, siblings[1..]);
      SubKind(m, q[..d]);
      assert q[d..][1..] == q[d + 1..];
      assert q[..d + 1] == q[..d] + [q[d]];
    }
  }

  // ----- verification

  function Verify(proof: PathProof, keyPath: Path, root: Node): Result<VerifiedPathProof, VerificationError> {
    var n := |proof.siblings|;
    if n > Min(|keyPath|, KEY_BITS) then Err(TooManySiblings)
    else if HashPath(proof.terminal.ToNode(), keyPath[..n], proof.siblings) != root then Err(RootMismatch)
    else Ok(VerifiedPathProof(keyPath[..n], proof.terminal.AsLeaf(), proof.siblings, root))
  }

  /** Verifying by the loop: hash up from the terminal with the siblings taken from the last one on. */
  method VerifyPath(proof: PathProof, keyPath: Path, root: Node)
    returns (r: Result<VerifiedPathProof, VerificationError>)
    ensures r == Verify(proof, keyPath, root)
  {
    hide HashPath;
    var n := |proof.siblings|;
    if n > Min(|keyPath|, KEY_BITS) { return Err(TooManySiblings); }
    var relevant := keyPath[..n];
    var bottomUp := Reversed(proof.siblings);
    var node := HashUpwards(proof.terminal.ToNode(), relevant, bottomUp);
    assert relevant[0..] == relevant && bottomUp[..n] == bottomUp && Reversed(bottomUp) == proof.siblings;
    if node != root { return Err(RootMismatch); }
    r := Ok(VerifiedPathProof(relevant, proof.terminal.AsLeaf(), proof.siblings, root));
  }

  /** What every verified proof satisfies. */
  ghost predicate Verified(v: VerifiedPathProof) {
    && |v.keyPath| == |v.siblings| <= KEY_BITS
    && HashPath(TerminalNode(v.terminal), v.keyPath, v.siblings) == v.root
  }

  /** Against a canonical root, verification accepts the true lookups of the key and no others. */
  lemma VerifyExact(m: State, proof: PathProof, keyPath: Path)
    ensures var r := Verify(proof, keyPath, Root(m));
            var n := |proof.siblings|;
            && (r.Ok? <==> n <= Min(|keyPath|, KEY_BITS)
                           && OnPath(m, keyPath[..n], 0, proof.terminal.ToNode(), proof.siblings))
            && (r == Err(TooManySiblings) <==> n > Min(|keyPath|, KEY_BITS))
            && (r.Ok? ==> Verified(r.value) && r.value.root == Root(m))
  {
    var n := |proof.siblings|;
    if n <= Min(|keyPath|, KEY_BITS) {
      var q := keyPath[..n];
      HashPathExact(m, q, 0, proof.terminal.ToNode(), proof.siblings);
      assert q[0..] == q && q[..0] == [];
    }
  }

  predicate InScope(v: VerifiedPathProof, key: Key) { Covers(v.keyPath, key) }

  function ConfirmValue(v: VerifiedPathProof, expected: LeafData): Result<bool, KeyOutOfScope> {
    if InScope(v, expected.keyPath) then Ok(v.terminal == Some(expected)) else Err(KeyOutOfScope)
  }

  function ConfirmNonexistence(v: VerifiedPathProof, key: Key): Result<bool, KeyOutOfScope> {
    if InScope(v, key) then Ok(v.terminal.None? || v.terminal.value.keyPath != key) else Err(KeyOutOfScope)
  }

  lemma VerifiedOnPath(m: State, v: VerifiedPathProof)
    requires Verified(v) && v.root == Root(m)
    ensures OnPath(m, v.keyPath, 0, TerminalNode(v.terminal), v.siblings)
  {
    HashPathExact(m, v.keyPath, 0, TerminalNode(v.terminal), v.siblings);
    assert v.keyPath[0..] == v.keyPath && v.keyPath[..0] == [];
  }

  /** A verified proof answers exactly for every key in its scope. */
  lemma ConfirmExact(m: State, v: VerifiedPathProof, key: Key, value: ValueHash)
    requires Verified(v) && v.root == Root(m)
    ensures ConfirmValue(v, LeafData(key, value))
            == if Covers(v.keyPath, key) then Ok(key in m && m[key] == value) else Err(KeyOutOfScope)
    ensures ConfirmNonexistence(v, key)
            == if Covers(v.keyPath, key) then Ok(key !in m) else Err(KeyOutOfScope)
  {
    VerifiedOnPath(m, v);
    OnPathAt(m, v.keyPath, 0, TerminalNode(v.terminal), v.siblings, 0);
    SubKind(m, v.keyPath);
  }

  // ----- update verification

  datatype VerifyUpdateError =
    | PathsOutOfOrder | OpsOutOfOrder | OpOutOfScope | PathWithoutOps | UpdateRootMismatch

  datatype PathUpdate = PathUpdate(inner: VerifiedPathProof, ops: seq<KeyOp>) {
    function Bits(): Path { inner.keyPath }
  }

  /** The map after the operations of the first `n` paths. */
  ghost function ApplyPaths(m: State, paths: seq<PathUpdate>, n: nat): State
    requires n <= |paths|
  {
    if n == 0 then m else ApplyOps(ApplyPaths(m, paths, n - 1), paths[n - 1].ops)
  }

  /** The checks on one operation, and on one path. */
  function OpError(path: PathUpdate, j: nat): Option<VerifyUpdateError>
    requires j < |path.ops|
  {
    if j != 0 && !Less(path.ops[j - 1].0, path.ops[j].0) then Some(OpsOutOfOrder)
    else if !Covers(path.Bits(), path.ops[j].0) then Some(OpOutOfScope)
    else None
  }

  function PathError(prevRoot: Node, paths: seq<PathUpdate>, i: nat): Option<VerifyUpdateError>
    requires i < |paths|
  {
    if paths[i].inner.root != prevRoot then Some(UpdateRootMismatch)
    else if i != 0 && !Less(paths[i - 1].Bits(), paths[i].Bits()) then Some(PathsOutOfOrder)
    else if paths[i].ops == [] then Some(PathWithoutOps)
    else None
  }

  /** The first failing check, path by path and within a path operation by operation. */
  ghost function FirstOpError(path: PathUpdate, j: nat): Option<VerifyUpdateError>
    requires j <= |path.ops|
    decreases |path.ops| - j
  {
    if j == |path.ops| then None
    else if OpError(path, j).Some? then OpError(path, j)
    else FirstOpError(path, j + 1)
  }

  ghost function FirstError(prevRoot: Node, paths: seq<PathUpdate>, i: nat): Option<VerifyUpdateError>
    requires i <= |paths|
    decreases |paths| - i
  {
    if i == |paths| then None
    else if PathError(prevRoot, paths, i).Some? then PathError(prevRoot, paths, i)
    else if FirstOpError(paths[i], 0).Some? then FirstOpError(paths[i], 0)
    else FirstError(prevRoot, paths, i + 1)
  }

  method CheckPaths(prevRoot: Node, paths: seq<PathUpdate>) returns (error: Option<VerifyUpdateError>)
    ensures error == FirstError(prevRoot, paths, 0)
  {
    for i := 0 to |paths|
      invariant FirstError(prevRoot, paths, 0) == FirstError(prevRoot, paths, i)
    {
      error := PathError(prevRoot, paths, i);
      if error.Some? { return; }
      for j := 0 to |paths[i].ops|
        invariant FirstOpError(paths[i], 0) == FirstOpError(paths[i], j)
      {
        error := OpError(paths[i], j);
        if error.Some? { return; }
      }
    }
    error := None;
  }

  /** What the checks guarantee. */
  ghost predicate Acceptable(prevRoot: Node, paths: seq<PathUpdate>) {
    && (forall i | 0 <= i < |paths| ::
          paths[i].inner.root == prevRoot && OpsAscending(paths[i].ops) && OpsUnder(paths[i].ops, paths[i].Bits()))
    && (forall i, j | 0 <= i < j < |paths| :: PathBefore(paths, i, j))
    && (forall i | 0 <= i < |paths| :: paths[i].ops != [])
  }

  ghost predicate PathBefore(paths: seq<PathUpdate>, i: nat, j: nat)
    requires i < |paths| && j < |paths|
  {
    Less(paths[i].Bits(), paths[j].Bits())
  }

  lemma {:induction false} OpsChecked(path: PathUpdate, j: nat)
    requires j <= |path.ops| && FirstOpError(path, j).None?
    ensures forall i | j <= i < |path.ops| :: OpError(path, i).None?
    decreases |path.ops| - j
  {
    if j < |path.ops| { OpsChecked(path, j + 1); }
  }

  lemma {:induction false} PathsChecked(prevRoot: Node, paths: seq<PathUpdate>, i: nat)
    requires i <= |paths| && FirstError(prevRoot, paths, i).None?
    ensures forall j | i <= j < |paths| :: PathError(prevRoot, paths, j).None? && FirstOpError(paths[j], 0).None?
    decreases |paths| - i
  {
    if i < |paths| { PathsChecked(prevRoot, paths, i + 1); }
  }

  lemma {:induction false} OpsInOrder(path: PathUpdate, i: nat, j: nat)
    requires i < j < |path.ops| && forall n | 0 <= n < |path.ops| :: OpError(path, n).None?
    ensures OpBefore(path.ops, i, j)
  {
    assert OpError(path, j).None?;
    if i + 1 < j {
      OpsInOrder(path, i, j - 1);
      SharedBitsBetween(path.ops[i].0, path.ops[j - 1].0, path.ops[j].0);
    }
  }

  lemma {:induction false} PathsInOrder(prevRoot: Node, paths: seq<PathUpdate>, i: nat, j: nat)
    requires i < j < |paths| && forall n | 0 <= n < |paths| :: PathError(prevRoot, paths, n).None?
    ensures PathBefore(paths, i, j)
  {
    assert PathError(prevRoot, paths, j).None?;
    if i + 1 < j {
      PathsInOrder(prevRoot, paths, i, j - 1);
      SharedBitsBetween(paths[i].Bits(), paths[j - 1].Bits(), paths[j].Bits());
    }
  }

  lemma CheckedIsAcceptable(prevRoot: Node, paths: seq<PathUpdate>)
    requires FirstError(prevRoot, paths, 0).None?
    ensures Acceptable(prevRoot, paths)
  {
    PathsChecked(prevRoot, paths, 0);
    forall i, j | 0 <= i < j < |paths| ensures PathBefore(paths, i, j) { PathsInOrder(prevRoot, paths, i, j); }
    forall i | 0 <= i < |paths|
      ensures paths[i].inner.root == prevRoot && paths[i].ops != []
      ensures OpsAscending(paths[i].ops) && OpsUnder(paths[i].ops, paths[i].Bits())
    {
      assert PathError(prevRoot, paths, i).None?;
      OpsChecked(paths[i], 0);
      forall a, b | 0 <= a < b < |paths[i].ops| ensures OpBefore(paths[i].ops, a, b) { OpsInOrder(paths[i], a, b); }
      forall a | 0 <= a < |paths[i].ops| ensures Covers(paths[i].Bits(), paths[i].ops[a].0) {
        assert OpError(paths[i], a).None?;
      }
    }
  }

  /** Under one root no path to a terminal runs through another. */
  lemma {:induction false} NotPrefix(t: Node, p: Path, s: seq<Node>, t': Node, q: Path, s': seq<Node>)
    requires |p| == |s| && |q| == |s'| && !t.Internal? && p <= q
    requires HashPath(t, p, s) == HashPath(t', q, s')
    ensures p == q
  {
    if p != [] {
      assert p[1..] <= q[1..];
      NotPrefix(t, p[1..], s[1..], t', q[1..], s'[1..]);
    }
  }

  lemma PathsPart(prevRoot: Node, paths: seq<PathUpdate>, i: nat, j: nat)
    requires Acceptable(prevRoot, paths) && (forall n | 0 <= n < |paths| :: Verified(paths[n].inner))
    requires i < j < |paths|
    ensures SharedBits(paths[i].Bits(), paths[j].Bits()) < |paths[i].Bits()|
    ensures SharedBits(paths[i].Bits(), paths[j].Bits()) < |paths[j].Bits()|
  {
    var v, w := paths[i].inner, paths[j].inner;
    assert PathBefore(paths, i, j);
    if v.keyPath <= w.keyPath {
      NotPrefix(TerminalNode(v.terminal), v.keyPath, v.siblings, TerminalNode(w.terminal), w.keyPath, w.siblings);
    }
  }

  // ----- the frontier of finished left siblings

  /** `pending` holds, for the path `p` down to depth `hi`, the new node of every sibling it lists;
      the siblings it does not list are as they were in `m0`. */
  ghost predicate Frontier(m0: State, m: State, p: Path, hi: nat, pending: seq<(Node, nat)>)
    requires hi <= |p| <= KEY_BITS
  {
    if hi == 0 then pending == []
    else if pending != [] && pending[|pending| - 1].1 == hi then
      && p[hi - 1]
      && pending[|pending| - 1].0 == Sub(m, Sib(p, hi))
      && Frontier(m0, m, p, hi - 1, pending[..|pending| - 1])
    else
      && Sub(m, Sib(p, hi)) == Sub(m0, Sib(p, hi))
      && Frontier(m0, m, p, hi - 1, pending)
  }

  lemma {:induction false} FrontierStart(m: State, p: Path, hi: nat)
    requires hi <= |p| <= KEY_BITS
    ensures Frontier(m, m, p, hi, [])
  {
    hide Sub;
    if hi > 0 { FrontierStart(m, p, hi - 1); }
  }

  /** Changes below `p` itself do not touch what hangs off it. */
  lemma {:induction false} FrontierFrame(m0: State, m: State, m': State, p: Path, hi: nat, pending: seq<(Node, nat)>)
    requires hi <= |p| <= KEY_BITS && Frontier(m0, m, p, hi, pending)
    requires forall layer | 0 < layer <= hi :: AgreeUnder(m, m', Sib(p, layer))
    ensures Frontier(m0, m', p, hi, pending)
  {
    hide Sub;
    if hi > 0 {
      SubFrame(m, m', Sib(p, hi));
      FrontierFrame(m0, m, m', p, hi - 1,
                    if pending != [] && pending[|pending| - 1].1 == hi then pending[..|pending| - 1] else pending);
    }
  }

  lemma {:induction false} FrontierPrefix(m0: State, m: State, p: Path, q: Path, hi: nat, pending: seq<(Node, nat)>)
    requires hi <= |p| <= KEY_BITS && hi <= |q| <= KEY_BITS && p[..hi] == q[..hi]
    requires Frontier(m0, m, p, hi, pending)
    ensures Frontier(m0, m, q, hi, pending)
  {
    hide Sub;
    if hi > 0 {
      assert p[..hi - 1] == p[..hi][..hi - 1] == q[..hi][..hi - 1] == q[..hi - 1];
      assert p[hi - 1] == p[..hi][hi - 1] == q[..hi][hi - 1] == q[hi - 1];
      FrontierPrefix(m0, m, p, q, hi - 1,
                     if pending != [] && pending[|pending| - 1].1 == hi then pending[..|pending| - 1] else pending);
    }
  }

  lemma {:induction false} FrontierExtend(m0: State, m: State, p: Path, lo: nat, hi: nat, pending: seq<(Node, nat)>)
    requires lo <= hi <= |p| <= KEY_BITS && Frontier(m0, m, p, lo, pending)
    requires pending != [] ==> pending[|pending| - 1].1 <= lo
    requires forall layer | lo < layer <= hi :: AgreeUnder(m, m0, Sib(p, layer))
    ensures Frontier(m0, m, p, hi, pending)
  {
    hide Sub;
    if lo < hi {
      FrontierExtend(m0, m, p, lo, hi - 1, pending);
      SubFrame(m, m0, Sib(p, hi));
    }
  }

  /** From one path to the next: `cur`, finished just below the fork, becomes a left sibling. */
  lemma FrontierNext(m0: State, m: State, p: Path, q: Path, cur: Node, pending: seq<(Node, nat)>)
    requires |p| <= KEY_BITS && |q| <= KEY_BITS && Less(p, q) && SharedBits(p, q) < |p|
    requires var n := SharedBits(p, q);
             && Frontier(m0, m, p, n + 1, pending)
             && cur == Sub(m, p[..n + 1])
             && forall layer | n + 1 < layer <= |q| :: AgreeUnder(m, m0, Sib(q, layer))
    ensures Frontier(m0, m, q, |q|, pending + [(cur, SharedBits(p, q) + 1)])
  {
    hide Sub;
    var n := SharedBits(p, q);
    FrontierPrefix(m0, m, p, q, n, pending);
    var pending' := pending + [(cur, n + 1)];
    assert pending'[..|pending'| - 1] == pending;
    assert Sib(q, n + 1) == p[..n + 1];
    FrontierExtend(m0, m, q, n + 1, |q|, pending');
  }

  /** The next node up, compacting where possible. */
  function CompactStep(bit: bool, cur: Node, sibling: Node): Node {
    if cur.Terminator? && sibling.Terminator? then cur
    else if cur.Leaf? && sibling.Terminator? then cur
    else if cur.Terminator? && sibling.Leaf? then sibling
    else Join(bit, cur, sibling).Written()
  }

  lemma CompactStepExact(m: State, p: Path, layer: nat)
    requires 0 < layer <= |p| <= KEY_BITS
    ensures CompactStep(p[layer - 1], Sub(m, p[..layer]), Sub(m, Sib(p, layer))) == Sub(m, p[..layer - 1])
  {
    hide Sub;
    SubStep(m, p[..layer - 1]);
    assert p[..layer] == p[..layer - 1] + [p[layer - 1]];
  }

  /** Climb the path from its end by `upLayers`, taking pending siblings where there are any. */
  method ClimbPath(ghost m0: State, ghost m: State, path: VerifiedPathProof, upLayers: nat,
                   node: Node, pending0: seq<(Node, nat)>)
    returns (cur: Node, pending: seq<(Node, nat)>)
    requires |path.keyPath| == |path.siblings| <= KEY_BITS && upLayers <= |path.keyPath|
    requires node == Sub(m, path.keyPath)
    requires Frontier(m0, m, path.keyPath, |path.keyPath|, pending0)
    requires forall i | 0 <= i < |path.siblings| :: path.siblings[i] == Sub(m0, Sib(path.keyPath, i + 1))
    ensures cur == Sub(m, path.keyPath[..|path.keyPath| - upLayers])
    ensures Frontier(m0, m, path.keyPath, |path.keyPath| - upLayers, pending)
  {
    hide Sub;
    cur, pending := node, pending0;
    var p := path.keyPath;
    assert p[..|p|] == p;
    for up := 0 to upLayers
      invariant cur == Sub(m, p[..|p| - up]) && Frontier(m0, m, p, |p| - up, pending)
    {
      var layer := |p| - up;
      var sibling := path.siblings[layer - 1];
      if pending != [] && pending[|pending| - 1].1 == layer {
        sibling := pending[|pending| - 1].0;
        pending := pending[..|pending| - 1];
      }
      CompactStepExact(m, p, layer);
      cur := CompactStep(p[layer - 1], cur, sibling);
    }
  }

  // ----- what earlier paths leave alone

  ghost predicate Accepted(m: State, paths: seq<PathUpdate>) {
    && Acceptable(Root(m), paths)
    && forall i | 0 <= i < |paths| :: Verified(paths[i].inner)
  }

  lemma {:induction false} Untouched(m: State, paths: seq<PathUpdate>, n: nat, k: Key)
    requires n <= |paths| && Acceptable(Root(m), paths)
    requires forall j | 0 <= j < n :: !Covers(paths[j].Bits(), k)
    ensures k in ApplyPaths(m, paths, n) <==> k in m
    ensures k in m ==> ApplyPaths(m, paths, n)[k] == m[k]
  {
    hide Sub;
    if n > 0 {
      Untouched(m, paths, n - 1, k);
      ApplyElsewhere(ApplyPaths(m, paths, n - 1), paths[n - 1].ops, paths[n - 1].Bits(), k);
    }
  }

  lemma Parted(p: Path, q: Path, k: Key, s: nat)
    requires s == SharedBits(p, q) && s < |p| && s < |q| && s < KEY_BITS && k[s] == q[s]
    ensures !Covers(p, k)
  {
  }

  /** Nothing below a proven path was touched by earlier paths. */
  lemma OwnUntouched(m: State, paths: seq<PathUpdate>, i: nat)
    requires Accepted(m, paths) && i < |paths|
    ensures AgreeUnder(ApplyPaths(m, paths, i), m, paths[i].Bits())
  {
    hide Sub;
    var q := paths[i].Bits();
    forall k: Key | Covers(q, k)
      ensures k in ApplyPaths(m, paths, i) <==> k in m
      ensures k in m ==> ApplyPaths(m, paths, i)[k] == m[k]
    {
      forall j | 0 <= j < i ensures !Covers(paths[j].Bits(), k) {
        PathsPart(Root(m), paths, j, i);
        Parted(paths[j].Bits(), q, k, SharedBits(paths[j].Bits(), q));
      }
      Untouched(m, paths, i, k);
    }
  }

  lemma EarlierMisses(m: State, paths: seq<PathUpdate>, i: nat, layer: nat, j: nat, k: Key)
    requires Accepted(m, paths) && j <= i && i + 1 < |paths|
    requires SharedBits(paths[i].Bits(), paths[i + 1].Bits()) + 1 < layer <= |paths[i + 1].Bits()|
    requires Covers(Sib(paths[i + 1].Bits(), layer), k)
    ensures !Covers(paths[j].Bits(), k)
  {
    hide Sub, SharedFrom;
    var q := paths[i + 1].Bits();
    PathsPart(Root(m), paths, j, i + 1);
    if j < i {
      assert PathBefore(paths, j, i) && PathBefore(paths, i, i + 1);
      SharedBitsBetween(paths[j].Bits(), paths[i].Bits(), q);
    }
    var s := SharedBits(paths[j].Bits(), q);
    assert k[s] == Sib(q, layer)[s] == q[s];
    Parted(paths[j].Bits(), q, k, s);
  }

  /** Past the fork with the previous path, nothing off the next path was touched either. */
  lemma NextUntouched(m: State, paths: seq<PathUpdate>, i: nat, layer: nat)
    requires Accepted(m, paths) && i + 1 < |paths|
    requires SharedBits(paths[i].Bits(), paths[i + 1].Bits()) + 1 < layer <= |paths[i + 1].Bits()|
    ensures AgreeUnder(ApplyPaths(m, paths, i + 1), m, Sib(paths[i + 1].Bits(), layer))
  {
    hide Sub, SharedFrom;
    var q := paths[i + 1].Bits();
    forall k: Key | Covers(Sib(q, layer), k)
      ensures k in ApplyPaths(m, paths, i + 1) <==> k in m
      ensures k in m ==> ApplyPaths(m, paths, i + 1)[k] == m[k]
    {
      forall j | 0 <= j < i + 1 ensures !Covers(paths[j].Bits(), k) { EarlierMisses(m, paths, i, layer, j, k); }
      Untouched(m, paths, i + 1, k);
    }
  }

  /** Below a position holding a terminal there is what the terminal says. */
  lemma BelowTerminal(m: State, v: VerifiedPathProof)
    requires Verified(v) && v.root == Root(m)
    ensures v.terminal.Some? ==> Covers(v.keyPath, v.terminal.value.keyPath)
    ensures AgreeUnder(LeafMap(v.terminal), m, v.keyPath)
  {
    hide Sub;
    VerifiedOnPath(m, v);
    OnPathAt(m, v.keyPath, 0, TerminalNode(v.terminal), v.siblings, 0);
    SubKind(m, v.keyPath);
  }

  /** The new sub-trie at a proven path is built from its terminal and its operations alone. */
  lemma SubRoot(m: State, paths: seq<PathUpdate>, i: nat)
    requires Accepted(m, paths) && i < |paths|
    ensures var ops := LeafOpsSpliced(paths[i].inner.terminal, paths[i].ops);
            && Ascending(ops)
            && (forall op | op in ops :: Covers(paths[i].Bits(), op.0))
            && Sub(MapOf(ops), paths[i].Bits()) == Sub(ApplyPaths(m, paths, i + 1), paths[i].Bits())
  {
    hide Sub, Ascending, Less;
    var leaf, p := paths[i].inner.terminal, paths[i].Bits();
    BelowTerminal(m, paths[i].inner);
    SplicedEffect(leaf, paths[i].ops);
    SplicedUnder(leaf, paths[i].ops, p);
    OwnUntouched(m, paths, i);
    ApplyAgree(LeafMap(leaf), m, paths[i].ops, p);
    ApplyAgree(m, ApplyPaths(m, paths, i), paths[i].ops, p);
    SubFrame(ApplyOps(LeafMap(leaf), paths[i].ops), ApplyOps(m, paths[i].ops), p);
    SubFrame(ApplyOps(m, paths[i].ops), ApplyPaths(m, paths, i + 1), p);
  }

  /** The state before path `i`. */
  ghost predicate BeforePath(m: State, paths: seq<PathUpdate>, i: nat, pending: seq<(Node, nat)>)
    requires i <= |paths| && Accepted(m, paths)
  {
    if i < |paths| then Frontier(m, ApplyPaths(m, paths, i), paths[i].Bits(), |paths[i].Bits()|, pending)
    else pending != [] && pending[|pending| - 1].0 == Root(ApplyPaths(m, paths, i))
  }

  /** Everything off path `i` is known before its own operations are applied, and after. */
  lemma ReadyToClimb(m: State, paths: seq<PathUpdate>, i: nat, pending: seq<(Node, nat)>)
    requires i < |paths| && Accepted(m, paths) && BeforePath(m, paths, i, pending)
    ensures Frontier(m, ApplyPaths(m, paths, i + 1), paths[i].Bits(), |paths[i].Bits()|, pending)
    ensures forall l | 0 <= l < |paths[i].inner.siblings| ::
              paths[i].inner.siblings[l] == Sub(m, Sib(paths[i].Bits(), l + 1))
  {
    hide Sub, Frontier;
    var v, p := paths[i].inner, paths[i].Bits();
    var m1 := ApplyPaths(m, paths, i);
    forall layer | 0 < layer <= |p| ensures AgreeUnder(m1, ApplyPaths(m, paths, i + 1), Sib(p, layer)) {
      SiblingApart(m1, paths[i].ops, p, layer);
    }
    FrontierFrame(m, m1, ApplyPaths(m, paths, i + 1), p, |p|, pending);
    VerifiedOnPath(m, v);
    forall l | 0 <= l < |v.siblings| ensures v.siblings[l] == Sub(m, Sib(p, l + 1)) {
      OnPathAt(m, p, 0, TerminalNode(v.terminal), v.siblings, l);
    }
  }

  lemma ReadyForNext(m: State, paths: seq<PathUpdate>, i: nat, layer: nat, cur: Node, pending: seq<(Node, nat)>)
    requires i < |paths| && Accepted(m, paths) && layer <= |paths[i].Bits()|
    requires i + 1 < |paths| ==> layer == SharedBits(paths[i].Bits(), paths[i + 1].Bits()) + 1
    requires i + 1 == |paths| ==> layer == 0
    requires cur == Sub(ApplyPaths(m, paths, i + 1), paths[i].Bits()[..layer])
    requires Frontier(m, ApplyPaths(m, paths, i + 1), paths[i].Bits(), layer, pending)
    ensures BeforePath(m, paths, i + 1, pending + [(cur, layer)])
  {
    hide Sub, Frontier;
    var m2, p := ApplyPaths(m, paths, i + 1), paths[i].Bits();
    if i + 1 < |paths| {
      assert PathBefore(paths, i, i + 1);
      var q := paths[i + 1].Bits();
      forall l | SharedBits(p, q) + 1 < l <= |q| ensures AgreeUnder(m2, m, Sib(q, l)) {
        NextUntouched(m, paths, i, l);
      }
      FrontierNext(m, m2, p, q, cur, pending);
    } else {
      assert p[..0] == [];
    }
  }

  /** One round: rebuild the sub-trie at path `i` and climb to just below the fork with the next. */
  method UpdatePath(ghost m: State, paths: seq<PathUpdate>, i: nat, pending0: seq<(Node, nat)>)
    returns (pending: seq<(Node, nat)>)
    requires i < |paths| && Accepted(m, paths) && BeforePath(m, paths, i, pending0)
    ensures BeforePath(m, paths, i + 1, pending)
  {
    hide Sub, Frontier, Ascending, Acceptable, BeforePath, Covers, Sib, SharedFrom, Replay, Visited, MapOf, ApplyPaths;
    var v, p := paths[i].inner, paths[i].Bits();
    var skip := |p|;
    var upLayers := skip;
    if i + 1 < |paths| {
      PathsPart(Root(m), paths, i, i + 1);
      SharedSymmetric(paths[i + 1].Bits(), p);
      upLayers := skip - (SharedBits(paths[i + 1].Bits(), p) + 1);
    }
    SubRoot(m, paths, i);
    var subRoot, _ := BuildTrie(skip, LeafOpsSpliced(v.terminal, paths[i].ops), p);
    ReadyToClimb(m, paths, i, pending0);
    var cur, rest := ClimbPath(m, ApplyPaths(m, paths, i + 1), v, upLayers, subRoot, pending0);
    var endLayer := skip - upLayers;
    pending := rest + [(cur, endLayer)];
    ReadyForNext(m, paths, i, endLayer, cur, rest);
  }

  lemma SharedSymmetric(a: Path, b: Path)
    ensures SharedBits(a, b) == SharedBits(b, a)
  {
    SharedBitsIs(b, a, SharedBits(a, b));
    SharedBitsIs(a, b, SharedBits(b, a));
  }

  lemma SiblingApart(m: State, ops: seq<KeyOp>, p: Path, layer: nat)
    requires OpsUnder(ops, p) && 0 < layer <= |p| <= KEY_BITS
    ensures AgreeUnder(m, ApplyOps(m, ops), Sib(p, layer))
  {
    forall k: Key | Covers(Sib(p, layer), k)
      ensures k in m <==> k in ApplyOps(m, ops)
      ensures k in m ==> m[k] == ApplyOps(m, ops)[k]
    {
      assert k[layer - 1] == Sib(p, layer)[layer - 1] != p[layer - 1];
      assert !Covers(p, k);
      ApplyElsewhere(m, ops, p, k);
    }
  }

  /** Verify a batch update against a trie root: the checks decide acceptance, and an accepted
      update yields exactly the root of the updated map. */
  method VerifyUpdate(prevRoot: Node, paths: seq<PathUpdate>, ghost m: State)
    returns (r: Result<Node, VerifyUpdateError>)
    requires prevRoot == Root(m)
    requires forall i | 0 <= i < |paths| :: Verified(paths[i].inner)
    ensures r.Ok? <==> FirstError(prevRoot, paths, 0).None?
    ensures r.Err? ==> FirstError(prevRoot, paths, 0) == Some(r.error)
    ensures r.Ok? ==> r.value == Root(ApplyPaths(m, paths, |paths|))
  {
    hide Sub, Frontier, FirstOpError, OpsAscending, SharedFrom;
    if paths == [] { return Ok(prevRoot); }
    var error := CheckPaths(prevRoot, paths);
    if error.Some? { return Err(error.value); }
    CheckedIsAcceptable(prevRoot, paths);
    var pending: seq<(Node, nat)> := [];
    FrontierStart(m, paths[0].Bits(), |paths[0].Bits()|);
    for i := 0 to |paths|
      invariant BeforePath(m, paths, i, pending)
    {
      pending := UpdatePath(m, paths, i, pending);
    }
    r := Ok(pending[|pending| - 1].0);
  }
}
