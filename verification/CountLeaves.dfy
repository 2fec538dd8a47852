/** Counting the leaves of one page by walking it with a cursor, ignoring slots that hold garbage. */
module CountLeaves {
  import opened Trie
  import opened TriePos

  type Page = p: seq<Node> | |p| == NODES_PER_PAGE witness seq(NODES_PER_PAGE, _ => Terminator)

  /** The node at a path of one to six bits below the page. */
  function PageNode(page: Page, x: Path): Node
    requires 0 < |x| <= DEPTH
  {
    IndexRange(x);
    page[IndexOf(x)]
  }

  /** The leaves reachable at `x` without leaving the page. */
  ghost function Leaves(page: Page, x: Path): nat
    requires 0 < |x| <= DEPTH
    decreases DEPTH - |x|
  {
    if PageNode(page, x).Internal? && |x| < DEPTH then Leaves(page, x + [false]) + Leaves(page, x + [true])
    else if PageNode(page, x).Leaf? then 1
    else 0
  }

  /** The leaves below the right siblings of the path: those the walk has yet to reach after `x`. */
  ghost function ToTheRight(page: Page, x: Path): nat
    requires |x| <= DEPTH
  {
    if x == [] then 0
    else ToTheRight(page, x[..|x| - 1]) + if x[|x| - 1] then 0 else Leaves(page, Sib(x, |x|))
  }

  /** The same, for all slots: what is left of the walk at most. */
  ghost function SlotsRight(x: Path): nat
    requires |x| <= DEPTH
  {
    if x == [] then 0
    else SlotsRight(x[..|x| - 1]) + if x[|x| - 1] then 0 else SubtreeSize(|x|)
  }

  ghost function SubtreeSize(depth: nat): nat
    requires depth <= DEPTH
  {
    Pow2(DEPTH + 1 - depth) - 1
  }

  lemma DownLeft(page: Page, x: Path)
    requires 0 < |x| < DEPTH && PageNode(page, x).Internal?
    ensures var l := x + [false];
            && Leaves(page, l) + ToTheRight(page, l) == Leaves(page, x) + ToTheRight(page, x)
            && SubtreeSize(|l|) + SlotsRight(l) < SubtreeSize(|x|) + SlotsRight(x)
  {
    var l := x + [false];
    assert l[..|x|] == x && Sib(l, |l|) == x + [true];
  }

  lemma ToSibling(page: Page, x: Path)
    requires 0 < |x| <= DEPTH && !x[|x| - 1]
    ensures var s := Sib(x, |x|);
            && Leaves(page, s) + ToTheRight(page, s) == ToTheRight(page, x)
            && SubtreeSize(|s|) + SlotsRight(s) == SlotsRight(x)
  {
    assert Sib(x, |x|)[..|x| - 1] == x[..|x| - 1];
  }

  /** Climb until the cursor can step to a right sibling; `done` when it is back at the top. */
  method StepRight(page: Page, pos: TriePosition) returns (done: bool)
    requires pos.Valid() && 0 < pos.depth <= DEPTH
    modifies pos
    ensures pos.Valid()
    ensures done ==> ToTheRight(page, old(pos.Bits())) == 0
    ensures !done ==>
              && 0 < pos.depth <= DEPTH
              && Leaves(page, pos.Bits()) + ToTheRight(page, pos.Bits()) == ToTheRight(page, old(pos.Bits()))
              && SubtreeSize(pos.depth) + SlotsRight(pos.Bits()) == SlotsRight(old(pos.Bits()))
  {
    hide Leaves, ToTheRight, SlotsRight, IndexOf, SubtreeSize;
    NothingRight(page);
    while pos.depth != 0 && pos.path[pos.depth - 1]
      invariant pos.Valid() && pos.depth <= DEPTH
      invariant ToTheRight(page, pos.Bits()) == ToTheRight(page, old(pos.Bits()))
      invariant SlotsRight(pos.Bits()) == SlotsRight(old(pos.Bits()))
      decreases pos.depth
    {
      ClimbRight(page, pos.Bits());
      pos.Up(1);
    }
    done := pos.depth == 0;
    if !done {
      ToSibling(page, pos.Bits());
      pos.Sibling();
    }
  }

  lemma NothingRight(page: Page)
    ensures ToTheRight(page, []) == 0
  {
  }

  lemma AllRight(page: Page)
    ensures ToTheRight(page, [false]) == Leaves(page, [true])
  {
    assert [false][..0] == [] && Sib([false], 1) == [true];
  }

  /** The walk of the page counts exactly the leaves reachable in it. */
  method Count(page: Page) returns (counter: nat)
    ensures counter == Leaves(page, [false]) + Leaves(page, [true])
  {
    hide Leaves, ToTheRight, SlotsRight, IndexOf, SubtreeSize;
    counter := 0;
    var pos := new TriePosition();
    pos.Down(false);
    ghost var total := Leaves(page, [false]) + Leaves(page, [true]);
    assert [] + [false] == [false];
    AllRight(page);
    var done := false;
    while !done
      invariant pos.Valid() && fresh(pos) && (!done ==> 0 < pos.depth <= DEPTH)
      invariant counter + (if done then 0 else Leaves(page, pos.Bits()) + ToTheRight(page, pos.Bits())) == total
      decreases !done, if done then 0 else SubtreeSize(pos.depth) + SlotsRight(pos.Bits())
    {
      var x := pos.Bits();
      IndexRange(x);
      var node := page[pos.nodeIndex];
      if node.Internal? && DepthInPage(pos.depth) != DEPTH {
        DownLeft(page, x);
        pos.Down(false);
      } else {
        LeafOrNone(page, x);
        if node.Leaf? { counter := counter + 1; }
        SizePositive(pos.depth);
        done := StepRight(page, pos);
      }
    }
  }

  lemma SizePositive(depth: nat)
    requires depth <= DEPTH
    ensures SubtreeSize(depth) > 0
  {
  }

  lemma LeafOrNone(page: Page, x: Path)
    requires 0 < |x| <= DEPTH && !(PageNode(page, x).Internal? && |x| < DEPTH)
    ensures Leaves(page, x) == if PageNode(page, x).Leaf? then 1 else 0
  {
  }

  lemma ClimbRight(page: Page, x: Path)
    requires 0 < |x| <= DEPTH && x[|x| - 1]
    ensures ToTheRight(page, x[..|x| - 1]) == ToTheRight(page, x)
    ensures SlotsRight(x[..|x| - 1]) == SlotsRight(x)
  {
  }
}
