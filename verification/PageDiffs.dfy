/** The record of which slots of a page have changed: packing the changed nodes out of a page and
    unpacking them into another copy. */
module PageDiffs {
  import opened Trie
  import opened TriePos
  import opened CountLeaves

  const WORD: nat := 64
  const CLEAR_BIT: nat := 127

  /** Two 64-bit words, least significant bit first; bit 127 marks a cleared page and bit 126 is unused. */
  type Bits = b: seq<bool> | |b| == 2 * WORD witness seq(2 * WORD, _ => false)

  datatype PageDiff = PageDiff(bits: Bits) {
    predicate Changed(slot: nat)
      requires slot < 2 * WORD
    {
      bits[slot]
    }

    predicate Cleared() { bits[CLEAR_BIT] }

    /** Note a changed slot. Erases the clear bit. */
    function SetChanged(slot: nat): PageDiff
      requires slot < NODES_PER_PAGE
    {
      PageDiff(bits[slot := true][CLEAR_BIT := false])
    }

    function SetCleared(): PageDiff {
      PageDiff(bits[CLEAR_BIT := true])
    }

    /** Only node slots are marked, and the page is not cleared. */
    ghost predicate Plain() { !bits[126] && !Cleared() }
  }

  function EmptyDiff(): PageDiff { PageDiff(seq(2 * WORD, _ => false)) }

  // ----- iterating the set bits

  /** The set bits from `i` on, ascending. */
  ghost function OnesFrom(bits: Bits, i: nat): seq<nat>
    requires i <= 2 * WORD
    decreases 2 * WORD - i
  {
    if i == 2 * WORD then []
    else if bits[i] then [i] + OnesFrom(bits, i + 1)
    else OnesFrom(bits, i + 1)
  }

  /** The index of the lowest set bit of a word, or its width. */
  function TrailingZeros(word: seq<bool>): (n: nat)
    ensures n <= |word| && forall i | 0 <= i < n :: !word[i]
    ensures n < |word| ==> word[n]
  {
    if word == [] || word[0] then 0
    else
      var n := TrailingZeros(word[1..]);
      assert forall i | 0 < i < n + 1 :: word[i] == word[1..][i - 1];
      1 + n
  }

  lemma {:induction false} OnesSkip(bits: Bits, i: nat, j: nat)
    requires i <= j <= 2 * WORD && forall n | i <= n < j :: !bits[n]
    ensures OnesFrom(bits, i) == OnesFrom(bits, j)
    decreases j - i
  {
    if i < j { OnesSkip(bits, i + 1, j); }
  }

  /** Repeatedly take the lowest set bit of a word and unset it. */
  method IterWord(bits: Bits, base: nat, ones0: seq<nat>) returns (ones: seq<nat>)
    requires base + WORD <= 2 * WORD
    ensures ones + OnesFrom(bits, base + WORD) == ones0 + OnesFrom(bits, base)
  {
    ones := ones0;
    var word := bits[base..base + WORD];
    var x := TrailingZeros(word);
    ghost var next := 0;
    while x < WORD
      invariant |word| == WORD && x == TrailingZeros(word) && 0 <= next <= WORD
      invariant forall i | 0 <= i < next :: !word[i]
      invariant forall i | next <= i < WORD :: word[i] == bits[base + i]
      invariant ones + OnesFrom(bits, base + next) == ones0 + OnesFrom(bits, base)
      decreases WORD - next
    {
      SkipTo(bits, ones, next, base, word, x);
      ones := ones + [base + x];
      word := word[x := false];
      next := x + 1;
      x := TrailingZeros(word);
    }
    forall n | base + next <= n < base + WORD ensures !bits[n] { assert word[n - base] == bits[n]; }
    OnesSkip(bits, base + next, base + WORD);
  }

  lemma SkipTo(bits: Bits, ones: seq<nat>, next: nat, base: nat, word: seq<bool>, x: nat)
    requires |word| == WORD && base + WORD <= 2 * WORD && next <= WORD
    requires x == TrailingZeros(word) < WORD && forall i | 0 <= i < next :: !word[i]
    requires forall i | next <= i < WORD :: word[i] == bits[base + i]
    ensures next <= x
    ensures ones + OnesFrom(bits, base + next) == ones + [base + x] + OnesFrom(bits, base + x + 1)
  {
    forall n | base + next <= n < base + x ensures !bits[n] { assert word[n - base] == bits[n]; }
    OnesSkip(bits, base + next, base + x);
    assert bits[base + x] == word[x];
    assert ones + ([base + x] + OnesFrom(bits, base + x + 1)) == ones + [base + x] + OnesFrom(bits, base + x + 1);
  }

  /** The set bits of both words, the second one's shifted past the first. */
  method IterOnes(diff: PageDiff) returns (ones: seq<nat>)
    ensures ones == OnesFrom(diff.bits, 0)
  {
    ones := IterWord(diff.bits, 0, []);
    ones := IterWord(diff.bits, WORD, ones);
    assert ones + [] == ones && [] + OnesFrom(diff.bits, 0) == OnesFrom(diff.bits, 0);
  }

  lemma {:induction false} OnesAre(bits: Bits, i: nat, slot: nat)
    requires i <= 2 * WORD
    ensures slot in OnesFrom(bits, i) <==> i <= slot < 2 * WORD && bits[slot]
    decreases 2 * WORD - i
  {
    if i < 2 * WORD { OnesAre(bits, i + 1, slot); }
  }

  lemma {:induction false} OnesAscend(bits: Bits, i: nat)
    requires i <= 2 * WORD
    ensures forall a, b | 0 <= a < b < |OnesFrom(bits, i)| :: OnesFrom(bits, i)[a] < OnesFrom(bits, i)[b]
    ensures forall a | 0 <= a < |OnesFrom(bits, i)| :: i <= OnesFrom(bits, i)[a] < 2 * WORD
    decreases 2 * WORD - i
  {
    if i < 2 * WORD { OnesAscend(bits, i + 1); }
  }

  // ----- packing and unpacking

  ghost predicate Slots(ones: seq<nat>) {
    forall a | 0 <= a < |ones| :: ones[a] < NODES_PER_PAGE
  }

  lemma PlainSlots(diff: PageDiff)
    requires diff.Plain()
    ensures Slots(OnesFrom(diff.bits, 0))
  {
    forall a | 0 <= a < |OnesFrom(diff.bits, 0)| ensures OnesFrom(diff.bits, 0)[a] < NODES_PER_PAGE {
      OnesAre(diff.bits, 0, OnesFrom(diff.bits, 0)[a]);
    }
  }

  /** The changed slots of a plain diff, ascending. */
  ghost function Ones(diff: PageDiff): (s: seq<nat>)
    requires diff.Plain()
    ensures Slots(s)
  {
    PlainSlots(diff);
    OnesFrom(diff.bits, 0)
  }

  ghost function Packed(ones: seq<nat>, page: Page): seq<Node>
    requires Slots(ones)
  {
    seq(|ones|, a requires 0 <= a < |ones| => page[ones[a]])
  }

  /** The nodes of the marked slots, in slot order. */
  method PackChangedNodes(diff: PageDiff, page: Page) returns (nodes: seq<Node>)
    requires diff.Plain()
    ensures nodes == Packed(Ones(diff), page)
  {
    PlainSlots(diff);
    var ones := IterOnes(diff);
    nodes := [];
    for a := 0 to |ones|
      invariant |nodes| == a && forall b | 0 <= b < a :: nodes[b] == page[ones[b]]
    {
      nodes := nodes + [page[ones[a]]];
    }
  }

  /** The page with the first `n` changed nodes written into it. */
  ghost function Unpacked(ones: seq<nat>, nodes: seq<Node>, page: Page, n: nat): Page
    requires Slots(ones) && n <= |ones| == |nodes|
  {
    if n == 0 then page else Unpacked(ones, nodes, page, n - 1)[ones[n - 1] := nodes[n - 1]]
  }

  /** Write the changed nodes into a page according to the diff. */
  method UnpackChangedNodes(diff: PageDiff, nodes: seq<Node>, page0: Page) returns (page: Page)
    requires diff.Plain() && |nodes| == |Ones(diff)|
    ensures page == Unpacked(Ones(diff), nodes, page0, |nodes|)
  {
    PlainSlots(diff);
    var ones := IterOnes(diff);
    page := page0;
    for a := 0 to |ones|
      invariant page == Unpacked(ones, nodes, page0, a)
    {
      page := page[ones[a] := nodes[a]];
    }
  }

  lemma {:induction false} UnpackedSlot(ones: seq<nat>, nodes: seq<Node>, page: Page, n: nat, slot: nat)
    requires Slots(ones) && n <= |ones| == |nodes| && slot < NODES_PER_PAGE
    requires forall a, b | 0 <= a < b < |ones| :: ones[a] < ones[b]
    ensures slot !in ones[..n] ==> Unpacked(ones, nodes, page, n)[slot] == page[slot]
    ensures forall a | 0 <= a < n && ones[a] == slot :: Unpacked(ones, nodes, page, n)[slot] == nodes[a]
  {
    if n > 0 {
      UnpackedSlot(ones, nodes, page, n - 1, slot);
      assert ones[..n] == ones[..n - 1] + [ones[n - 1]];
    }
  }

  /** What unpacking yields: the packed nodes in the changed slots and the old ones elsewhere. */
  lemma UnpackedIs(diff: PageDiff, nodes: seq<Node>, page: Page, slot: nat)
    requires diff.Plain() && |nodes| == |Ones(diff)| && slot < NODES_PER_PAGE
    ensures !diff.Changed(slot) ==> Unpacked(Ones(diff), nodes, page, |nodes|)[slot] == page[slot]
    ensures forall p': Page | diff.Changed(slot) ::
              Unpacked(Ones(diff), nodes, page, |nodes|)[slot] == Unpacked(Ones(diff), nodes, p', |nodes|)[slot]
    ensures forall p': Page | diff.Changed(slot) && nodes == Packed(Ones(diff), p') ::
              Unpacked(Ones(diff), nodes, page, |nodes|)[slot] == p'[slot]
  {
    var ones := Ones(diff);
    OnesAscend(diff.bits, 0);
    OnesAre(diff.bits, 0, slot);
    assert ones[..|ones|] == ones;
    UnpackedSlot(ones, nodes, page, |nodes|, slot);
    if diff.Changed(slot) {
      var a :| 0 <= a < |ones| && ones[a] == slot;
      forall p': Page ensures Unpacked(ones, nodes, p', |nodes|)[slot] == nodes[a] {
        UnpackedSlot(ones, nodes, p', |nodes|, slot);
      }
    }
  }
}
