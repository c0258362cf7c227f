/**
 * The document tree that hosts a steps list, and the ProseMirror token
 * positions of its text.
 *
 * A document is a non-empty sequence of top-level nodes. A top-level node is
 * a textblock or a `steps` container; a container holds one or more
 * `stepItem`s and an item is exactly one `stepTitle` (inline text) followed by
 * one `stepContent` (one or more textblocks).
 *
 * Positions follow ProseMirror: a non-text node occupies its content size
 * plus two tokens (opening and closing), text occupies one token per
 * character, the document's own content starts at 0, and a node at `pos`
 * has its content starting at `pos + 1`.
 */
module Document {

  datatype Option<T> = None | Some(value: T)

  /** Block types. Any textblock that is neither a paragraph nor a heading is an OtherTextblock. */
  datatype Kind = Paragraph | Heading(level: nat) | OtherTextblock

  /** A textblock: its type and its text nodes ("runs"); marks are not modelled, only run boundaries. */
  datatype Block = Block(kind: Kind, runs: seq<string>)

  /** A stepItem: its stepTitle's text and its stepContent's blocks. */
  datatype Item = Item(title: string, content: seq<Block>)

  /** A top-level node. */
  datatype Node = Text(block: Block) | Steps(items: seq<Item>)

  type Doc = seq<Node>

  const EmptyParagraph: Block := Block(Paragraph, [])

  // ---------------------------------------------------------------- text

  function Concat(runs: seq<string>): (s: string)
    ensures runs == [] ==> s == ""
  {
    if runs == [] then "" else runs[0] + Concat(runs[1..])
  }

  function TextOf(b: Block): string { Concat(b.runs) }

  /** textContent of an item: the title's text followed by the text of every content block. */
  function ItemText(it: Item): string { it.title + BlocksText(it.content) }

  function BlocksText(bs: seq<Block>): string
  {
    if bs == [] then "" else TextOf(bs[0]) + BlocksText(bs[1..])
  }

  lemma {:induction false} BlocksTextAppend(a: seq<Block>, b: seq<Block>)
    ensures BlocksText(a + b) == BlocksText(a) + BlocksText(b)
  {
    if a == [] {
      assert a + b == b;
    } else {
      assert (a + b)[1..] == a[1..] + b;
      BlocksTextAppend(a[1..], b);
    }
  }

  // ------------------------------------------------------ well-formedness

  /** ProseMirror never stores an empty text node. */
  predicate ValidBlock(b: Block)
  {
    forall r :: 0 <= r < |b.runs| ==> b.runs[r] != ""
  }

  /** stepItem content is "stepTitle stepContent" and stepContent is "block+". */
  predicate ValidItem(it: Item)
  {
    |it.content| >= 1 && forall j :: 0 <= j < |it.content| ==> ValidBlock(it.content[j])
  }

  predicate ValidItems(items: seq<Item>)
  {
    forall k :: 0 <= k < |items| ==> ValidItem(items[k])
  }

  /** steps content is "stepItem+". */
  predicate ValidNode(n: Node)
  {
    match n
    case Text(b) => ValidBlock(b)
    case Steps(items) => |items| >= 1 && ValidItems(items)
  }

  /** The document holds at least one node. */
  predicate ValidDoc(d: Doc)
  {
    |d| >= 1 && forall i :: 0 <= i < |d| ==> ValidNode(d[i])
  }

  lemma ItemOfValidDoc(d: Doc, i: nat, k: nat)
    requires IsItem(d, i, k)
    ensures ValidDoc(d) ==> ValidItem(d[i].items[k])
  {
    if ValidDoc(d) {
      assert ValidNode(d[i]);
    }
  }

  // ---------------------------------------------------------------- sizes

  /** Sum of `f` over `s`, accumulated from the last element so that prefixes unfold directly. */
  function Sum<T>(s: seq<T>, f: T -> nat): nat
  {
    if s == [] then 0 else Sum(s[..|s| - 1], f) + f(s[|s| - 1])
  }

  lemma SumStep<T>(s: seq<T>, f: T -> nat, k: nat)
    requires k < |s|
    ensures Sum(s[..k + 1], f) == Sum(s[..k], f) + f(s[k])
  {
    assert s[..k + 1][..k] == s[..k];
  }

  lemma {:induction false} SumAppend<T>(a: seq<T>, b: seq<T>, f: T -> nat)
    ensures Sum(a + b, f) == Sum(a, f) + Sum(b, f)
  {
    if b == [] {
      assert a + b == a;
    } else {
      assert (a + b)[..|a + b| - 1] == a + b[..|b| - 1];
      SumAppend(a, b[..|b| - 1], f);
    }
  }

  /** An element's extent ends no later than where any later prefix ends. */
  lemma {:induction false} SumGap<T>(s: seq<T>, f: T -> nat, j: nat, k: nat)
    requires j < k <= |s|
    ensures Sum(s[..j], f) + f(s[j]) <= Sum(s[..k], f)
  {
    if k == j + 1 {
      SumStep(s, f, j);
    } else {
      SumGap(s, f, j, k - 1);
      SumStep(s, f, k - 1);
    }
  }

  /** A sequence is its part before `a`, its part from `a` to `b` and its part from `b`. */
  lemma ThreeParts<T>(s: seq<T>, a: nat, b: nat)
    requires a <= b <= |s|
    ensures s == s[..a] + s[a..b] + s[b..]
  {
    assert s[..a] + s[a..b] == s[..b];
  }

  lemma SumAll<T>(s: seq<T>, f: T -> nat)
    ensures Sum(s[..|s|], f) == Sum(s, f)
  {
    assert s[..|s|] == s;
  }

  function BlockSize(b: Block): nat { |TextOf(b)| + 2 }

  function BlocksSize(bs: seq<Block>): nat { Sum(bs, BlockSize) }

  /** nodeSize of the stepTitle. */
  function TitleSize(it: Item): nat { |it.title| + 2 }

  /** nodeSize of the stepContent. */
  function ContentSize(it: Item): nat { BlocksSize(it.content) + 2 }

  function ItemSize(it: Item): nat { TitleSize(it) + ContentSize(it) + 2 }

  function ItemsSize(items: seq<Item>): nat { Sum(items, ItemSize) }

  function NodeSize(n: Node): nat
  {
    match n
    case Text(b) => BlockSize(b)
    case Steps(items) => ItemsSize(items) + 2
  }

  /** content.size of the document node. */
  function DocSize(d: Doc): nat { Sum(d, NodeSize) }

  // ------------------------------------------------------------ addresses

  predicate IsSteps(d: Doc, i: nat) { i < |d| && d[i].Steps? }

  predicate IsItem(d: Doc, i: nat, k: nat) { IsSteps(d, i) && k < |d[i].items| }

  predicate IsTextNode(d: Doc, i: nat) { i < |d| && d[i].Text? }

  /** Position of top-level node `i` (or of the document end when `i == |d|`). */
  function NodePos(d: Doc, i: nat): nat
    requires i <= |d|
  {
    Sum(d[..i], NodeSize)
  }

  /** Position of item `k` of container `i` (or of the container's content end when `k == |items|`). */
  function ItemPos(d: Doc, i: nat, k: nat): nat
    requires IsSteps(d, i) && k <= |d[i].items|
  {
    NodePos(d, i) + 1 + Sum(d[i].items[..k], ItemSize)
  }

  /** Position of the stepTitle of item `k`; its text starts one token later. */
  function TitlePos(d: Doc, i: nat, k: nat): nat
    requires IsItem(d, i, k)
  {
    ItemPos(d, i, k) + 1
  }

  /** Position of the stepContent of item `k`. */
  function ContentPos(d: Doc, i: nat, k: nat): nat
    requires IsItem(d, i, k)
  {
    TitlePos(d, i, k) + TitleSize(d[i].items[k])
  }

  /** Position of block `j` of the stepContent of item `k`. */
  function BlockPos(d: Doc, i: nat, k: nat, j: nat): nat
    requires IsItem(d, i, k) && j <= |d[i].items[k].content|
  {
    ContentPos(d, i, k) + 1 + Sum(d[i].items[k].content[..j], BlockSize)
  }

  // ------------------------------------------------------------ text positions

  /** A cursor position inside a textblock, addressed structurally. */
  datatype Loc =
    | TopText(node: nat, offset: nat)
    | TitleText(node: nat, item: nat, offset: nat)
    | ContentText(node: nat, item: nat, block: nat, offset: nat)

  predicate ValidLoc(d: Doc, l: Loc)
  {
    match l
    case TopText(i, o) => IsTextNode(d, i) && o <= |TextOf(d[i].block)|
    case TitleText(i, k, o) => IsItem(d, i, k) && o <= |d[i].items[k].title|
    case ContentText(i, k, j, o) =>
      IsItem(d, i, k) && j < |d[i].items[k].content| && o <= |TextOf(d[i].items[k].content[j])|
  }

  /** The ProseMirror position of a cursor. */
  function Pos(d: Doc, l: Loc): nat
    requires ValidLoc(d, l)
  {
    match l
    case TopText(i, o) => NodePos(d, i) + 1 + o
    case TitleText(i, k, o) => TitlePos(d, i, k) + 1 + o
    case ContentText(i, k, j, o) => BlockPos(d, i, k, j) + 1 + o
  }

  /** The textblock that holds a cursor (ProseMirror's `$pos.parent`). */
  function ParentBlock(d: Doc, l: Loc): Block
    requires ValidLoc(d, l)
  {
    match l
    case TopText(i, _) => d[i].block
    case TitleText(i, k, _) => Block(Paragraph, if d[i].items[k].title == "" then [] else [d[i].items[k].title])
    case ContentText(i, k, j, _) => d[i].items[k].content[j]
  }

  // ------------------------------------------------------------ layout lemmas

  /** Top-level nodes are laid out one after the other. */
  lemma NodesOrdered(d: Doc, i: nat, i': nat)
    requires i < i' <= |d|
    ensures NodePos(d, i) + NodeSize(d[i]) <= NodePos(d, i')
  {
    SumGap(d, NodeSize, i, i');
  }

  /** Items are laid out one after the other inside their container. */
  lemma ItemsOrdered(d: Doc, i: nat, k: nat, k': nat)
    requires IsSteps(d, i) && k < k' <= |d[i].items|
    ensures ItemPos(d, i, k) + ItemSize(d[i].items[k]) <= ItemPos(d, i, k')
  {
    SumGap(d[i].items, ItemSize, k, k');
  }

  /** Blocks are laid out one after the other inside their stepContent. */
  lemma BlocksOrdered(d: Doc, i: nat, k: nat, j: nat, j': nat)
    requires IsItem(d, i, k) && j < j' <= |d[i].items[k].content|
    ensures BlockPos(d, i, k, j) + BlockSize(d[i].items[k].content[j]) <= BlockPos(d, i, k, j')
  {
    SumGap(d[i].items[k].content, BlockSize, j, j');
  }

  /** An item lies strictly inside its container. */
  lemma ItemInNode(d: Doc, i: nat, k: nat)
    requires IsItem(d, i, k)
    ensures NodePos(d, i) < ItemPos(d, i, k)
    ensures ItemPos(d, i, k) + ItemSize(d[i].items[k]) < NodePos(d, i) + NodeSize(d[i])
  {
    var items := d[i].items;
    if k + 1 < |items| {
      ItemsOrdered(d, i, k, |items|);
    } else {
      SumStep(items, ItemSize, k);
    }
    SumAll(items, ItemSize);
  }

  /** A block lies strictly inside its stepContent. */
  lemma BlockInContent(d: Doc, i: nat, k: nat, j: nat)
    requires IsItem(d, i, k) && j < |d[i].items[k].content|
    ensures ContentPos(d, i, k) < BlockPos(d, i, k, j)
    ensures BlockPos(d, i, k, j) + BlockSize(d[i].items[k].content[j])
            < ContentPos(d, i, k) + ContentSize(d[i].items[k])
  {
    var bs := d[i].items[k].content;
    if j + 1 < |bs| {
      BlocksOrdered(d, i, k, j, |bs|);
    } else {
      SumStep(bs, BlockSize, j);
    }
    SumAll(bs, BlockSize);
  }

  /** A cursor lies strictly inside the top-level node it names. */
  lemma LocInNode(d: Doc, l: Loc)
    requires ValidLoc(d, l)
    ensures NodePos(d, l.node) < Pos(d, l) < NodePos(d, l.node) + NodeSize(d[l.node])
  {
    match l
    case TopText(i, o) =>
    case TitleText(i, k, o) => ItemInNode(d, i, k);
    case ContentText(i, k, j, o) => ItemInNode(d, i, k); BlockInContent(d, i, k, j);
  }

  /** A cursor in an item lies strictly inside that item. */
  lemma LocInItem(d: Doc, l: Loc)
    requires ValidLoc(d, l) && !l.TopText?
    ensures ItemPos(d, l.node, l.item) < Pos(d, l) < ItemPos(d, l.node, l.item) + ItemSize(d[l.node].items[l.item])
  {
    if l.ContentText? {
      BlockInContent(d, l.node, l.item, l.block);
    }
  }

  /** Distinct cursors have distinct positions: a position determines the cursor. */
  lemma PosInjective(d: Doc, l1: Loc, l2: Loc)
    requires ValidLoc(d, l1) && ValidLoc(d, l2) && Pos(d, l1) == Pos(d, l2)
    ensures l1 == l2
  {
    LocInNode(d, l1);
    LocInNode(d, l2);
    if l1.node < l2.node {
      NodesOrdered(d, l1.node, l2.node);
    } else if l2.node < l1.node {
      NodesOrdered(d, l2.node, l1.node);
    } else if !l1.TopText? {
      var i := l1.node;
      LocInItem(d, l1);
      LocInItem(d, l2);
      if l1.item < l2.item {
        ItemsOrdered(d, i, l1.item, l2.item);
      } else if l2.item < l1.item {
        ItemsOrdered(d, i, l2.item, l1.item);
      } else if l1.ContentText? && l2.ContentText? {
        var k := l1.item;
        BlockInContent(d, i, k, l1.block);
        BlockInContent(d, i, k, l2.block);
        if l1.block < l2.block {
          BlocksOrdered(d, i, k, l1.block, l2.block);
        } else if l2.block < l1.block {
          BlocksOrdered(d, i, k, l2.block, l1.block);
        }
      }
    }
  }

  // ------------------------------------------------------------ all items

  /** Every stepItem of the document, in document order. */
  function ItemsOf(d: Doc): seq<Item>
  {
    if d == [] then [] else (if d[0].Steps? then d[0].items else []) + ItemsOf(d[1..])
  }

  lemma {:induction false} ItemsOfAppend(a: Doc, b: Doc)
    ensures ItemsOf(a + b) == ItemsOf(a) + ItemsOf(b)
  {
    if a == [] {
      assert a + b == b;
    } else {
      assert (a + b)[1..] == a[1..] + b;
      ItemsOfAppend(a[1..], b);
    }
  }

  /** Removing nodes that hold no items leaves the items as they were. */
  lemma ItemsOfCut(pre: Doc, mid: Doc, post: Doc)
    requires ItemsOf(mid) == []
    ensures ItemsOf(pre + mid + post) == ItemsOf(pre + post)
  {
    ItemsOfAppend(pre + mid, post);
    ItemsOfAppend(pre, mid);
    ItemsOfAppend(pre, post);
  }

  /** The items of a document split around top-level node `i`. */
  lemma {:induction false} ItemsOfAround(d: Doc, i: nat)
    requires i < |d|
    ensures ItemsOf(d) == ItemsOf(d[..i]) + (if d[i].Steps? then d[i].items else []) + ItemsOf(d[i + 1..])
  {
    var mid: seq<Item> := if d[i].Steps? then d[i].items else [];
    assert [d[i]][1..] == [];
    assert ItemsOf([d[i]]) == mid + ItemsOf([]);
    assert ItemsOf([d[i]]) == mid;
    assert d == (d[..i] + [d[i]]) + d[i + 1..];
    ItemsOfAppend(d[..i] + [d[i]], d[i + 1..]);
    ItemsOfAppend(d[..i], [d[i]]);
  }

  // ------------------------------------------------------------ top-level blocks

  /** Every top-level textblock of the document, in document order. */
  function TopBlocks(d: Doc): seq<Block>
  {
    if d == [] then [] else (if d[0].Text? then [d[0].block] else []) + TopBlocks(d[1..])
  }

  lemma {:induction false} TopBlocksAppend(a: Doc, b: Doc)
    ensures TopBlocks(a + b) == TopBlocks(a) + TopBlocks(b)
  {
    if a == [] {
      assert a + b == b;
    } else {
      var h := if a[0].Text? then [a[0].block] else [];
      assert (a + b)[0] == a[0] && (a + b)[1..] == a[1..] + b;
      assert TopBlocks(a + b) == h + TopBlocks(a[1..] + b);
      TopBlocksAppend(a[1..], b);
      assert TopBlocks(a) == h + TopBlocks(a[1..]);
    }
  }

  predicate AllSteps(ns: seq<Node>)
  {
    forall j :: 0 <= j < |ns| ==> ns[j].Steps?
  }

  /** Containers hold no top-level textblock. */
  lemma {:induction false} AllStepsNoBlocks(ns: seq<Node>)
    requires AllSteps(ns)
    ensures TopBlocks(ns) == []
  {
    if ns != [] {
      assert AllSteps(ns[1..]) by {
        forall j | 0 <= j < |ns| - 1 ensures ns[1..][j].Steps? {
          assert ns[1..][j] == ns[j + 1];
        }
      }
      AllStepsNoBlocks(ns[1..]);
    }
  }

  /** Exchanging containers for containers leaves the top-level textblocks as they were. */
  lemma TopBlocksSwap(d: Doc, i: nat, j: nat, mid: seq<Node>)
    requires i <= j <= |d| && AllSteps(d[i..j]) && AllSteps(mid)
    ensures TopBlocks(d[..i] + mid + d[j..]) == TopBlocks(d)
  {
    AllStepsNoBlocks(d[i..j]);
    AllStepsNoBlocks(mid);
    TopBlocksAppend(d[..i] + mid, d[j..]);
    TopBlocksAppend(d[..i], mid);
    assert d == d[..i] + d[i..j] + d[j..];
    TopBlocksAppend(d[..i] + d[i..j], d[j..]);
    TopBlocksAppend(d[..i], d[i..j]);
  }
}
