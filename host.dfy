/**
 * What the steps commands borrow from the host editor: the selection and
 * its block range, the cursor placement after a deletion, the structural
 * effect of the transaction steps they issue, and a transaction object that
 * accumulates those steps.
 *
 * The host's replace fitting is modelled by three rules on the tree:
 * (1) deleting every top-level node leaves one empty paragraph;
 * (2) deleting every item of a container removes the container;
 * (3) blocks placed at an item boundary split the container there (blocks
 *     at its first boundary go before it, at its last boundary after it).
 */
module Host {
  import opened Document

  // ------------------------------------------------------------ selection

  /** A text selection: anchor and head are both cursors in textblocks. */
  datatype Selection = Selection(anchor: Loc, head: Loc)

  function Cursor(l: Loc): Selection { Selection(l, l) }

  predicate ValidSelection(d: Doc, s: Selection)
  {
    ValidLoc(d, s.anchor) && ValidLoc(d, s.head)
  }

  /** `$from`: the end of the selection with the smaller position. */
  function From(d: Doc, s: Selection): (l: Loc)
    requires ValidSelection(d, s)
    ensures ValidLoc(d, l) && Pos(d, l) <= Pos(d, s.anchor) && Pos(d, l) <= Pos(d, s.head)
  {
    if Pos(d, s.anchor) <= Pos(d, s.head) then s.anchor else s.head
  }

  /** `$to`: the end of the selection with the larger position. */
  function To(d: Doc, s: Selection): (l: Loc)
    requires ValidSelection(d, s)
    ensures ValidLoc(d, l) && Pos(d, From(d, s)) <= Pos(d, l)
    ensures Pos(d, l) == Pos(d, s.anchor) || Pos(d, l) == Pos(d, s.head)
  {
    if Pos(d, s.anchor) <= Pos(d, s.head) then s.head else s.anchor
  }

  predicate Collapsed(d: Doc, s: Selection)
    requires ValidSelection(d, s)
  {
    Pos(d, From(d, s)) == Pos(d, To(d, s))
  }

  // ------------------------------------------------------- ancestor chain

  /** An ancestor of a cursor: its position and its nodeSize. */
  datatype Frame = Frame(pos: nat, size: nat)

  /** The ancestors of a cursor from depth 1 (a top-level node) down to its textblock. */
  function Ancestors(d: Doc, l: Loc): (a: seq<Frame>)
    requires ValidLoc(d, l)
    ensures |a| == (match l case TopText(_, _) => 1 case TitleText(_, _, _) => 3 case ContentText(_, _, _, _) => 4)
  {
    var top := Frame(NodePos(d, l.node), NodeSize(d[l.node]));
    match l
    case TopText(_, _) => [top]
    case TitleText(i, k, _) =>
      [top, Frame(ItemPos(d, i, k), ItemSize(d[i].items[k])), Frame(TitlePos(d, i, k), TitleSize(d[i].items[k]))]
    case ContentText(i, k, j, _) =>
      [top, Frame(ItemPos(d, i, k), ItemSize(d[i].items[k])), Frame(ContentPos(d, i, k), ContentSize(d[i].items[k])),
       Frame(BlockPos(d, i, k, j), BlockSize(d[i].items[k].content[j]))]
  }

  /** `$pos.end(depth)`: where the content of the ancestor at `depth` ends. */
  function End(d: Doc, l: Loc, depth: nat): int
    requires ValidLoc(d, l) && depth <= |Ancestors(d, l)|
  {
    if depth == 0 then DocSize(d)
    else Ancestors(d, l)[depth - 1].pos + Ancestors(d, l)[depth - 1].size - 1
  }

  /** A range of sibling nodes: the depth of their parent and the positions before the first and after the last. */
  datatype Range = Range(depth: nat, start: nat, end: nat)

  /**
   * `$from.blockRange($to)`: starting one level above the textblock, the
   * deepest ancestor of `$from` whose content still reaches `$to`.
   */
  function BlockRange(d: Doc, s: Selection): (r: Option<Range>)
    requires ValidSelection(d, s)
    ensures r.Some? ==> r.value.depth < |Ancestors(d, From(d, s))|
  {
    var from := From(d, s);
    RangeFrom(d, from, To(d, s), |Ancestors(d, from)| - 1)
  }

  function RangeFrom(d: Doc, from: Loc, to: Loc, depth: int): (r: Option<Range>)
    requires ValidLoc(d, from) && ValidLoc(d, to) && Pos(d, from) <= Pos(d, to)
    requires depth < |Ancestors(d, from)|
    ensures r.Some? ==> r.value.depth <= depth && Pos(d, to) <= End(d, from, r.value.depth)
    ensures r.Some? ==>
      && r.value.depth < |Ancestors(d, to)|
      && r.value.start == Ancestors(d, from)[r.value.depth].pos
      && r.value.end == Ancestors(d, to)[r.value.depth].pos + Ancestors(d, to)[r.value.depth].size
    decreases depth + 1
  {
    if depth < 0 then None
    else if Pos(d, to) <= End(d, from, depth) then
      DeepEnough(d, from, to, depth);
      Some(Range(depth, Ancestors(d, from)[depth].pos,
                 Ancestors(d, to)[depth].pos + Ancestors(d, to)[depth].size))
    else RangeFrom(d, from, to, depth - 1)
  }

  /** The end of the block range always has an ancestor at the range's child depth. */
  lemma DeepEnough(d: Doc, from: Loc, to: Loc, depth: nat)
    requires ValidLoc(d, from) && ValidLoc(d, to) && Pos(d, from) <= Pos(d, to)
    requires depth < |Ancestors(d, from)| && Pos(d, to) <= End(d, from, depth)
    ensures depth < |Ancestors(d, to)|
    ensures depth >= 1 ==> to.node == from.node && !to.TopText?
    ensures depth >= 2 ==> to.item == from.item
    ensures depth >= 3 ==> to.ContentText?
  {
    if depth >= 1 {
      FramesNested(d, from, depth);
      SameNode(d, from, to);
      if depth >= 2 {
        SameItem(d, from, to);
      }
    }
  }

  /** Each ancestor's content ends no later than its parent's. */
  lemma FramesNested(d: Doc, l: Loc, depth: nat)
    requires ValidLoc(d, l) && 1 <= depth <= |Ancestors(d, l)|
    ensures End(d, l, depth) <= End(d, l, 1)
    ensures depth >= 2 ==> End(d, l, depth) <= End(d, l, 2)
  {
    if !l.TopText? {
      ItemInNode(d, l.node, l.item);
      if l.ContentText? {
        BlockInContent(d, l.node, l.item, l.block);
      }
    }
  }

  /** A cursor at or after `from`, but before the end of `from`'s top-level node, is in the same node. */
  lemma SameNode(d: Doc, from: Loc, to: Loc)
    requires ValidLoc(d, from) && ValidLoc(d, to) && !from.TopText? && Pos(d, from) <= Pos(d, to)
    requires Pos(d, to) <= End(d, from, 1)
    ensures to.node == from.node && !to.TopText?
  {
    LocInNode(d, from);
    LocInNode(d, to);
    ItemInNode(d, from.node, from.item);
    if to.node > from.node {
      NodesOrdered(d, from.node, to.node);
    } else if to.node < from.node {
      NodesOrdered(d, to.node, from.node);
    }
  }

  /** Likewise for the item of a container: a later cursor before the item's end is in the same item. */
  lemma SameItem(d: Doc, from: Loc, to: Loc)
    requires ValidLoc(d, from) && ValidLoc(d, to) && !from.TopText? && !to.TopText? && to.node == from.node
    requires Pos(d, from) <= Pos(d, to) <= End(d, from, 2)
    ensures to.item == from.item
  {
    LocInItem(d, from);
    LocInItem(d, to);
    if to.item > from.item {
      ItemsOrdered(d, from.node, from.item, to.item);
    } else if to.item < from.item {
      ItemsOrdered(d, from.node, to.item, from.item);
    }
  }

  /** A block range always exists for a text selection: the `!range` guards of the commands never fire. */
  lemma BlockRangeDefined(d: Doc, s: Selection)
    requires ValidSelection(d, s)
    ensures BlockRange(d, s).Some?
  {
    var from := From(d, s);
    RangeDefinedFrom(d, from, To(d, s), |Ancestors(d, from)| - 1);
  }

  lemma {:induction false} RangeDefinedFrom(d: Doc, from: Loc, to: Loc, depth: nat)
    requires ValidLoc(d, from) && ValidLoc(d, to) && Pos(d, from) <= Pos(d, to)
    requires depth < |Ancestors(d, from)|
    ensures RangeFrom(d, from, to, depth).Some?
  {
    if depth > 0 && Pos(d, to) > End(d, from, depth) {
      RangeDefinedFrom(d, from, to, depth - 1);
    } else if depth == 0 {
      PosInDoc(d, to);
    }
  }

  /** Every cursor lies within the document. */
  lemma PosInDoc(d: Doc, l: Loc)
    requires ValidLoc(d, l)
    ensures Pos(d, l) <= DocSize(d)
  {
    LocInNode(d, l);
    if l.node + 1 < |d| {
      NodesOrdered(d, l.node, |d|);
    } else {
      SumStep(d, NodeSize, l.node);
    }
    SumAll(d, NodeSize);
  }

  /**
   * The shapes of a block range: across top-level nodes (depth 0, from the
   * start of `$from`'s node to the end of `$to`'s), across items of one
   * container (depth 1), or inside one item (depth 2 or more).
   */
  lemma RangeShape(d: Doc, s: Selection)
    requires ValidSelection(d, s)
    ensures BlockRange(d, s).Some?
    ensures var r := BlockRange(d, s).value; var from, to := From(d, s), To(d, s);
      && from.node <= to.node
      && (r.depth == 0 ==>
            r.start == NodePos(d, from.node) && r.end == NodePos(d, to.node) + NodeSize(d[to.node])
            && (from.TopText? || to.node > from.node))
      && (r.depth == 1 ==>
            !from.TopText? && !to.TopText? && to.node == from.node && from.item < to.item
            && r.start == ItemPos(d, from.node, from.item)
            && r.end == ItemPos(d, to.node, to.item) + ItemSize(d[to.node].items[to.item]))
      && (r.depth >= 2 ==>
            !from.TopText? && !to.TopText? && to.node == from.node && to.item == from.item
            && ItemPos(d, from.node, from.item) < r.start
            && r.end < ItemPos(d, from.node, from.item) + ItemSize(d[from.node].items[from.item]))
  {
    BlockRangeDefined(d, s);
    var from, to := From(d, s), To(d, s);
    var r := BlockRange(d, s).value;
    LocInNode(d, from);
    LocInNode(d, to);
    if to.node < from.node {
      NodesOrdered(d, to.node, from.node);
    }
    DeepEnough(d, from, to, r.depth);
    if r.depth == 0 && !from.TopText? && to.node == from.node {
      // the search would have stopped at depth 1
      RangeStops(d, from, to, |Ancestors(d, from)| - 1, 1);
    }
    if r.depth == 1 {
      LocInItem(d, from);
      LocInItem(d, to);
      if to.item == from.item {
        RangeStops(d, from, to, |Ancestors(d, from)| - 1, 2);
      } else if to.item < from.item {
        ItemsOrdered(d, from.node, to.item, from.item);
      }
    }
    if r.depth >= 2 {
      LocInItem(d, from);
      ItemInNode(d, from.node, from.item);
      if from.ContentText? {
        BlockInContent(d, from.node, from.item, from.block);
        if r.depth == 3 {
          BlockInContent(d, to.node, to.item, to.block);
        }
      }
      if to.ContentText? {
        BlockInContent(d, to.node, to.item, to.block);
      }
    }
  }

  /** Outside any container the block range starts at the cursor's own top-level block. */
  lemma RangeStartsAtBlock(d: Doc, s: Selection)
    requires ValidSelection(d, s) && From(d, s).TopText?
    ensures BlockRange(d, s).Some? && BlockRange(d, s).value.start == NodePos(d, From(d, s).node)
  {
    RangeShape(d, s);
  }

  /** The search returns a depth at least as deep as any depth whose end reaches `$to`. */
  lemma {:induction false} RangeStops(d: Doc, from: Loc, to: Loc, depth: nat, stop: nat)
    requires ValidLoc(d, from) && ValidLoc(d, to) && Pos(d, from) <= Pos(d, to)
    requires stop <= depth < |Ancestors(d, from)| && Pos(d, to) <= End(d, from, stop)
    ensures RangeFrom(d, from, to, depth).Some? && RangeFrom(d, from, to, depth).value.depth >= stop
  {
    if depth > stop && Pos(d, to) > End(d, from, depth) {
      RangeStops(d, from, to, depth - 1, stop);
    }
  }

  // ------------------------------------------------------- cursor placement

  /**
   * `Selection.near` at the top-level boundary before node `p`, as used when
   * a mapped cursor lands between nodes: the first text position at or after
   * the boundary, or failing that the last one before it.
   */
  function Near(d: Doc, p: nat): (l: Loc)
    requires ValidDoc(d) && p <= |d|
    ensures ValidLoc(d, l)
    ensures p < |d| ==> l.node == p && l.offset == 0 && (l.TopText? || (l.TitleText? && l.item == 0))
    ensures p == |d| ==> l.node == p - 1
  {
    if p < |d| then
      (if d[p].Text? then TopText(p, 0) else TitleText(p, 0, 0))
    else
      var n := d[p - 1];
      if n.Text? then TopText(p - 1, |TextOf(n.block)|)
      else
        var k := |n.items| - 1;
        var j := |n.items[k].content| - 1;
        ContentText(p - 1, k, j, |TextOf(n.items[k].content[j])|)
  }

  // ------------------------------------------------------- container of a position

  /** Whether position `p` lies strictly inside top-level node `j`. */
  predicate Inside(d: Doc, j: nat, p: nat)
    requires j < |d|
  {
    NodePos(d, j) < p < NodePos(d, j) + NodeSize(d[j])
  }

  /**
   * `findParentNode` for a steps container, on a cursor at position `p`:
   * the container among the first `n` nodes that holds `p`, if any.
   */
  function ContainerIn(d: Doc, p: nat, n: nat): (r: Option<nat>)
    requires n <= |d|
    ensures r.Some? ==> r.value < n && d[r.value].Steps? && Inside(d, r.value, p)
    ensures r.None? ==> forall j :: 0 <= j < n && d[j].Steps? ==> !Inside(d, j, p)
  {
    if n == 0 then None
    else if d[n - 1].Steps? && Inside(d, n - 1, p) then Some(n - 1)
    else ContainerIn(d, p, n - 1)
  }

  function ContainerAt(d: Doc, p: nat): Option<nat>
  {
    ContainerIn(d, p, |d|)
  }

  /** A position strictly inside a container finds that container. */
  lemma ContainerAtInside(d: Doc, p: nat, j: nat)
    requires IsSteps(d, j) && Inside(d, j, p)
    ensures ContainerAt(d, p) == Some(j)
  {
    var r := ContainerAt(d, p);
    if r.Some? && r.value != j {
      var lo, hi := if r.value < j then r.value else j, if r.value < j then j else r.value;
      NodesOrdered(d, lo, hi);
    }
  }

  /** A position on the boundary between two top-level nodes finds no container. */
  lemma ContainerAtBoundary(d: Doc, m: nat)
    requires m <= |d|
    ensures ContainerAt(d, NodePos(d, m)) == None
  {
    forall j | 0 <= j < |d| && d[j].Steps? ensures !Inside(d, j, NodePos(d, m)) {
      if j < m {
        NodesOrdered(d, j, m);
      } else if m < j {
        NodesOrdered(d, m, j);
      }
    }
  }

  // ------------------------------------------------------- structural edits

  function Lift(bs: seq<Block>): (ns: seq<Node>)
    ensures |ns| == |bs| && forall j {:trigger ns[j]} :: 0 <= j < |bs| ==> ns[j] == Text(bs[j])
  {
    if bs == [] then [] else [Text(bs[0])] + Lift(bs[1..])
  }

  predicate ValidBlocks(bs: seq<Block>)
  {
    forall j :: 0 <= j < |bs| ==> ValidBlock(bs[j])
  }

  /** The top-level textblocks of a valid document are valid blocks. */
  lemma {:induction false} TopBlocksValid(d: Doc)
    requires forall i :: 0 <= i < |d| ==> ValidNode(d[i])
    ensures ValidBlocks(TopBlocks(d))
  {
    if d != [] {
      assert forall i :: 0 <= i < |d| - 1 ==> ValidNode(d[1..][i]) by {
        forall i | 0 <= i < |d| - 1 ensures ValidNode(d[1..][i]) { assert d[1..][i] == d[i + 1]; }
      }
      TopBlocksValid(d[1..]);
      assert ValidNode(d[0]);
    }
  }

  /** Insert top-level nodes at the boundary before node `t`. */
  function InsertNodes(d: Doc, t: nat, ns: seq<Node>): (r: Doc)
    requires t <= |d|
    ensures |r| == |d| + |ns| && r[..t] == d[..t] && r[t + |ns|..] == d[t..]
    ensures r[t..t + |ns|] == ns
  {
    d[..t] + ns + d[t..]
  }

  lemma InsertNodesValid(d: Doc, t: nat, ns: seq<Node>)
    requires t <= |d|
    ensures ValidDoc(d) && (forall j :: 0 <= j < |ns| ==> ValidNode(ns[j])) ==> ValidDoc(InsertNodes(d, t, ns))
  {
  }

  /** The document after deleting top-level nodes `a` up to (excluding) `b`; rule (1) refills an emptied document. */
  function DeleteNodes(d: Doc, a: nat, b: nat): (r: Doc)
    requires a <= b <= |d|
    ensures |d| - (b - a) <= |r| <= |d| - (b - a) + 1 && |r| >= 1
    ensures d[..a] + d[b..] != [] ==> r == d[..a] + d[b..]
    ensures d[..a] + d[b..] == [] ==> r == [Text(EmptyParagraph)]
    ensures ValidDoc(d) ==> ValidDoc(r)
  {
    var rest := d[..a] + d[b..];
    if rest == [] then [Text(EmptyParagraph)] else rest
  }

  /**
   * `tr.delete` over item `k` of container `i`: the container keeps its
   * other items; rule (2) removes a container that loses its only item.
   */
  function DeleteItem(d: Doc, i: nat, k: nat): (r: Doc)
    requires IsItem(d, i, k)
    ensures |d[i].items| == 1 ==> r == DeleteNodes(d, i, i + 1)
    ensures |d[i].items| > 1 ==>
      && |r| == |d| && IsSteps(r, i) && r[..i] == d[..i] && r[i + 1..] == d[i + 1..]
      && r[i].items == d[i].items[..k] + d[i].items[k + 1..]
  {
    var items := d[i].items;
    if |items| == 1 then DeleteNodes(d, i, i + 1)
    else d[..i] + [Steps(items[..k] + items[k + 1..])] + d[i + 1..]
  }

  /** Deleting an item takes exactly that item out of the document's items and keeps a valid document valid. */
  lemma DeleteItemKeeps(d: Doc, i: nat, k: nat)
    requires IsItem(d, i, k)
    ensures var items := d[i].items;
      ItemsOf(DeleteItem(d, i, k)) == ItemsOf(d[..i]) + items[..k] + items[k + 1..] + ItemsOf(d[i + 1..])
    ensures ValidDoc(d) ==> ValidDoc(DeleteItem(d, i, k))
  {
    var items, r := d[i].items, DeleteItem(d, i, k);
    if |items| == 1 {
      assert items[..k] + items[k + 1..] == [];
      if d[..i] + d[i + 1..] == [] {
        assert ItemsOf(r) == [] + ItemsOf([]);
        assert d[..i] == [] && d[i + 1..] == [];
      } else {
        ItemsOfAppend(d[..i], d[i + 1..]);
      }
    } else {
      ItemsOfAround(r, i);
      if ValidDoc(d) {
        assert ValidNode(d[i]);
        forall m | 0 <= m < |r[i].items| ensures ValidItem(r[i].items[m]) {
          if m < k {
            assert r[i].items[m] == items[m];
          } else {
            assert r[i].items[m] == items[m + 1];
          }
        }
        forall j | 0 <= j < |r| ensures ValidNode(r[j]) {
          if j != i {
            assert r[j] == d[j];
          }
        }
      }
    }
  }

  /** Insert an item into container `i` at item boundary `k`. */
  function InsertItem(d: Doc, i: nat, k: nat, it: Item): (r: Doc)
    requires IsSteps(d, i) && k <= |d[i].items|
    ensures |r| == |d| && IsSteps(r, i) && r[..i] == d[..i] && r[i + 1..] == d[i + 1..]
    ensures r[i].items == d[i].items[..k] + [it] + d[i].items[k..]
  {
    var items := d[i].items;
    d[..i] + [Steps(items[..k] + [it] + items[k..])] + d[i + 1..]
  }

  lemma InsertItemValid(d: Doc, i: nat, k: nat, it: Item)
    requires IsSteps(d, i) && k <= |d[i].items|
    ensures ValidDoc(d) && ValidItem(it) ==> ValidDoc(InsertItem(d, i, k, it))
  {
    if ValidDoc(d) && ValidItem(it) {
      var r := InsertItem(d, i, k, it);
      var items := r[i].items;
      assert ValidNode(d[i]);
      forall m | 0 <= m < |items| ensures ValidItem(items[m]) {
        if m < k {
          assert items[m] == d[i].items[m];
        } else if m > k {
          assert items[m] == d[i].items[m - 1];
        }
      }
      forall j | 0 <= j < |r| ensures ValidNode(r[j]) {
        if j < i {
          assert r[j] == d[j];
        } else if j > i {
          assert r[j] == d[j];
        }
      }
    }
  }

  /** Deleting items `a..b` of container `i` leaves nothing: the container is the only node and loses every item. */
  predicate Empties(d: Doc, i: nat, a: nat, b: nat)
    requires IsSteps(d, i) && a <= b <= |d[i].items|
  {
    |d| == 1 && a == 0 && b == |d[i].items|
  }

  /**
   * Items `a` up to (excluding) `b` of container `i` deleted, then top-level
   * blocks inserted where they were, with rules (2) and (3): the items
   * before and after the blocks stay in containers of their own, and empty
   * containers vanish. When the deletion empties the document, rule (1)
   * refills it before the insertion, so the empty paragraph follows the
   * blocks (ReplaceIsDeleteThenInsert).
   */
  function ReplaceItems(d: Doc, i: nat, a: nat, b: nat, bs: seq<Block>): (r: Doc)
    requires IsSteps(d, i) && a <= b <= |d[i].items|
    // the nodes before the container stay (StepsToggle.ReplacedShape gives the whole layout)
    ensures |r| >= 1 && i <= |r| && r[..i] == d[..i]
  {
    var fill := if Empties(d, i, a, b) then [Text(EmptyParagraph)] else [];
    d[..i] + Split(d[i].items, a, b, bs) + d[i + 1..] + fill
  }

  /** The boundary where the blocks go once items `a..b` are deleted: after what is left of the container before them. */
  function ReplacePoint(d: Doc, i: nat, a: nat): nat
  {
    if a == 0 then i else i + 1
  }

  /** What is left of the document before the blocks: the nodes before the container, then its items before `a`. */
  function KeptBefore(d: Doc, i: nat, a: nat): Doc
    requires IsSteps(d, i) && a <= |d[i].items|
  {
    d[..i] + (if a == 0 then [] else [Steps(d[i].items[..a])])
  }

  /** What is left after the blocks: the container's items from `b`, the nodes after it, and the refill of an emptied document. */
  function KeptAfter(d: Doc, i: nat, a: nat, b: nat): Doc
    requires IsSteps(d, i) && a <= b <= |d[i].items|
  {
    var items := d[i].items;
    (if b == |items| then [] else [Steps(items[b..])]) + d[i + 1..]
      + (if Empties(d, i, a, b) then [Text(EmptyParagraph)] else [])
  }

  lemma ReplaceLayout(d: Doc, i: nat, a: nat, b: nat, bs: seq<Block>)
    requires IsSteps(d, i) && a <= b <= |d[i].items|
    ensures |KeptBefore(d, i, a)| == ReplacePoint(d, i, a)
    ensures ReplaceItems(d, i, a, b, bs) == KeptBefore(d, i, a) + Lift(bs) + KeptAfter(d, i, a, b)
  {
    var items := d[i].items;
    var pre: seq<Node> := if a == 0 then [] else [Steps(items[..a])];
    var post: seq<Node> := if b == |items| then [] else [Steps(items[b..])];
    var fill: seq<Node> := if Empties(d, i, a, b) then [Text(EmptyParagraph)] else [];
    var mid := Split(items, a, b, bs);
    assert ReplaceItems(d, i, a, b, bs) == d[..i] + mid + d[i + 1..] + fill;
    assert mid == pre + Lift(bs) + post;
    Regroup6(d[..i], pre, Lift(bs), post, d[i + 1..], fill);
  }

  lemma Regroup6<T>(p: seq<T>, q: seq<T>, x: seq<T>, y: seq<T>, e: seq<T>, f: seq<T>)
    ensures p + (q + x + y) + e + f == (p + q) + x + (y + e + f)
  {
  }

  /**
   * Replacing items is deleting them, with the refill of an emptied
   * document, and then inserting the blocks at the boundary where they were.
   */
  lemma ReplaceIsDeleteThenInsert(d: Doc, i: nat, a: nat, b: nat, bs: seq<Block>)
    requires IsSteps(d, i) && a <= b <= |d[i].items|
    ensures var deleted := ReplaceItems(d, i, a, b, []);
      && ReplacePoint(d, i, a) <= |deleted|
      && (Empties(d, i, a, b) ==> deleted == [Text(EmptyParagraph)])
      && ReplaceItems(d, i, a, b, bs) == InsertNodes(deleted, ReplacePoint(d, i, a), Lift(bs))
  {
    var left, tail := KeptBefore(d, i, a), KeptAfter(d, i, a, b);
    ReplaceLayout(d, i, a, b, bs);
    ReplaceLayout(d, i, a, b, []);
    var deleted := ReplaceItems(d, i, a, b, []);
    assert deleted == left + tail;
    assert deleted[..|left|] == left && deleted[|left|..] == tail;
    if Empties(d, i, a, b) {
      assert d[..i] == [] && d[i + 1..] == [];
    }
  }

  function Split(items: seq<Item>, a: nat, b: nat, bs: seq<Block>): (ns: seq<Node>)
    requires a <= b <= |items|
    ensures |ns| == (if a == 0 then 0 else 1) + |bs| + (if b == |items| then 0 else 1)
  {
    (if a == 0 then [] else [Steps(items[..a])]) + Lift(bs) + (if b == |items| then [] else [Steps(items[b..])])
  }

  lemma ReplaceItemsValid(d: Doc, i: nat, a: nat, b: nat, bs: seq<Block>)
    requires IsSteps(d, i) && a <= b <= |d[i].items|
    ensures ValidDoc(d) && ValidBlocks(bs) ==> ValidDoc(ReplaceItems(d, i, a, b, bs))
  {
    if ValidDoc(d) && ValidBlocks(bs) {
      ReplacedNodesValid(d, i, a, b, bs);
    }
  }

  lemma ReplacedNodesValid(d: Doc, i: nat, a: nat, b: nat, bs: seq<Block>)
    requires ValidDoc(d) && IsSteps(d, i) && a <= b <= |d[i].items| && ValidBlocks(bs)
    ensures ValidDoc(ReplaceItems(d, i, a, b, bs))
  {
    var items := d[i].items;
    var mid := Split(items, a, b, bs);
    forall j | 0 <= j < |mid| ensures ValidNode(mid[j]) {
      var pre := if a == 0 then 0 else 1;
      if a > 0 && j == 0 {
        assert mid[j] == Steps(items[..a]);
      } else if j < pre + |bs| {
        assert mid[j] == Lift(bs)[j - pre];
      } else {
        assert mid[j] == Steps(items[b..]);
      }
    }
    var whole := d[..i] + mid + d[i + 1..];
    forall j | 0 <= j < |whole| ensures ValidNode(whole[j]) {
      if j < i {
        assert whole[j] == d[j];
      } else if j < i + |mid| {
        assert whole[j] == mid[j - i];
      } else {
        assert whole[j] == d[j - |mid| + 1];
      }
    }
    var fill: seq<Node> := if Empties(d, i, a, b) then [Text(EmptyParagraph)] else [];
    assert ReplaceItems(d, i, a, b, bs) == whole + fill;
    assert ValidNode(Text(EmptyParagraph));
  }

  /** Text nodes hold no items. */
  lemma {:induction false} LiftHasNoItems(bs: seq<Block>)
    ensures ItemsOf(Lift(bs)) == []
  {
    if bs != [] {
      var ns := Lift(bs);
      assert ns[1..] == Lift(bs[1..]);
      LiftHasNoItems(bs[1..]);
    }
  }

  /** The items left in the nodes that replace a container's items `a..b`. */
  lemma SplitItems(items: seq<Item>, a: nat, b: nat, bs: seq<Block>)
    requires a <= b <= |items|
    ensures ItemsOf(Split(items, a, b, bs)) == items[..a] + items[b..]
  {
    var pre: seq<Node> := if a == 0 then [] else [Steps(items[..a])];
    var post: seq<Node> := if b == |items| then [] else [Steps(items[b..])];
    assert ItemsOf(pre) == items[..a] by {
      if a > 0 { assert ItemsOf(pre) == items[..a] + ItemsOf([]); }
    }
    assert ItemsOf(post) == items[b..] by {
      if b < |items| { assert ItemsOf(post) == items[b..] + ItemsOf([]); }
    }
    LiftHasNoItems(bs);
    ItemsOfAppend(pre, Lift(bs));
    ItemsOfAppend(pre + Lift(bs), post);
    assert Split(items, a, b, bs) == pre + Lift(bs) + post;
  }

  /** Replacing items `a..b` by blocks removes exactly those items from the document's items. */
  lemma {:induction false} ReplacedItems(d: Doc, i: nat, a: nat, b: nat, bs: seq<Block>)
    requires IsSteps(d, i) && a <= b <= |d[i].items|
    ensures ItemsOf(ReplaceItems(d, i, a, b, bs)) ==
      ItemsOf(d[..i]) + d[i].items[..a] + d[i].items[b..] + ItemsOf(d[i + 1..])
  {
    var items := d[i].items;
    var mid := Split(items, a, b, bs);
    var left, right := d[..i], d[i + 1..];
    var whole := left + mid + right;
    SplitItems(items, a, b, bs);
    ItemsOfAppend(left, mid);
    ItemsOfAppend(left + mid, right);
    assert ItemsOf(whole) == ItemsOf(left) + (items[..a] + items[b..]) + ItemsOf(right);
    var fill: seq<Node> := if Empties(d, i, a, b) then [Text(EmptyParagraph)] else [];
    assert ItemsOf(fill) == [] by {
      if fill != [] { assert ItemsOf(fill) == [] + ItemsOf([]); }
    }
    ItemsOfAppend(whole, fill);
    assert ReplaceItems(d, i, a, b, bs) == whole + fill;
  }

  /** `tr.join` at the boundary between containers `i` and `i + 1`: one container holding both item lists. */
  function Join(d: Doc, i: nat): (r: Doc)
    requires i + 1 < |d| && d[i].Steps? && d[i + 1].Steps?
    ensures |r| == |d| - 1 && r[..i] == d[..i] && r[i + 1..] == d[i + 2..]
    ensures IsSteps(r, i) && r[i].items == d[i].items + d[i + 1].items
  {
    d[..i] + [Steps(d[i].items + d[i + 1].items)] + d[i + 2..]
  }

  /** A join keeps the document's items, in order, and keeps a valid document valid. */
  lemma JoinKeeps(d: Doc, i: nat)
    requires i + 1 < |d| && d[i].Steps? && d[i + 1].Steps?
    ensures ItemsOf(Join(d, i)) == ItemsOf(d)
    ensures ValidDoc(d) ==> ValidDoc(Join(d, i))
  {
    JoinKeepsItems(d, i);
    var r := Join(d, i);
    if ValidDoc(d) {
      assert ValidNode(r[i]);
      forall j | 0 <= j < |r| ensures ValidNode(r[j]) {
        if j > i {
          assert r[j] == d[j + 1];
        }
      }
    }
  }

  lemma {:induction false} JoinKeepsItems(d: Doc, i: nat)
    requires i + 1 < |d| && d[i].Steps? && d[i + 1].Steps?
    ensures ItemsOf(d[..i] + [Steps(d[i].items + d[i + 1].items)] + d[i + 2..]) == ItemsOf(d)
  {
    var a, b := d[i].items, d[i + 1].items;
    var r := d[..i] + [Steps(a + b)] + d[i + 2..];
    var tail := d[i + 1..];
    assert r[..i] == d[..i] && r[i] == Steps(a + b) && r[i + 1..] == d[i + 2..];
    ItemsOfAround(r, i);
    ItemsOfAround(d, i);
    assert tail[..0] == [] && tail[0] == d[i + 1] && tail[1..] == d[i + 2..];
    ItemsOfAround(tail, 0);
    var p, q := ItemsOf(d[..i]), ItemsOf(d[i + 2..]);
    assert ItemsOf(tail) == b + q;
    assert ItemsOf(r) == p + (a + b) + q;
    assert ItemsOf(d) == p + a + (b + q);
  }

  /** An insertion into a container leaves the top-level textblocks as they were. */
  lemma InsertItemKeepsBlocks(d: Doc, i: nat, k: nat, it: Item)
    requires IsSteps(d, i) && k <= |d[i].items|
    ensures TopBlocks(InsertItem(d, i, k, it)) == TopBlocks(d)
  {
    var items := d[i].items;
    var n := Steps(items[..k] + [it] + items[k..]);
    assert AllSteps(d[i..i + 1]) by { assert d[i..i + 1] == [d[i]]; }
    assert AllSteps([n]);
    TopBlocksSwap(d, i, i + 1, [n]);
  }

  /** A join of two containers leaves the top-level textblocks as they were. */
  lemma JoinKeepsBlocks(d: Doc, i: nat)
    requires i + 1 < |d| && d[i].Steps? && d[i + 1].Steps?
    ensures TopBlocks(Join(d, i)) == TopBlocks(d)
  {
    var m := Steps(d[i].items + d[i + 1].items);
    assert AllSteps(d[i..i + 2]) by { assert d[i..i + 2] == [d[i], d[i + 1]]; }
    assert AllSteps([m]);
    TopBlocksSwap(d, i, i + 2, [m]);
  }

  // ------------------------------------------------------------ outcome

  /**
   * What a command or key handler leaves behind: nothing (it returned false
   * before touching the transaction), or the dispatched document, the
   * boolean it returned and the cursor position it set (None when it
   * leaves the selection to the host's mapping).
   */
  datatype Outcome =
    | Pass
    | Done(handled: bool, doc: Doc, focus: Option<nat>)
    | Unmodelled

  // ------------------------------------------------------------ transaction

  /** The host transaction a command appends its steps to. */
  class Transaction {
    var doc: Doc
    var focus: Option<nat>

    constructor (d: Doc)
      ensures doc == d && focus == None
    {
      doc := d;
      focus := None;
    }

    /** `tr.insert` of top-level nodes at the boundary before node `t`. */
    method InsertNodesAt(t: nat, ns: seq<Node>)
      requires t <= |doc|
      modifies this
      ensures doc == InsertNodes(old(doc), t, ns) && focus == old(focus)
    {
      doc := InsertNodes(doc, t, ns);
    }

    /** `tr.delete` of top-level nodes `a` up to (excluding) `b`. */
    method DeleteNodesAt(a: nat, b: nat)
      requires a <= b <= |doc|
      modifies this
      ensures doc == DeleteNodes(old(doc), a, b) && focus == old(focus)
    {
      doc := DeleteNodes(doc, a, b);
    }

    /** `tr.insert` of an item at item boundary `k` of container `i`. */
    method InsertItemAt(i: nat, k: nat, it: Item)
      requires IsSteps(doc, i) && k <= |doc[i].items|
      modifies this
      ensures doc == InsertItem(old(doc), i, k, it) && focus == old(focus)
    {
      doc := InsertItem(doc, i, k, it);
    }

    /** `tr.delete` of items `a..b` of container `i`, with the refill of an emptied document, then `tr.insert` of blocks where they were. */
    method ReplaceItemsAt(i: nat, a: nat, b: nat, bs: seq<Block>)
      requires IsSteps(doc, i) && a <= b <= |doc[i].items|
      modifies this
      ensures doc == ReplaceItems(old(doc), i, a, b, bs) && focus == old(focus)
      ensures Empties(old(doc), i, a, b) ==> doc == Lift(bs) + [Text(EmptyParagraph)]
    {
      ReplaceIsDeleteThenInsert(doc, i, a, b, bs);
      var t := ReplacePoint(doc, i, a);
      doc := ReplaceItems(doc, i, a, b, []);
      doc := InsertNodes(doc, t, Lift(bs));
    }

    /** `tr.join` of top-level node `i` with node `i + 1`, both containers. */
    method JoinAt(i: nat)
      requires i + 1 < |doc| && doc[i].Steps? && doc[i + 1].Steps?
      modifies this
      ensures doc == Join(old(doc), i) && focus == old(focus)
    {
      doc := Join(doc, i);
    }

    /** A step that rewrites top-level node `i` in place (a textblock replaced, text moved or blocks joined inside it). */
    method ReplaceNodeAt(i: nat, n: Node)
      requires i < |doc|
      modifies this
      ensures doc == old(doc)[i := n] && focus == old(focus)
    {
      doc := doc[i := n];
    }

    /** `tr.setSelection(TextSelection.create(tr.doc, p))`. */
    method SetSelection(p: nat)
      modifies this
      ensures doc == old(doc) && focus == Some(p)
    {
      focus := Some(p);
    }
  }
}
