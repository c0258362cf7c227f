/**
 * The `toggleSteps` command of the `steps` container.
 *
 * Outside a container it turns the top-level blocks of the block range into
 * one new item: the first block's first text run becomes the title when the
 * block is a paragraph or heading, the other blocks become the content; the
 * blocks are deleted first and insertStep then runs at the mapped cursor.
 * Inside a container it flattens the selected items back into blocks, or
 * falls back to removeStep when the filter selects no item.
 */
module StepsToggle {
  import opened Document
  import opened Host
  import opened StepItem

  // ------------------------------------------------------------ item filter

  /** `findChildren`'s position of item `m`: counted from the start of the container's content. */
  function RelPos(items: seq<Item>, m: nat): nat
    requires m <= |items|
  {
    Sum(items[..m], ItemSize)
  }

  /** Whether item `m` passes a filter: offset at least `lo`, offset plus size less `shrink` at most `hi`. */
  predicate Keeps(items: seq<Item>, m: nat, lo: int, hi: int, shrink: nat)
    requires m < |items|
  {
    lo <= RelPos(items, m) && RelPos(items, m) + ItemSize(items[m]) - shrink <= hi
  }

  /** The items that pass a filter, in container order. */
  function Selected(items: seq<Item>, lo: int, hi: int, shrink: nat): (sel: seq<Item>)
    ensures |sel| <= |items|
    ensures ValidItems(items) ==> ValidItems(sel)
    decreases |items|
  {
    if items == [] then []
    else
      var n := |items| - 1;
      var rest := Selected(items[..n], lo, hi, shrink);
      if Keeps(items, n, lo, hi, shrink) then rest + [items[n]] else rest
  }

  /**
   * The filter as written: the container-relative item offset against the
   * absolute range, one token of slack at the start, and the item's content
   * size (its node size less two) at the end.
   */
  function SelectedAsWritten(d: Doc, i: nat, range: Range): seq<Item>
    requires IsSteps(d, i)
  {
    Selected(d[i].items, range.start - 1, range.end, 2)
  }

  /** The filter as intended: the items whose whole extent lies inside the range. */
  function SelectedCovered(d: Doc, i: nat, range: Range): seq<Item>
    requires IsSteps(d, i)
  {
    Selected(d[i].items, range.start - NodePos(d, i) - 1, range.end - NodePos(d, i) - 1, 0)
  }

  /** The intended filter keeps exactly the items whose extent lies inside the range. */
  lemma CoveredIsInside(d: Doc, i: nat, range: Range, m: nat)
    requires IsItem(d, i, m)
    ensures Keeps(d[i].items, m, range.start - NodePos(d, i) - 1, range.end - NodePos(d, i) - 1, 0)
        <==> range.start <= ItemPos(d, i, m) && ItemPos(d, i, m) + ItemSize(d[i].items[m]) <= range.end
  {
  }

  lemma RelPosNext(items: seq<Item>, m: nat)
    requires m < |items|
    ensures RelPos(items, m + 1) == RelPos(items, m) + ItemSize(items[m])
  {
    SumStep(items, ItemSize, m);
  }

  /** Later items start no earlier than where earlier ones end. */
  lemma RelPosGrows(items: seq<Item>, m: nat, m': nat)
    requires m < m' <= |items|
    ensures RelPos(items, m) + ItemSize(items[m]) <= RelPos(items, m')
  {
    SumGap(items, ItemSize, m, m');
  }

  /** A filter that keeps exactly the items `a..b` selects exactly them. */
  lemma {:induction false} SelectedRun(items: seq<Item>, lo: int, hi: int, shrink: nat, a: nat, b: nat)
    requires a <= b <= |items|
    requires forall m :: 0 <= m < |items| ==> (Keeps(items, m, lo, hi, shrink) <==> a <= m < b)
    ensures Selected(items, lo, hi, shrink) == items[a..b]
  {
    if items != [] {
      var n := |items| - 1;
      RunPrefix(items, lo, hi, shrink, a, b);
      SelectedRun(items[..n], lo, hi, shrink, if a < n then a else n, if b < n then b else n);
      SelectedLast(items, lo, hi, shrink);
      RunSlices(items, a, b, Keeps(items, n, lo, hi, shrink));
    }
  }

  /** The filter decides the last item after the ones before it. */
  lemma SelectedLast(items: seq<Item>, lo: int, hi: int, shrink: nat)
    requires items != []
    ensures var n := |items| - 1; var rest := Selected(items[..n], lo, hi, shrink);
      Selected(items, lo, hi, shrink) == if Keeps(items, n, lo, hi, shrink) then rest + [items[n]] else rest
  {
  }

  /** A run `a..b` of a sequence is the run of what precedes the last element, extended by it when it lies in the run. */
  lemma RunSlices<T>(s: seq<T>, a: nat, b: nat, last: bool)
    requires a <= b <= |s| && s != [] && (last <==> a <= |s| - 1 < b)
    ensures var n := |s| - 1; var run := s[..n][(if a < n then a else n)..(if b < n then b else n)];
      s[a..b] == if last then run + [s[n]] else run
  {
    var n := |s| - 1;
    if last {
      assert s[a..b] == s[a..n] + [s[n]];
    }
  }

  /** A filter that keeps exactly the items `a..b` keeps, in the container less its last item, what remains of them. */
  lemma RunPrefix(items: seq<Item>, lo: int, hi: int, shrink: nat, a: nat, b: nat)
    requires a <= b <= |items| && items != []
    requires forall m :: 0 <= m < |items| ==> (Keeps(items, m, lo, hi, shrink) <==> a <= m < b)
    ensures var n := |items| - 1;
      forall m :: 0 <= m < n ==> (Keeps(items[..n], m, lo, hi, shrink) <==> (if a < n then a else n) <= m < (if b < n then b else n))
  {
    KeepsPrefix(items, |items| - 1, lo, hi, shrink);
  }

  /** The filter decides an item the same way in a prefix of the container. */
  lemma KeepsPrefix(items: seq<Item>, n: nat, lo: int, hi: int, shrink: nat)
    requires n <= |items|
    ensures forall m :: 0 <= m < n ==> Keeps(items[..n], m, lo, hi, shrink) == Keeps(items, m, lo, hi, shrink)
  {
    forall m | 0 <= m < n
      ensures Keeps(items[..n], m, lo, hi, shrink) == Keeps(items, m, lo, hi, shrink)
    {
      assert items[..n][..m] == items[..m];
    }
  }

  /** With bounds at the boundaries before item `a` and after item `b - 1`, a filter selects items `a..b`. */
  lemma SelectedBetween(items: seq<Item>, a: nat, b: nat, slack: nat, shrink: nat, lo: int, hi: int)
    requires a < b <= |items| && shrink <= 2 && slack + shrink < 6
    requires lo == RelPos(items, a) && hi == RelPos(items, b) + slack
    ensures Selected(items, lo, hi, shrink) == items[a..b]
  {
    forall m | 0 <= m < |items|
      ensures Keeps(items, m, lo, hi, shrink) <==> a <= m < b
    {
      RelPosNext(items, m);
      if m < a {
        RelPosGrows(items, m, a);
      } else if m < b {
        if m > a {
          RelPosGrows(items, a, m);
        }
        if m + 1 < b {
          RelPosGrows(items, m, b);
        }
      } else if m > b {
        RelPosGrows(items, b, m);
      }
    }
    SelectedRun(items, lo, hi, shrink, a, b);
  }

  /** Bounds strictly inside item `k` select nothing. */
  lemma SelectedInside(items: seq<Item>, k: nat, lo: int, hi: int, shrink: nat)
    requires k < |items| && RelPos(items, k) < lo && hi <= RelPos(items, k + 1) && shrink <= 2
    ensures Selected(items, lo, hi, shrink) == []
  {
    forall m | 0 <= m < |items|
      ensures !Keeps(items, m, lo, hi, shrink)
    {
      if m < k {
        RelPosGrows(items, m, k);
      } else if m > k {
        RelPosGrows(items, k, m);
        RelPosNext(items, k);
      }
    }
    SelectedRun(items, lo, hi, shrink, 0, 0);
  }

  /** Bounds around the whole container content select every item. */
  lemma SelectedAll(items: seq<Item>, lo: int, hi: int, shrink: nat)
    requires lo <= 0 && RelPos(items, |items|) <= hi
    ensures Selected(items, lo, hi, shrink) == items
  {
    forall m | 0 <= m < |items|
      ensures Keeps(items, m, lo, hi, shrink)
    {
      RelPosNext(items, m);
      if m + 1 < |items| {
        RelPosGrows(items, m + 1, |items|);
      }
    }
    SelectedRun(items, lo, hi, shrink, 0, |items|);
    assert items[0..|items|] == items;
  }

  // ------------------------------------------------------------ preserved blocks

  /** The text of a run of items, one after the other. */
  function ItemsText(items: seq<Item>): string
  {
    if items == [] then "" else ItemsText(items[..|items| - 1]) + ItemText(items[|items| - 1])
  }

  /**
   * The blocks put back for the selected items: for each item in order, a
   * level-2 heading holding a non-empty title, then the item's content.
   */
  function Preserve(items: seq<Item>): (bs: seq<Block>)
    ensures BlocksText(bs) == ItemsText(items)
    ensures ValidItems(items) ==> ValidBlocks(bs) && |bs| >= |items|
  {
    if items == [] then []
    else
      var n := |items| - 1;
      var pre := Preserve(items[..n]);
      BlocksTextAppend(pre, Dissolve(items[n]));
      assert ValidItems(items) ==> ValidItems(items[..n]) && ValidItem(items[n]);
      pre + Dissolve(items[n])
  }

  /** The loop that collects the blocks to put back, one item at a time. */
  method CollectPreserved(items: seq<Item>) returns (bs: seq<Block>)
    ensures bs == Preserve(items)
  {
    bs := [];
    for n := 0 to |items|
      invariant bs == Preserve(items[..n])
    {
      var it := items[n];
      ghost var before := bs;
      if |it.title| > 0 {
        bs := bs + [Block(Heading(2), [it.title])];
      }
      bs := bs + it.content;
      DissolvePushed(before, it);
      PreserveStep(items, n);
    }
    assert items[..|items|] == items;
  }

  /** The blocks of one item: its heading, when it has a title, then its content. */
  lemma DissolveParts(it: Item)
    ensures |it.title| > 0 ==> Dissolve(it) == [Block(Heading(2), [it.title])] + it.content
    ensures |it.title| == 0 ==> Dissolve(it) == it.content
  {
  }

  /** Pushing an item's heading, when it has a title, and then its content appends its blocks. */
  lemma DissolvePushed(pre: seq<Block>, it: Item)
    ensures (if |it.title| > 0 then pre + [Block(Heading(2), [it.title])] else pre) + it.content == pre + Dissolve(it)
  {
    DissolveParts(it);
  }

  lemma PreserveStep(items: seq<Item>, n: nat)
    requires n < |items|
    ensures Preserve(items[..n + 1]) == Preserve(items[..n]) + Dissolve(items[n])
  {
    assert items[..n + 1][..n] == items[..n];
  }

  // ------------------------------------------------------------ title extraction

  /** The block types whose first text run can become the title. */
  predicate TitleKind(k: Kind)
  {
    k.Paragraph? || k.Heading?
  }

  /** The text of a block's first text node, or "" for a block without text. */
  function FirstRun(b: Block): string
  {
    if b.runs == [] then "" else b.runs[0]
  }

  /** The title and content insertStep receives for the selected top-level blocks. */
  function Extract(bs: seq<Block>): (o: InsertOptions)
    ensures !o.before
    ensures o.content == bs || (bs != [] && o.content == bs[1..])
    ensures o.title != "" ==> bs != [] && TitleKind(bs[0].kind) && o.content == bs[1..]
  {
    if bs != [] && TitleKind(bs[0].kind) then InsertOptions(FirstRun(bs[0]), bs[1..], false)
    else InsertOptions("", bs, false)
  }

  /** The runs of the first block that neither the title nor the content keeps. */
  function LostRuns(bs: seq<Block>): seq<string>
  {
    if bs != [] && TitleKind(bs[0].kind) && bs[0].runs != [] then bs[0].runs[1..] else []
  }

  /**
   * A first paragraph or heading gives the title and the other blocks the
   * content, any other first block leaves the title empty; together they
   * hold all the selected text except the later runs of a title block.
   */
  lemma ExtractText(bs: seq<Block>)
    ensures var o := Extract(bs);
      && !o.before
      && (bs != [] && TitleKind(bs[0].kind) ==> o.title == FirstRun(bs[0]) && o.content == bs[1..])
      && (bs == [] || !TitleKind(bs[0].kind) ==> o.title == "" && o.content == bs)
      && BlocksText(bs) == o.title + Concat(LostRuns(bs)) + BlocksText(o.content)
      && (ValidBlocks(bs) ==> ValidBlocks(o.content))
  {
    if bs != [] && TitleKind(bs[0].kind) && bs[0].runs != [] {
      assert Concat(bs[0].runs) == bs[0].runs[0] + Concat(bs[0].runs[1..]);
    }
  }

  // ------------------------------------------------------------ the command

  /** The selection's ends never cross: `$from` lies in a node no later than `$to`'s. */
  lemma NodeOrder(d: Doc, s: Selection)
    requires ValidSelection(d, s)
    ensures From(d, s).node <= To(d, s).node
  {
    var from, to := From(d, s), To(d, s);
    LocInNode(d, from);
    LocInNode(d, to);
    if to.node < from.node {
      NodesOrdered(d, to.node, from.node);
    }
  }

  /** Whether top-level nodes `a..b` are all textblocks. */
  predicate ProseRange(d: Doc, a: nat, b: nat)
  {
    forall j :: a <= j < b ==> IsTextNode(d, j)
  }

  /**
   * toggleSteps as written: outside a container the selected top-level
   * blocks become one new item; inside one the filtered items are put back
   * as blocks, or removeStep runs when the filter keeps none.
   */
  function ToggleSteps(d: Doc, s: Selection): (r: Outcome)
    requires ValidDoc(d) && ValidSelection(d, s)
    ensures !From(d, s).TopText? && r.Done? ==> r.handled && r.focus.Some?
  {
    var range := BlockRange(d, s);
    if range.None? then Pass
    else
      var from, to := From(d, s), To(d, s);
      if from.TopText? then
        NodeOrder(d, s);
        FromProse(d, from.node, to.node + 1)
      else
        assert ValidNode(d[from.node]);
        FromList(d, from, to, range.value, SelectedAsWritten(d, from.node, range.value))
  }

  /** toggleSteps with the intended item filter. */
  function ToggleStepsCorrected(d: Doc, s: Selection): (r: Outcome)
    requires ValidDoc(d) && ValidSelection(d, s)
    ensures !From(d, s).TopText? && r.Done? ==> r.handled && r.focus.Some?
  {
    var range := BlockRange(d, s);
    if range.None? then Pass
    else
      var from, to := From(d, s), To(d, s);
      if from.TopText? then
        NodeOrder(d, s);
        FromProse(d, from.node, to.node + 1)
      else
        assert ValidNode(d[from.node]);
        FromList(d, from, to, range.value, SelectedCovered(d, from.node, range.value))
  }

  /**
   * Outside a container: the blocks `a..b` are deleted, and insertStep runs
   * at the cursor the deletion leaves, with the title and content taken from
   * them. A range that takes in a container is not modelled.
   */
  function FromProse(d: Doc, a: nat, b: nat): (r: Outcome)
    requires ValidDoc(d) && a < b <= |d|
    ensures r.Unmodelled? <==> !ProseRange(d, a, b)
    ensures r.Done? ==> (r.handled <==> r.focus.Some?)
  {
    if !ProseRange(d, a, b) then Unmodelled
    else
      var d1 := DeleteNodes(d, a, b);
      InsertStep(d1, Near(d1, a), Extract(TopBlocks(d[a..b])))
  }

  /**
   * Inside container `i`: with no item selected, removeStep; otherwise the
   * range is deleted and the selected items' blocks go in its place. A
   * deletion that starts inside an item, or inside the node before the
   * container, is not modelled.
   */
  function FromList(d: Doc, from: Loc, to: Loc, range: Range, sel: seq<Item>): (r: Outcome)
    requires ValidLoc(d, from) && ValidLoc(d, to) && !from.TopText? && ValidItems(sel)
    ensures r != Pass && (r.Done? ==> r.handled && r.focus.Some?)
    ensures sel == [] ==> r == RemoveStep(d, from)
  {
    var i := from.node;
    if sel == [] then RemoveStep(d, from)
    else if range.depth == 1 && !to.TopText? && to.node == i && from.item <= to.item then
      Unwrap(d, i, from.item, to.item + 1, Preserve(sel))
    else if range.depth == 0 && i == 0 then
      Reinstate(d, to.node + 1, Preserve(sel))
    else Unmodelled
  }

  /** The cases in which FromList is modelled. */
  lemma FromListCases(d: Doc, from: Loc, to: Loc, range: Range, sel: seq<Item>)
    requires ValidLoc(d, from) && ValidLoc(d, to) && !from.TopText? && ValidItems(sel)
    requires FromList(d, from, to, range, sel).Done?
    ensures || sel == []
            || (range.depth == 1 && !to.TopText? && to.node == from.node && from.item <= to.item)
            || (range.depth == 0 && from.node == 0)
  {
  }

  /** FromList's first branch: no item selected. */
  lemma FromListRemoves(d: Doc, from: Loc, to: Loc, range: Range, sel: seq<Item>)
    requires ValidLoc(d, from) && ValidLoc(d, to) && !from.TopText? && ValidItems(sel) && sel == []
    ensures FromList(d, from, to, range, sel) == RemoveStep(d, from)
  {
  }

  /** FromList's second branch: items of one container selected. */
  lemma FromListUnwraps(d: Doc, from: Loc, to: Loc, range: Range, sel: seq<Item>)
    requires ValidLoc(d, from) && ValidLoc(d, to) && !from.TopText? && ValidItems(sel) && sel != []
    requires range.depth == 1 && !to.TopText? && to.node == from.node && from.item <= to.item
    ensures FromList(d, from, to, range, sel) == Unwrap(d, from.node, from.item, to.item + 1, Preserve(sel))
  {
  }

  /** FromList's third branch: a range of top-level nodes from a container that opens the document. */
  lemma FromListReinstates(d: Doc, from: Loc, to: Loc, range: Range, sel: seq<Item>)
    requires ValidLoc(d, from) && ValidLoc(d, to) && !from.TopText? && ValidItems(sel) && sel != []
    requires range.depth == 0 && from.node == 0
    ensures FromList(d, from, to, range, sel) == Reinstate(d, to.node + 1, Preserve(sel))
  {
  }

  /** The end of the text of the last of the blocks `bs` placed so that the last one is top-level node `q`. */
  function EndOfPlaced(r: Doc, q: nat, bs: seq<Block>): nat
    requires q <= |r| && bs != []
  {
    NodePos(r, q) + 1 + |TextOf(bs[|bs| - 1])|
  }

  /** Items `a..b` of container `i` replaced by `bs`; the cursor at the end of the last block put back. */
  function Unwrap(d: Doc, i: nat, a: nat, b: nat, bs: seq<Block>): (r: Outcome)
    requires IsSteps(d, i) && a < b <= |d[i].items| && bs != []
    ensures r.Done? && r.handled && r.focus.Some?
    ensures i <= |r.doc| && r.doc[..i] == d[..i]
  {
    var r := ReplaceItems(d, i, a, b, bs);
    var first := if a == 0 then i else i + 1;
    Done(true, r, Some(EndOfPlaced(r, first + |bs| - 1, bs)))
  }

  /** Items `a..b` of container `i` replaced by their own blocks. */
  function UnwrapRun(d: Doc, i: nat, a: nat, b: nat): Outcome
    requires ValidDoc(d) && IsSteps(d, i) && a < b <= |d[i].items|
  {
    assert ValidNode(d[i]);
    Unwrap(d, i, a, b, Preserve(d[i].items[a..b]))
  }

  /** Top-level nodes `0..n` replaced by `bs`; the cursor at the end of the last block put back. */
  function Reinstate(d: Doc, n: nat, bs: seq<Block>): (r: Outcome)
    requires 0 < n <= |d| && bs != []
    ensures r.Done? && r.handled && r.focus.Some?
    ensures |bs| <= |r.doc| && r.doc[..|bs|] == Lift(bs)
    ensures n < |d| ==> r.doc[|bs|..] == d[n..]
    ensures n == |d| ==> r.doc[|bs|..] == [Text(EmptyParagraph)]
  {
    var r := InsertNodes(DeleteNodes(d, 0, n), 0, Lift(bs));
    Done(true, r, Some(EndOfPlaced(r, |bs| - 1, bs)))
  }

  // ------------------------------------------------------------ effects of the two branches

  /**
   * The blocks put back for items `a..b` take those items' place, in order,
   * between what is left of the container before and after them; the cursor
   * ends at the end of the last block's text.
   */
  lemma UnwrapPlacement(d: Doc, i: nat, a: nat, b: nat, bs: seq<Block>)
    requires IsSteps(d, i) && a < b <= |d[i].items| && bs != []
    ensures var r, items := Unwrap(d, i, a, b, bs), d[i].items;
      var q := (if a == 0 then i else i + 1) + |bs| - 1;
      && r.Done? && r.handled && r.doc == ReplaceItems(d, i, a, b, bs)
      && ValidLoc(r.doc, TopText(q, |TextOf(bs[|bs| - 1])|))
      && r.focus == Some(Pos(r.doc, TopText(q, |TextOf(bs[|bs| - 1])|)))
    ensures Empties(d, i, a, b) ==> Unwrap(d, i, a, b, bs).doc == Lift(bs) + [Text(EmptyParagraph)]
  {
    var r := Unwrap(d, i, a, b, bs);
    assert r.doc == ReplaceItems(d, i, a, b, bs);
    var q := ReplacePoint(d, i, a) + |bs| - 1;
    assert r.focus.value == EndOfPlaced(r.doc, q, bs);
    ReplaceLayout(d, i, a, b, bs);
    PlacedEnd(r.doc, KeptBefore(d, i, a), bs, KeptAfter(d, i, a, b));
    if Empties(d, i, a, b) {
      assert d[..i] == [] && d[i + 1..] == [];
      assert KeptBefore(d, i, a) == [] && KeptAfter(d, i, a, b) == [Text(EmptyParagraph)];
    }
  }

  /**
   * The blocks put back stand between what is left of the container before
   * them and what is left after them; when the container was the only node
   * and loses every item, the refill paragraph follows the blocks.
   */
  lemma ReplacedShape(d: Doc, i: nat, a: nat, b: nat, bs: seq<Block>)
    requires IsSteps(d, i) && a <= b <= |d[i].items| && bs != []
    ensures var items := d[i].items;
      ReplaceItems(d, i, a, b, bs) ==
        (d[..i] + (if a == 0 then [] else [Steps(items[..a])])) + Lift(bs)
        + ((if b == |items| then [] else [Steps(items[b..])]) + d[i + 1..]
           + (if Empties(d, i, a, b) then [Text(EmptyParagraph)] else []))
  {
    ReplaceLayout(d, i, a, b, bs);
  }

  /** Blocks placed as top-level nodes after `left`: the end of the last one's text is where EndOfPlaced says. */
  lemma PlacedEnd(r: Doc, left: Doc, bs: seq<Block>, right: Doc)
    requires bs != [] && r == left + Lift(bs) + right
    ensures var q := |left| + |bs| - 1;
      && q < |r| && ValidLoc(r, TopText(q, |TextOf(bs[|bs| - 1])|))
      && Pos(r, TopText(q, |TextOf(bs[|bs| - 1])|)) == EndOfPlaced(r, q, bs)
  {
    assert r[|left| + |bs| - 1] == Lift(bs)[|bs| - 1];
  }

  /** Putting blocks back keeps a valid document valid and removes exactly items `a..b` from it. */
  lemma UnwrapKeeps(d: Doc, i: nat, a: nat, b: nat, bs: seq<Block>)
    requires IsSteps(d, i) && a < b <= |d[i].items| && bs != []
    ensures var r := Unwrap(d, i, a, b, bs);
      && (ValidDoc(d) && ValidBlocks(bs) ==> ValidDoc(r.doc))
      && ItemsOf(r.doc) == ItemsOf(d[..i]) + d[i].items[..a] + d[i].items[b..] + ItemsOf(d[i + 1..])
  {
    ReplaceItemsValid(d, i, a, b, bs);
    ReplacedItems(d, i, a, b, bs);
  }

  /**
   * The blocks put back for a container that opens the document replace
   * every node up to `n`: what was there, textblocks included, is gone, and
   * the cursor ends at the end of the last block's text.
   */
  lemma ReinstatePlacement(d: Doc, n: nat, bs: seq<Block>)
    requires 0 < n <= |d| && bs != []
    ensures var r, q := Reinstate(d, n, bs), |bs| - 1;
      && r.Done? && r.handled
      && r.doc[..|bs|] == Lift(bs)
      && r.doc[|bs|..] == (if n == |d| then [Text(EmptyParagraph)] else d[n..])
      && ValidLoc(r.doc, TopText(q, |TextOf(bs[q])|))
      && r.focus == Some(Pos(r.doc, TopText(q, |TextOf(bs[q])|)))
  {
    var rest := DeleteNodes(d, 0, n);
    var tail := if n == |d| then [Text(EmptyParagraph)] else d[n..];
    assert rest == tail by {
      assert d[..0] + d[n..] == d[n..];
    }
    var doc := InsertNodes(rest, 0, Lift(bs));
    assert doc == [] + Lift(bs) + rest by {
      assert rest[..0] == [] && rest[0..] == rest;
    }
    assert doc[..|bs|] == Lift(bs) && doc[|bs|..] == rest by {
      assert doc == Lift(bs) + rest;
    }
    PlacedEnd(doc, [], bs, rest);
    assert Reinstate(d, n, bs) == Done(true, doc, Some(EndOfPlaced(doc, |bs| - 1, bs)));
  }

  /** Putting blocks back for a container that opens the document keeps a valid document valid. */
  lemma ReinstateValid(d: Doc, n: nat, bs: seq<Block>)
    requires 0 < n <= |d| && bs != []
    ensures ValidDoc(d) && ValidBlocks(bs) ==> ValidDoc(Reinstate(d, n, bs).doc)
  {
    InsertNodesValid(DeleteNodes(d, 0, n), 0, Lift(bs));
  }

  /** Textblocks hold no items. */
  lemma {:induction false} ProseHasNoItems(ns: seq<Node>)
    requires forall j :: 0 <= j < |ns| ==> ns[j].Text?
    ensures ItemsOf(ns) == []
  {
    if ns != [] {
      assert forall j :: 0 <= j < |ns| - 1 ==> ns[1..][j].Text? by {
        forall j | 0 <= j < |ns| - 1 ensures ns[1..][j].Text? { assert ns[1..][j] == ns[j + 1]; }
      }
      ProseHasNoItems(ns[1..]);
    }
  }

  /** Deleting textblocks leaves the document's items as they were. */
  lemma DeleteProseKeepsItems(d: Doc, a: nat, b: nat)
    requires a <= b <= |d| && ProseRange(d, a, b)
    ensures ItemsOf(DeleteNodes(d, a, b)) == ItemsOf(d)
  {
    ProseRangeNoItems(d, a, b);
    ThreeParts(d, a, b);
    ItemsOfCut(d[..a], d[a..b], d[b..]);
    if d[..a] + d[b..] == [] {
      assert ItemsOf([Text(EmptyParagraph)]) == [] + ItemsOf([]);
    }
  }

  /** Textblocks `a..b` hold no items. */
  lemma ProseRangeNoItems(d: Doc, a: nat, b: nat)
    requires a <= b <= |d| && ProseRange(d, a, b)
    ensures ItemsOf(d[a..b]) == []
  {
    var mid := d[a..b];
    forall j | 0 <= j < |mid| ensures mid[j].Text? { assert mid[j] == d[a + j] && IsTextNode(d, a + j); }
    ProseHasNoItems(mid);
  }

  /**
   * Outside a container the selected textblocks become exactly one new item
   * built from their title and content; the blocks themselves are gone, so
   * their text now appears only inside the new item, and no other textblock
   * changes.
   */
  lemma FromProseEffect(d: Doc, a: nat, b: nat)
    requires ValidDoc(d) && a < b <= |d| && ProseRange(d, a, b)
    ensures var r, o := FromProse(d, a, b), Extract(TopBlocks(d[a..b]));
      && r.Done? && r.handled && ValidDoc(r.doc)
      && TopBlocks(r.doc) == TopBlocks(DeleteNodes(d, a, b))
      && |ItemsOf(r.doc)| == |ItemsOf(d)| + 1 && NewItem(o) in ItemsOf(r.doc)
  {
    var d1 := DeleteNodes(d, a, b);
    var o := Extract(TopBlocks(d[a..b]));
    var near := Near(d1, a);
    assert forall j :: 0 <= j < b - a ==> ValidNode(d[a..b][j]);
    TopBlocksValid(d[a..b]);
    ExtractText(TopBlocks(d[a..b]));
    assert ValidBlocks(o.content);
    assert FromProse(d, a, b) == InsertStep(d1, near, o);
    InsertStepValid(d1, near, o);
    InsertStepKeepsBlocks(d1, near, o);
    InsertStepCount(d1, near, o);
    InsertStepItems(d1, near, o);
    DeleteProseKeepsItems(d, a, b);
  }

  /** The prose branch is insertStep, with valid content, at the cursor the deletion leaves. */
  lemma ProseInsert(d: Doc, a: nat, b: nat)
    requires ValidDoc(d) && a < b <= |d| && ProseRange(d, a, b)
    ensures var d1, o := DeleteNodes(d, a, b), Extract(TopBlocks(d[a..b]));
      ValidBlocks(o.content) && FromProse(d, a, b) == InsertStep(d1, Near(d1, a), o)
  {
    assert forall j :: 0 <= j < b - a ==> ValidNode(d[a..b][j]);
    TopBlocksValid(d[a..b]);
    ExtractText(TopBlocks(d[a..b]));
  }

  /**
   * Where the new item goes when nodes follow the deleted blocks: insertStep
   * runs at the start of the next node, so before a textblock a new
   * container takes the blocks' place, and in front of a container the item
   * is added after that container's first item.
   */
  lemma ProsePlacedBefore(d: Doc, a: nat, b: nat)
    requires ValidDoc(d) && a < b < |d| && ProseRange(d, a, b)
    ensures var r, it := FromProse(d, a, b), NewItem(Extract(TopBlocks(d[a..b])));
      && (d[b].Text? ==> r.doc == d[..a] + [Steps([it])] + d[b..])
      && (d[b].Steps? ==> r.doc == AddItem(d[..a] + d[b..], a, 1, it))
  {
    ProseInsert(d, a, b);
    var d1 := DeleteNodes(d, a, b);
    assert d1 == d[..a] + d[b..] && d1[a] == d[b];
  }

  /**
   * When the deleted blocks end the document after a textblock, insertStep
   * runs at the end of that textblock, so the new container goes in front
   * of it rather than where the blocks were.
   */
  lemma ProsePlacedAfterText(d: Doc, a: nat)
    requires ValidDoc(d) && 0 < a < |d| && ProseRange(d, a, |d|) && d[a - 1].Text?
    ensures FromProse(d, a, |d|).doc == d[..a - 1] + [Steps([NewItem(Extract(TopBlocks(d[a..])))]), d[a - 1]]
  {
    ProseInsert(d, a, |d|);
    assert d[a..|d|] == d[a..];
    var d1 := DeleteNodes(d, a, |d|);
    var it := NewItem(Extract(TopBlocks(d[a..])));
    assert d1 == d[..a];
    assert FromProse(d, a, |d|).doc == d1[..a - 1] + [Steps([it])] + d1[a - 1..];
    assert d1[..a - 1] == d[..a - 1] && d1[a - 1..] == [d[a - 1]];
    assert d[..a - 1] + [Steps([it])] + [d[a - 1]] == d[..a - 1] + [Steps([it]), d[a - 1]];
  }

  /** When the deleted blocks end the document after a container, the item is added at that container's end. */
  lemma ProsePlacedAfterList(d: Doc, a: nat)
    requires ValidDoc(d) && 0 < a < |d| && ProseRange(d, a, |d|) && d[a - 1].Steps?
    ensures AddItem(d[..a], a - 1, |d[a - 1].items|, NewItem(Extract(TopBlocks(d[a..])))) == FromProse(d, a, |d|).doc
  {
    ProseInsert(d, a, |d|);
    assert d[a..|d|] == d[a..];
    var d1, o := d[..a], Extract(TopBlocks(d[a..]));
    assert DeleteNodes(d, a, |d|) == d1;
    InsertAtListEnd(d1, o);
  }

  /** At the end of a document that ends with a container, insertStep adds the item after the container's last one. */
  lemma InsertAtListEnd(d: Doc, o: InsertOptions)
    requires ValidDoc(d) && d[|d| - 1].Steps? && ValidBlocks(o.content) && !o.before
    ensures InsertStep(d, Near(d, |d|), o) == AddStep(d, |d| - 1, |d[|d| - 1].items|, NewItem(o))
  {
    var l := Near(d, |d|);
    assert l.ContentText? && l.node == |d| - 1 && l.item == |d[|d| - 1].items| - 1;
    InsertStepAdds(d, l, o);
  }

  /** When every node is selected, the new container goes before the empty paragraph that refills the document. */
  lemma ProsePlacedAlone(d: Doc)
    requires ValidDoc(d) && ProseRange(d, 0, |d|)
    ensures FromProse(d, 0, |d|).doc == [Steps([NewItem(Extract(TopBlocks(d)))]), Text(EmptyParagraph)]
  {
    assert d[..0] + d[|d|..] == [];
    assert DeleteNodes(d, 0, |d|) == [Text(EmptyParagraph)];
    ProseInsert(d, 0, |d|);
    assert d[0..|d|] == d;
  }

  // ------------------------------------------------------------ the filter on the range shapes

  /** Across items `a..b` of container `i`, the intended filter keeps exactly those items. */
  lemma CoveredAcross(d: Doc, i: nat, a: nat, b: nat, range: Range)
    requires IsItem(d, i, b) && a <= b
    requires range.start == ItemPos(d, i, a) && range.end == ItemPos(d, i, b) + ItemSize(d[i].items[b])
    ensures SelectedCovered(d, i, range) == d[i].items[a..b + 1]
  {
    ItemBounds(d, i, a, b, range);
    SelectedBetween(d[i].items, a, b + 1, 0, 0, range.start - NodePos(d, i) - 1, range.end - NodePos(d, i) - 1);
  }

  /** A range over items `a..b` of container `i`, in positions relative to the container's content. */
  lemma ItemBounds(d: Doc, i: nat, a: nat, b: nat, range: Range)
    requires IsItem(d, i, b) && a <= b
    requires range.start == ItemPos(d, i, a) && range.end == ItemPos(d, i, b) + ItemSize(d[i].items[b])
    ensures range.start - NodePos(d, i) - 1 == RelPos(d[i].items, a)
    ensures range.end - NodePos(d, i) - 1 == RelPos(d[i].items, b + 1)
  {
    RelPosNext(d[i].items, b);
  }

  /** Inside item `k`, the intended filter keeps nothing. */
  lemma CoveredInside(d: Doc, i: nat, k: nat, range: Range)
    requires IsItem(d, i, k)
    requires ItemPos(d, i, k) < range.start && range.end < ItemPos(d, i, k) + ItemSize(d[i].items[k])
    ensures SelectedCovered(d, i, range) == []
  {
    var n := NodePos(d, i);
    RelPosNext(d[i].items, k);
    SelectedInside(d[i].items, k, range.start - n - 1, range.end - n - 1, 0);
  }

  /** Across top-level nodes from container `i` on, the intended filter keeps every item. */
  lemma CoveredWhole(d: Doc, i: nat, range: Range)
    requires IsSteps(d, i) && range.start == NodePos(d, i) && NodePos(d, i) + NodeSize(d[i]) <= range.end
    ensures SelectedCovered(d, i, range) == d[i].items
  {
    var n := NodePos(d, i);
    SumAll(d[i].items, ItemSize);
    SelectedAll(d[i].items, range.start - n - 1, range.end - n - 1, 0);
  }

  /** For a container that opens the document, the filter as written agrees across items `a..b`. */
  lemma AsWrittenAcross(d: Doc, a: nat, b: nat, range: Range)
    requires IsItem(d, 0, b) && a <= b
    requires range.start == ItemPos(d, 0, a) && range.end == ItemPos(d, 0, b) + ItemSize(d[0].items[b])
    ensures SelectedAsWritten(d, 0, range) == d[0].items[a..b + 1]
  {
    ItemBounds(d, 0, a, b, range);
    assert NodePos(d, 0) == 0;
    SelectedBetween(d[0].items, a, b + 1, 1, 2, range.start - 1, range.end);
  }

  /** For a container that opens the document, the filter as written keeps nothing inside item `k`. */
  lemma AsWrittenInside(d: Doc, k: nat, range: Range)
    requires IsItem(d, 0, k)
    requires ItemPos(d, 0, k) < range.start && range.end < ItemPos(d, 0, k) + ItemSize(d[0].items[k])
    ensures SelectedAsWritten(d, 0, range) == []
  {
    assert NodePos(d, 0) == 0;
    RelPosNext(d[0].items, k);
    SelectedInside(d[0].items, k, range.start - 1, range.end, 2);
  }

  /** For a container that opens the document, the filter as written keeps every item across top-level nodes. */
  lemma AsWrittenWhole(d: Doc, range: Range)
    requires IsSteps(d, 0) && range.start == 0 && NodeSize(d[0]) <= range.end
    ensures SelectedAsWritten(d, 0, range) == d[0].items
  {
    assert NodePos(d, 0) == 0;
    SumAll(d[0].items, ItemSize);
    SelectedAll(d[0].items, -1, range.end, 2);
  }

  /** Inside a container the corrected command runs the list branch with the intended filter. */
  lemma CorrectedIsFromList(d: Doc, s: Selection)
    requires ValidDoc(d) && ValidSelection(d, s) && !From(d, s).TopText?
    ensures BlockRange(d, s).Some? && ValidItems(d[From(d, s).node].items)
    ensures var range, from, to := BlockRange(d, s).value, From(d, s), To(d, s);
      ToggleStepsCorrected(d, s) == FromList(d, from, to, range, SelectedCovered(d, from.node, range))
  {
    BlockRangeDefined(d, s);
    assert ValidNode(d[From(d, s).node]);
  }

  /** Inside a container both versions of the command run the list branch, each with its own filter. */
  lemma ToggleIsFromList(d: Doc, s: Selection)
    requires ValidDoc(d) && ValidSelection(d, s) && !From(d, s).TopText?
    ensures BlockRange(d, s).Some? && ValidItems(d[From(d, s).node].items)
    ensures var range, from, to := BlockRange(d, s).value, From(d, s), To(d, s);
      && ToggleSteps(d, s) == FromList(d, from, to, range, SelectedAsWritten(d, from.node, range))
      && ToggleStepsCorrected(d, s) == FromList(d, from, to, range, SelectedCovered(d, from.node, range))
  {
    BlockRangeDefined(d, s);
    assert ValidNode(d[From(d, s).node]);
  }

  /** A range inside one item: the intended filter keeps nothing and the command is removeStep. */
  lemma ListInside(d: Doc, from: Loc, to: Loc, range: Range)
    requires ValidDoc(d) && ValidLoc(d, from) && ValidLoc(d, to) && !from.TopText?
    requires ItemPos(d, from.node, from.item) < range.start
    requires range.end < ItemPos(d, from.node, from.item) + ItemSize(d[from.node].items[from.item])
    ensures FromList(d, from, to, range, SelectedCovered(d, from.node, range)) == RemoveStep(d, from)
  {
    CoveredInside(d, from.node, from.item, range);
    FromListRemoves(d, from, to, range, []);
  }

  /** A range across items `a..b` of one container: exactly their blocks are put back in their place. */
  lemma ListAcross(d: Doc, from: Loc, to: Loc, range: Range)
    requires ValidDoc(d) && ValidLoc(d, from) && ValidLoc(d, to) && !from.TopText?
    requires range.depth == 1 && !to.TopText? && to.node == from.node && from.item <= to.item
    requires range.start == ItemPos(d, from.node, from.item)
    requires range.end == ItemPos(d, to.node, to.item) + ItemSize(d[to.node].items[to.item])
    ensures var i, a, b := from.node, from.item, to.item + 1;
      FromList(d, from, to, range, SelectedCovered(d, i, range)) == UnwrapRun(d, i, a, b)
  {
    var i, a, b := from.node, from.item, to.item + 1;
    CoveredAcross(d, i, a, to.item, range);
    FromListRun(d, from, to, range, SelectedCovered(d, i, range));
  }

  /** The list branch on exactly the items from `from`'s to `to`'s puts back those items' blocks. */
  lemma FromListRun(d: Doc, from: Loc, to: Loc, range: Range, sel: seq<Item>)
    requires ValidDoc(d) && ValidLoc(d, from) && ValidLoc(d, to) && !from.TopText?
    requires range.depth == 1 && !to.TopText? && to.node == from.node && from.item <= to.item
    requires sel == d[from.node].items[from.item..to.item + 1]
    ensures FromList(d, from, to, range, sel) == UnwrapRun(d, from.node, from.item, to.item + 1)
  {
    assert ValidNode(d[from.node]) && ValidItems(sel) && sel != [];
    FromListUnwraps(d, from, to, range, sel);
  }

  /** A range from a container that opens the document to a later node: every item's blocks replace the nodes. */
  lemma ListWhole(d: Doc, from: Loc, to: Loc, range: Range)
    requires ValidDoc(d) && ValidLoc(d, from) && ValidLoc(d, to) && !from.TopText? && from.node == 0
    requires range.depth == 0 && range.start == 0 && NodeSize(d[0]) <= range.end
    ensures FromList(d, from, to, range, SelectedCovered(d, 0, range)) == Reinstate(d, to.node + 1, Preserve(d[0].items))
  {
    assert NodePos(d, 0) == 0;
    CoveredWhole(d, 0, range);
    assert ValidNode(d[0]);
    FromListReinstates(d, from, to, range, d[0].items);
  }

  // ------------------------------------------------------------ the command on the range shapes

  /** A selection inside one item: the corrected command is removeStep. */
  lemma ToggleInsideItem(d: Doc, s: Selection)
    requires ValidDoc(d) && ValidSelection(d, s)
    requires BlockRange(d, s).Some? && BlockRange(d, s).value.depth >= 2
    ensures !From(d, s).TopText?
    ensures ToggleStepsCorrected(d, s) == RemoveStep(d, From(d, s))
  {
    RangeShape(d, s);
    var range, from, to := BlockRange(d, s).value, From(d, s), To(d, s);
    CorrectedIsFromList(d, s);
    ListInside(d, from, to, range);
  }

  /**
   * A selection across items `a..b` of one container: the corrected command
   * puts those items' blocks back where they were, in order.
   */
  lemma ToggleAcrossItems(d: Doc, s: Selection)
    requires ValidDoc(d) && ValidSelection(d, s)
    requires BlockRange(d, s).Some? && BlockRange(d, s).value.depth == 1
    ensures var from, to := From(d, s), To(d, s);
      && !from.TopText? && !to.TopText? && to.node == from.node && from.item < to.item
      && ToggleStepsCorrected(d, s) == UnwrapRun(d, from.node, from.item, to.item + 1)
  {
    var range, from, to := BlockRange(d, s).value, From(d, s), To(d, s);
    assert !from.TopText? && !to.TopText? && to.node == from.node && from.item < to.item
      && range.start == ItemPos(d, from.node, from.item)
      && range.end == ItemPos(d, to.node, to.item) + ItemSize(d[to.node].items[to.item]) by {
      AcrossItems(d, s);
    }
    var i, a, b := from.node, from.item, to.item + 1;
    assert ToggleStepsCorrected(d, s) == FromList(d, from, to, range, SelectedCovered(d, i, range)) by {
      CorrectedIsFromList(d, s);
    }
    assert FromList(d, from, to, range, SelectedCovered(d, i, range)) == UnwrapRun(d, i, a, b) by {
      ListAcross(d, from, to, range);
    }
  }

  /**
   * A selection over every item of a container that is the document's only
   * node: the deletion empties the document, which is refilled with an empty
   * paragraph, and the items' blocks go in front of it.
   */
  lemma ToggleEmptiesDocument(d: Doc, s: Selection)
    requires ValidDoc(d) && ValidSelection(d, s) && |d| == 1
    requires BlockRange(d, s).Some? && BlockRange(d, s).value.depth == 1
    requires From(d, s).item == 0 && To(d, s).item == |d[0].items| - 1
    ensures d[0].Steps? && ToggleStepsCorrected(d, s).doc == Lift(Preserve(d[0].items)) + [Text(EmptyParagraph)]
  {
    ToggleAcrossItems(d, s);
    UnwrapWhole(d);
  }

  /** Every item of a container that is the only node replaced by the items' blocks, then the refill paragraph. */
  lemma UnwrapWhole(d: Doc)
    requires ValidDoc(d) && |d| == 1 && d[0].Steps?
    ensures UnwrapRun(d, 0, 0, |d[0].items|).doc == Lift(Preserve(d[0].items)) + [Text(EmptyParagraph)]
  {
    var items := d[0].items;
    assert ValidNode(d[0]);
    assert items[0..|items|] == items;
    UnwrapPlacement(d, 0, 0, |items|, Preserve(items));
  }

  /** A depth-1 block range spans whole items `$from.item..$to.item` of one container. */
  lemma AcrossItems(d: Doc, s: Selection)
    requires ValidSelection(d, s) && BlockRange(d, s).Some? && BlockRange(d, s).value.depth == 1
    ensures var range, from, to := BlockRange(d, s).value, From(d, s), To(d, s);
      && !from.TopText? && !to.TopText? && to.node == from.node && from.item < to.item
      && range.start == ItemPos(d, from.node, from.item)
      && range.end == ItemPos(d, to.node, to.item) + ItemSize(d[to.node].items[to.item])
  {
    RangeShape(d, s);
  }

  /**
   * A selection from a container to a later top-level node: when the
   * container opens the document, the corrected command replaces every node
   * up to the selection's last one by the container's blocks; otherwise the
   * deletion would start inside the node before the container, which is not
   * modelled.
   */
  lemma ToggleAcrossNodes(d: Doc, s: Selection)
    requires ValidDoc(d) && ValidSelection(d, s) && !From(d, s).TopText?
    requires BlockRange(d, s).Some? && BlockRange(d, s).value.depth == 0
    ensures var from, to := From(d, s), To(d, s);
      && from.node < to.node
      && (from.node == 0 ==> ToggleStepsCorrected(d, s) == Reinstate(d, to.node + 1, Preserve(d[0].items)))
      && (from.node > 0 ==> ToggleStepsCorrected(d, s) == Unmodelled)
  {
    RangeShape(d, s);
    var range, from, to := BlockRange(d, s).value, From(d, s), To(d, s);
    CorrectedIsFromList(d, s);
    NodesOrdered(d, from.node, to.node);
    if from.node == 0 {
      ListWhole(d, from, to, range);
    } else {
      CoveredWhole(d, from.node, range);
      assert ValidNode(d[from.node]);
      assert SelectedCovered(d, from.node, range) != [];
    }
  }

  /**
   * A selection that starts outside every container: the range is made of
   * whole top-level nodes, from `$from`'s node to `$to`'s, and both filters
   * lead to the same prose branch.
   */
  lemma ToggleOutsideList(d: Doc, s: Selection)
    requires ValidDoc(d) && ValidSelection(d, s) && From(d, s).TopText?
    ensures BlockRange(d, s).Some?
    ensures var range, a, b := BlockRange(d, s).value, From(d, s).node, To(d, s).node + 1;
      && a < b <= |d| && range.depth == 0
      && range.start == NodePos(d, a) && range.end == NodePos(d, b - 1) + NodeSize(d[b - 1])
      && ToggleSteps(d, s) == FromProse(d, a, b) && ToggleStepsCorrected(d, s) == FromProse(d, a, b)
  {
    RangeShape(d, s);
    LocInNode(d, To(d, s));
  }

  /** Whatever the selection, the command acts: it never passes the key on, since a block range always exists. */
  lemma ToggleStepsActs(d: Doc, s: Selection)
    requires ValidDoc(d) && ValidSelection(d, s)
    ensures ToggleSteps(d, s) != Pass && ToggleStepsCorrected(d, s) != Pass
  {
    BlockRangeDefined(d, s);
    if From(d, s).TopText? {
      ToggleOutsideList(d, s);
    } else {
      ToggleIsFromList(d, s);
    }
  }

  // ------------------------------------------------------------ the filter as written

  /** For a container that opens the document, both filters keep the same items. */
  lemma FiltersAgreeAtStart(d: Doc, s: Selection)
    requires ValidDoc(d) && ValidSelection(d, s) && !From(d, s).TopText? && From(d, s).node == 0
    ensures BlockRange(d, s).Some? && IsSteps(d, 0)
    ensures SelectedAsWritten(d, 0, BlockRange(d, s).value) == SelectedCovered(d, 0, BlockRange(d, s).value)
  {
    RangeShape(d, s);
    var range, from, to := BlockRange(d, s).value, From(d, s), To(d, s);
    if range.depth == 0 {
      NodesOrdered(d, 0, to.node);
    }
    FiltersAgree(d, from, to, range);
  }

  /** Both filters agree on each shape of range that starts in a container opening the document. */
  lemma FiltersAgree(d: Doc, from: Loc, to: Loc, range: Range)
    requires ValidLoc(d, from) && ValidLoc(d, to) && !from.TopText? && from.node == 0
    requires range.depth == 0 ==> range.start == NodePos(d, 0) && NodePos(d, 0) + NodeSize(d[0]) <= range.end
    requires range.depth == 1 ==>
      && !to.TopText? && to.node == 0 && from.item < to.item
      && range.start == ItemPos(d, 0, from.item) && range.end == ItemPos(d, 0, to.item) + ItemSize(d[0].items[to.item])
    requires range.depth >= 2 ==>
      ItemPos(d, 0, from.item) < range.start && range.end < ItemPos(d, 0, from.item) + ItemSize(d[0].items[from.item])
    ensures SelectedAsWritten(d, 0, range) == SelectedCovered(d, 0, range)
  {
    assert NodePos(d, 0) == 0;
    if range.depth == 0 {
      AsWrittenWhole(d, range);
      CoveredWhole(d, 0, range);
    } else if range.depth == 1 {
      AsWrittenAcross(d, from.item, to.item, range);
      CoveredAcross(d, 0, from.item, to.item, range);
    } else {
      AsWrittenInside(d, from.item, range);
      CoveredInside(d, 0, from.item, range);
    }
  }

  /** For a container that opens the document, the command as written and the corrected one agree. */
  lemma AsWrittenAtStart(d: Doc, s: Selection)
    requires ValidDoc(d) && ValidSelection(d, s) && !From(d, s).TopText? && From(d, s).node == 0
    ensures ToggleSteps(d, s) == ToggleStepsCorrected(d, s)
  {
    FiltersAgreeAtStart(d, s);
    ToggleIsFromList(d, s);
  }

  /** The document of the counterexample: an empty paragraph, then a container of three items, the middle one titled "x". */
  function DropDoc(): Doc
  {
    [Text(EmptyParagraph), Steps([Item("", [EmptyParagraph]), Item("x", [EmptyParagraph]), Item("", [EmptyParagraph])])]
  }

  /** The counterexample's selection: from the start of the second item's title to the start of the third's. */
  function DropSelection(): Selection
  {
    Selection(TitleText(1, 1, 0), TitleText(1, 2, 0))
  }

  /** The positions in the counterexample: the container at 2, its items at 11 and 20, its content ending at 28. */
  lemma DropLayout()
    ensures var d := DropDoc();
      && ValidDoc(d) && ValidSelection(d, DropSelection())
      && NodePos(d, 1) == 2 && NodeSize(d[1]) == 27
      && RelPos(d[1].items, 1) == 8 && RelPos(d[1].items, 2) == 17 && RelPos(d[1].items, 3) == 25
      && ItemPos(d, 1, 1) == 11 && ItemPos(d, 1, 2) == 20
  {
    var d := DropDoc();
    var e := Item("", [EmptyParagraph]);
    var x := Item("x", [EmptyParagraph]);
    var items := d[1].items;
    assert BlockSize(EmptyParagraph) == 2 by { assert TextOf(EmptyParagraph) == ""; }
    assert BlocksSize([EmptyParagraph]) == 2 by {
      assert [EmptyParagraph][..0] == [];
      assert Sum([EmptyParagraph], BlockSize) == Sum([], BlockSize) + BlockSize(EmptyParagraph);
    }
    assert ItemSize(e) == 8 && ItemSize(x) == 9;
    assert NodePos(d, 1) == 2 by { assert d[..1] == [d[0]] && d[..1][..0] == []; }
    assert RelPos(items, 1) == 8 by {
      assert items[..1] == [e] && items[..1][..0] == [];
      assert Sum([e], ItemSize) == Sum([], ItemSize) + ItemSize(e);
    }
    assert RelPos(items, 2) == 17 by { RelPosNext(items, 1); }
    assert RelPos(items, 3) == 25 by { RelPosNext(items, 2); }
    SumAll(items, ItemSize);
  }

  /** The counterexample's block range spans the second and third items. */
  lemma DropRange()
    ensures ValidDoc(DropDoc()) && ValidSelection(DropDoc(), DropSelection())
    ensures BlockRange(DropDoc(), DropSelection()) == Some(Range(1, 11, 28))
  {
    var d, s := DropDoc(), DropSelection();
    DropLayout();
    var from, to := s.anchor, s.head;
    assert Pos(d, from) == 13 && Pos(d, to) == 22;
    assert From(d, s) == from && To(d, s) == to;
    assert End(d, from, 2) == 19;
    assert End(d, from, 1) == 28;
    assert RangeFrom(d, from, to, 2) == RangeFrom(d, from, to, 1);
  }

  /** The filter as written keeps only the third item; the corrected filter keeps the second and third. */
  lemma DropFilters()
    ensures IsSteps(DropDoc(), 1)
    ensures SelectedAsWritten(DropDoc(), 1, Range(1, 11, 28)) == [Item("", [EmptyParagraph])]
    ensures SelectedCovered(DropDoc(), 1, Range(1, 11, 28)) == [Item("x", [EmptyParagraph]), Item("", [EmptyParagraph])]
  {
    var d := DropDoc();
    DropLayout();
    var items := d[1].items;
    RelPosNext(items, 0);
    RelPosNext(items, 2);
    SelectedRun(items, 10, 28, 2, 2, 3);
    CoveredAcross(d, 1, 1, 2, Range(1, 11, 28));
  }

  /** What the list branch leaves on the counterexample for the blocks each filter puts back. */
  lemma DropUnwrap()
    ensures IsSteps(DropDoc(), 1) && |DropDoc()[1].items| == 3
    ensures Unwrap(DropDoc(), 1, 1, 3, [EmptyParagraph]) ==
      Done(true, [Text(EmptyParagraph), Steps([Item("", [EmptyParagraph])]), Text(EmptyParagraph)], Some(13))
    ensures Unwrap(DropDoc(), 1, 1, 3, [Block(Heading(2), ["x"]), EmptyParagraph, EmptyParagraph]) ==
      Done(true, [Text(EmptyParagraph), Steps([Item("", [EmptyParagraph])]), Text(Block(Heading(2), ["x"])),
                  Text(EmptyParagraph), Text(EmptyParagraph)], Some(18))
  {
    var d := DropDoc();
    DropLayout();
    var e := Item("", [EmptyParagraph]);
    assert d[..1] == [Text(EmptyParagraph)] && d[2..] == [] && d[1].items[..1] == [e];
    var r1 := [Text(EmptyParagraph), Steps([e]), Text(EmptyParagraph)];
    var h := Block(Heading(2), ["x"]);
    var r2 := [Text(EmptyParagraph), Steps([e]), Text(h), Text(EmptyParagraph), Text(EmptyParagraph)];
    assert ReplaceItems(d, 1, 1, 3, [EmptyParagraph]) == r1;
    assert ReplaceItems(d, 1, 1, 3, [h, EmptyParagraph, EmptyParagraph]) == r2;
    assert NodeSize(Steps([e])) == 10 by {
      assert [e][..0] == [];
      assert Sum([e], ItemSize) == Sum([], ItemSize) + ItemSize(e);
    }
    assert |TextOf(h)| == 1 by { assert Concat(["x"]) == "x" + Concat([]); }
    assert NodePos(r1, 2) == 12 by {
      SumStep(r1, NodeSize, 1);
      assert r1[..2][..1] == r1[..1] && r1[..1][..0] == [];
      SumStep(r1, NodeSize, 0);
    }
    assert NodePos(r2, 2) == 12 by {
      assert r2[..2] == r1[..2];
      assert NodePos(r1, 2) == Sum(r1[..2], NodeSize);
    }
    assert NodePos(r2, 4) == 17 by {
      SumStep(r2, NodeSize, 2);
      SumStep(r2, NodeSize, 3);
    }
  }

  /** The list branch on the counterexample, for the items a filter keeps. */
  lemma DropList(sel: seq<Item>)
    requires sel == [Item("", [EmptyParagraph])] || sel == [Item("x", [EmptyParagraph]), Item("", [EmptyParagraph])]
    ensures ValidDoc(DropDoc()) && ValidItems(sel)
    ensures FromList(DropDoc(), TitleText(1, 1, 0), TitleText(1, 2, 0), Range(1, 11, 28), sel) ==
      Unwrap(DropDoc(), 1, 1, 3, Preserve(sel))
  {
    DropLayout();
    var d, from, to := DropDoc(), TitleText(1, 1, 0), TitleText(1, 2, 0);
    assert ValidLoc(d, from) && ValidLoc(d, to) && ValidItems(sel);
    FromListUnwraps(d, from, to, Range(1, 11, 28), sel);
  }

  /** The counterexample's selection runs forward: its anchor is `$from`. */
  lemma DropEnds()
    ensures ValidDoc(DropDoc()) && ValidSelection(DropDoc(), DropSelection())
    ensures From(DropDoc(), DropSelection()) == TitleText(1, 1, 0) && To(DropDoc(), DropSelection()) == TitleText(1, 2, 0)
  {
    DropLayout();
  }

  /** The blocks each filter's items give back on the counterexample. */
  lemma DropPreserved()
    ensures Preserve([Item("", [EmptyParagraph])]) == [EmptyParagraph]
    ensures Preserve([Item("x", [EmptyParagraph]), Item("", [EmptyParagraph])]) ==
      [Block(Heading(2), ["x"]), EmptyParagraph, EmptyParagraph]
  {
    var e, x := Item("", [EmptyParagraph]), Item("x", [EmptyParagraph]);
    PreservePair(x, e);
    DissolveParts(e);
    DissolveParts(x);
    assert [Block(Heading(2), ["x"])] + [EmptyParagraph] + [EmptyParagraph] == [Block(Heading(2), ["x"]), EmptyParagraph, EmptyParagraph];
  }

  /** One item gives back its own blocks; two give back the first's, then the second's. */
  lemma PreservePair(a: Item, b: Item)
    ensures Preserve([a]) == Dissolve(a) && Preserve([a, b]) == Dissolve(a) + Dissolve(b)
  {
    assert [a][..0] == [] && [a, b][..1] == [a];
  }

  /** The outcome of the list branch, once each filter's result is known. */
  lemma ToggleByFilters(d: Doc, s: Selection, range: Range, w: seq<Item>, c: seq<Item>, outW: Outcome, outC: Outcome)
    requires ValidDoc(d) && ValidSelection(d, s) && !From(d, s).TopText? && BlockRange(d, s) == Some(range)
    requires SelectedAsWritten(d, From(d, s).node, range) == w && SelectedCovered(d, From(d, s).node, range) == c
    requires ValidItems(w) && FromList(d, From(d, s), To(d, s), range, w) == outW
    requires ValidItems(c) && FromList(d, From(d, s), To(d, s), range, c) == outC
    ensures ToggleSteps(d, s) == outW && ToggleStepsCorrected(d, s) == outC
  {
    ToggleIsFromList(d, s);
  }

  /**
   * On the counterexample the command as written deletes the second and
   * third items but puts back only the third item's blocks, so the title "x"
   * is lost; the corrected command puts back a heading "x" and both items'
   * content.
   */
  lemma AsWrittenDropsItem()
    ensures ValidDoc(DropDoc()) && ValidSelection(DropDoc(), DropSelection())
    ensures ToggleSteps(DropDoc(), DropSelection()) ==
      Done(true, [Text(EmptyParagraph), Steps([Item("", [EmptyParagraph])]), Text(EmptyParagraph)], Some(13))
    ensures ToggleStepsCorrected(DropDoc(), DropSelection()) ==
      Done(true, [Text(EmptyParagraph), Steps([Item("", [EmptyParagraph])]), Text(Block(Heading(2), ["x"])),
                  Text(EmptyParagraph), Text(EmptyParagraph)], Some(18))
  {
    var d, s := DropDoc(), DropSelection();
    var e, x := Item("", [EmptyParagraph]), Item("x", [EmptyParagraph]);
    DropRange();
    DropFilters();
    DropEnds();
    DropOutcomeAsWritten();
    DropOutcomeCorrected();
    var range := Range(1, 11, 28);
    ToggleByFilters(d, s, range, [e], [x, e],
      Done(true, [Text(EmptyParagraph), Steps([e]), Text(EmptyParagraph)], Some(13)),
      Done(true, [Text(EmptyParagraph), Steps([e]), Text(Block(Heading(2), ["x"])), Text(EmptyParagraph), Text(EmptyParagraph)], Some(18)));
  }

  /** The list branch on the counterexample, for the item the filter as written keeps. */
  lemma DropOutcomeAsWritten()
    ensures ValidDoc(DropDoc())
    ensures FromList(DropDoc(), TitleText(1, 1, 0), TitleText(1, 2, 0), Range(1, 11, 28), [Item("", [EmptyParagraph])]) ==
      Done(true, [Text(EmptyParagraph), Steps([Item("", [EmptyParagraph])]), Text(EmptyParagraph)], Some(13))
  {
    var e := Item("", [EmptyParagraph]);
    DropUnwrap();
    DropList([e]);
    DropPreserved();
  }

  /** The list branch on the counterexample, for the items the intended filter keeps. */
  lemma DropOutcomeCorrected()
    ensures ValidDoc(DropDoc())
    ensures FromList(DropDoc(), TitleText(1, 1, 0), TitleText(1, 2, 0), Range(1, 11, 28),
                     [Item("x", [EmptyParagraph]), Item("", [EmptyParagraph])]) ==
      Done(true, [Text(EmptyParagraph), Steps([Item("", [EmptyParagraph])]), Text(Block(Heading(2), ["x"])),
                  Text(EmptyParagraph), Text(EmptyParagraph)], Some(18))
  {
    var e, x := Item("", [EmptyParagraph]), Item("x", [EmptyParagraph]);
    DropUnwrap();
    DropList([x, e]);
    DropPreserved();
  }

  // ------------------------------------------------------------ the command's result

  /** Inside a container, every modelled branch handles the key and leaves a valid document. */
  lemma FromListValid(d: Doc, from: Loc, to: Loc, range: Range, sel: seq<Item>)
    requires ValidDoc(d) && ValidLoc(d, from) && ValidLoc(d, to) && !from.TopText? && ValidItems(sel)
    requires FromList(d, from, to, range, sel).Done?
    ensures FromList(d, from, to, range, sel).handled && ValidDoc(FromList(d, from, to, range, sel).doc)
  {
    var i := from.node;
    if sel == [] {
      RemovesValid(d, from, to, range, sel);
    } else if range.depth == 1 && !to.TopText? && to.node == i && from.item <= to.item {
      UnwrapsValid(d, from, to, range, sel);
    } else {
      assert range.depth == 0 && i == 0;
      ReinstatesValid(d, from, to, range, sel);
    }
  }

  lemma RemovesValid(d: Doc, from: Loc, to: Loc, range: Range, sel: seq<Item>)
    requires ValidDoc(d) && ValidLoc(d, from) && ValidLoc(d, to) && !from.TopText? && ValidItems(sel) && sel == []
    ensures FromList(d, from, to, range, sel).handled && ValidDoc(FromList(d, from, to, range, sel).doc)
  {
    FromListRemoves(d, from, to, range, sel);
    RemoveStepValid(d, from);
    var r := FromList(d, from, to, range, sel);
    assert r.doc == RemoveStep(d, from).doc;
    assert r.handled;
  }

  lemma UnwrapsValid(d: Doc, from: Loc, to: Loc, range: Range, sel: seq<Item>)
    requires ValidDoc(d) && ValidLoc(d, from) && ValidLoc(d, to) && !from.TopText? && ValidItems(sel) && sel != []
    requires range.depth == 1 && !to.TopText? && to.node == from.node && from.item <= to.item
    ensures FromList(d, from, to, range, sel).handled && ValidDoc(FromList(d, from, to, range, sel).doc)
  {
    UnwrapArgs(d, from, to, sel);
    UnwrapValid(d, from.node, from.item, to.item + 1, Preserve(sel));
    FromListUnwraps(d, from, to, range, sel);
  }

  /** A run of selected items in one container meets what Unwrap and UnwrapValid ask. */
  lemma UnwrapArgs(d: Doc, from: Loc, to: Loc, sel: seq<Item>)
    requires ValidLoc(d, from) && ValidLoc(d, to) && !from.TopText? && ValidItems(sel) && sel != []
    requires !to.TopText? && to.node == from.node && from.item <= to.item
    ensures IsSteps(d, from.node) && from.item < to.item + 1 <= |d[from.node].items|
    ensures Preserve(sel) != [] && ValidBlocks(Preserve(sel))
  {
  }

  /** Putting valid blocks back leaves a valid document and handles the key. */
  lemma UnwrapValid(d: Doc, i: nat, a: nat, b: nat, bs: seq<Block>)
    requires ValidDoc(d) && IsSteps(d, i) && a < b <= |d[i].items| && bs != [] && ValidBlocks(bs)
    ensures Unwrap(d, i, a, b, bs).handled && ValidDoc(Unwrap(d, i, a, b, bs).doc)
  {
    ReplacedNodesValid(d, i, a, b, bs);
  }

  lemma ReinstatesValid(d: Doc, from: Loc, to: Loc, range: Range, sel: seq<Item>)
    requires ValidDoc(d) && ValidLoc(d, from) && ValidLoc(d, to) && !from.TopText? && ValidItems(sel) && sel != []
    requires range.depth == 0 && from.node == 0
    ensures FromList(d, from, to, range, sel).handled && ValidDoc(FromList(d, from, to, range, sel).doc)
  {
    var bs := Preserve(sel);
    FromListReinstates(d, from, to, range, sel);
    ReinstateValid(d, to.node + 1, bs);
    var r := FromList(d, from, to, range, sel);
    assert r.doc == Reinstate(d, to.node + 1, bs).doc;
    assert r.handled;
  }

  /** Whenever the corrected command is modelled it handles the key and leaves a valid document. */
  lemma ToggleStepsValid(d: Doc, s: Selection)
    requires ValidDoc(d) && ValidSelection(d, s) && ToggleStepsCorrected(d, s).Done?
    ensures ToggleStepsCorrected(d, s).handled && ValidDoc(ToggleStepsCorrected(d, s).doc)
  {
    var from, to := From(d, s), To(d, s);
    if from.TopText? {
      ToggleOutsideList(d, s);
      FromProseEffect(d, from.node, to.node + 1);
    } else {
      CorrectedIsFromList(d, s);
      var range := BlockRange(d, s).value;
      FromListValid(d, from, to, range, SelectedCovered(d, from.node, range));
    }
  }

  // ------------------------------------------------------------ scenarios

  /** Toggling a document that is one empty paragraph: one container, one item with no title and one empty paragraph. */
  lemma ToggleEmptyDocument()
    ensures var d, s := [Text(EmptyParagraph)], Cursor(TopText(0, 0));
      && ValidDoc(d) && ValidSelection(d, s)
      && ToggleSteps(d, s).Done? && ToggleSteps(d, s).handled
      && ToggleSteps(d, s).doc == [Steps([Item("", [EmptyParagraph])]), Text(EmptyParagraph)]
  {
    var d, s := [Text(EmptyParagraph)], Cursor(TopText(0, 0));
    ToggleOutsideList(d, s);
    ProsePlacedAlone(d);
    FromProseEffect(d, 0, 1);
    assert d[0..1] == d && d[1..] == [];
    assert TopBlocks(d) == [EmptyParagraph] + TopBlocks([]);
  }

  /** Toggling a document that is one paragraph "t": its text becomes the title, and the content is one empty paragraph. */
  lemma ToggleOneParagraph(t: string)
    requires t != ""
    ensures var d, s := [Text(Block(Paragraph, [t]))], Cursor(TopText(0, 0));
      && ValidDoc(d) && ValidSelection(d, s)
      && ToggleSteps(d, s).Done? && ToggleSteps(d, s).handled
      && ToggleSteps(d, s).doc == [Steps([Item(t, [EmptyParagraph])]), Text(EmptyParagraph)]
  {
    var d, s := [Text(Block(Paragraph, [t]))], Cursor(TopText(0, 0));
    ToggleOutsideList(d, s);
    ProsePlacedAlone(d);
    FromProseEffect(d, 0, 1);
    assert d[0..1] == d && d[1..] == [];
    assert TopBlocks(d) == [Block(Paragraph, [t])] + TopBlocks([]);
  }

  /**
   * Toggling again, with the cursor at the start of that title, dissolves
   * the item: the title comes back as a level-2 heading, followed by the
   * content's empty paragraph and the paragraph after the container.
   */
  lemma ToggleBack(t: string)
    requires t != ""
    ensures var d, s := [Steps([Item(t, [EmptyParagraph])]), Text(EmptyParagraph)], Cursor(TitleText(0, 0, 0));
      && ValidDoc(d) && ValidSelection(d, s)
      && ToggleSteps(d, s).Done? && ToggleSteps(d, s).handled
      && ToggleSteps(d, s).doc == [Text(Block(Heading(2), [t])), Text(EmptyParagraph), Text(EmptyParagraph)]
  {
    var it := Item(t, [EmptyParagraph]);
    var d, s := [Steps([it]), Text(EmptyParagraph)], Cursor(TitleText(0, 0, 0));
    assert ValidDoc(d);
    ToggleBackRange(d, s);
    AsWrittenAtStart(d, s);
    ToggleInsideItem(d, s);
    ToggleBackRemoves(t);
  }

  lemma ToggleBackRange(d: Doc, s: Selection)
    requires |d| >= 1 && d[0].Steps? && |d[0].items| >= 1 && s == Cursor(TitleText(0, 0, 0)) && ValidDoc(d)
    ensures ValidSelection(d, s) && BlockRange(d, s).Some? && BlockRange(d, s).value.depth == 2
  {
    var from := TitleText(0, 0, 0);
    ItemInNode(d, 0, 0);
    assert Pos(d, from) <= End(d, from, 2);
  }

  lemma ToggleBackRemoves(t: string)
    requires t != ""
    ensures var d := [Steps([Item(t, [EmptyParagraph])]), Text(EmptyParagraph)];
      && ValidLoc(d, TitleText(0, 0, 0))
      && RemoveStep(d, TitleText(0, 0, 0)).doc == [Text(Block(Heading(2), [t])), Text(EmptyParagraph), Text(EmptyParagraph)]
  {
    var it := Item(t, [EmptyParagraph]);
    var d := [Steps([it]), Text(EmptyParagraph)];
    var bs := Dissolve(it);
    assert bs == [Block(Heading(2), [t]), EmptyParagraph];
    assert Split(d[0].items, 0, 1, bs) == Lift(bs);
    assert d[..0] == [] && d[1..] == [Text(EmptyParagraph)];
  }

  // ------------------------------------------------------------ the command on a transaction

  /** The prose branch on the transaction: the new item's parts are taken before the blocks are deleted. */
  method FromProseIn(tr: Transaction, a: nat, b: nat) returns (ok: bool)
    requires ValidDoc(tr.doc) && a < b <= |tr.doc| && ProseRange(tr.doc, a, b)
    modifies tr
    ensures var r := FromProse(old(tr.doc), a, b); ok == r.handled && tr.doc == r.doc && tr.focus == r.focus
  {
    ProseInsert(tr.doc, a, b);
    var opts := Extract(TopBlocks(tr.doc[a..b]));
    tr.DeleteNodesAt(a, b);
    ok := InsertStepIn(tr, Near(tr.doc, a), opts);
  }

  /** The branch inside a container on the transaction: removeStep, or the selected items' blocks put back. */
  method FromListIn(tr: Transaction, from: Loc, to: Loc, range: Range, sel: seq<Item>) returns (ok: bool)
    requires ValidLoc(tr.doc, from) && ValidLoc(tr.doc, to) && !from.TopText? && ValidItems(sel)
    requires FromList(tr.doc, from, to, range, sel).Done?
    modifies tr
    ensures var r := FromList(old(tr.doc), from, to, range, sel); ok == r.handled && tr.doc == r.doc && tr.focus == r.focus
  {
    var i := from.node;
    ghost var d := tr.doc;
    FromListCases(d, from, to, range, sel);
    if sel == [] {
      FromListRemoves(d, from, to, range, sel);
      ok := RemoveStepIn(tr, from);
      return;
    }
    var bs := CollectPreserved(sel);
    if range.depth == 1 && !to.TopText? && to.node == i && from.item <= to.item {
      FromListUnwraps(d, from, to, range, sel);
      UnwrapIn(tr, i, from.item, to.item + 1, bs);
    } else {
      FromListReinstates(d, from, to, range, sel);
      ReinstateIn(tr, to.node + 1, bs);
    }
    ok := true;
  }

  /** Items `a..b` of container `i` deleted, the blocks inserted where they were, and the cursor put after them. */
  method UnwrapIn(tr: Transaction, i: nat, a: nat, b: nat, bs: seq<Block>)
    requires IsSteps(tr.doc, i) && a < b <= |tr.doc[i].items| && bs != []
    modifies tr
    ensures var r := Unwrap(old(tr.doc), i, a, b, bs); tr.doc == r.doc && tr.focus == r.focus
  {
    ghost var r := Unwrap(tr.doc, i, a, b, bs);
    tr.ReplaceItemsAt(i, a, b, bs);
    var first := if a == 0 then i else i + 1;
    assert tr.doc == r.doc;
    tr.SetSelection(EndOfPlaced(tr.doc, first + |bs| - 1, bs));
  }

  /** Top-level nodes `0..n` deleted, the blocks inserted at the start, and the cursor put after them. */
  method ReinstateIn(tr: Transaction, n: nat, bs: seq<Block>)
    requires 0 < n <= |tr.doc| && bs != []
    modifies tr
    ensures var r := Reinstate(old(tr.doc), n, bs); tr.doc == r.doc && tr.focus == r.focus
  {
    tr.DeleteNodesAt(0, n);
    tr.InsertNodesAt(0, Lift(bs));
    tr.SetSelection(EndOfPlaced(tr.doc, |bs| - 1, bs));
  }

  /** toggleSteps with the intended filter, step by step on the transaction. */
  method ToggleStepsIn(tr: Transaction, s: Selection) returns (ok: bool)
    requires ValidDoc(tr.doc) && ValidSelection(tr.doc, s) && ToggleStepsCorrected(tr.doc, s).Done?
    modifies tr
    ensures var r := ToggleStepsCorrected(old(tr.doc), s);
      ok && tr.doc == r.doc && tr.focus == r.focus && ValidDoc(tr.doc)
  {
    ToggleStepsValid(tr.doc, s);
    var from, to := From(tr.doc, s), To(tr.doc, s);
    if from.TopText? {
      ToggleOutsideList(tr.doc, s);
      ok := FromProseIn(tr, from.node, to.node + 1);
    } else {
      CorrectedIsFromList(tr.doc, s);
      var range := BlockRange(tr.doc, s).value;
      assert ValidNode(tr.doc[from.node]);
      ok := FromListIn(tr, from, to, range, SelectedCovered(tr.doc, from.node, range));
    }
  }
}
