/**
 * The stepTitle key handlers. Enter tries, in order: a paragraph above a
 * container when at the start of its first title; a new item before the
 * current one at the start of a later non-blank title; removing a blank
 * last item and adding a paragraph after the container; moving the cursor
 * into the content at the end of the title; and otherwise cutting the
 * title after the cursor to the front of the content. Backspace at the
 * start of a title, with nothing selected, removes the item.
 */
module StepTitle {
  import opened Document
  import opened Host
  import opened StepItem

  // ------------------------------------------------------------ trim

  /** The WhiteSpace and LineTerminator characters of ECMAScript, which `String.prototype.trim` strips. */
  predicate IsSpace(c: char)
  {
    || c == ' ' || c == '\t' || c == '\n' || c == '\U{000B}' || c == '\U{000C}' || c == '\r'
    || c == '\U{00A0}' || c == '\U{1680}' || ('\U{2000}' <= c <= '\U{200A}')
    || c == '\U{2028}' || c == '\U{2029}' || c == '\U{202F}' || c == '\U{205F}' || c == '\U{3000}' || c == '\U{FEFF}'
  }

  /** The string less its leading white space. */
  function TrimStart(s: string): (r: string)
    ensures |r| <= |s| && r == s[|s| - |r|..]
    ensures r == "" || !IsSpace(r[0])
    ensures forall j :: 0 <= j < |s| - |r| ==> IsSpace(s[j])
  {
    if s != "" && IsSpace(s[0]) then
      var r := TrimStart(s[1..]);
      assert forall j :: 1 <= j < |s| - |r| ==> s[j] == s[1..][j - 1];
      r
    else s
  }

  /** The string less its trailing white space. */
  function TrimEnd(s: string): (r: string)
    ensures |r| <= |s| && r == s[..|r|]
    ensures r == "" || !IsSpace(r[|r| - 1])
    ensures forall j :: |r| <= j < |s| ==> IsSpace(s[j])
  {
    if s != "" && IsSpace(s[|s| - 1]) then
      var r := TrimEnd(s[..|s| - 1]);
      assert forall j :: |r| <= j < |s| - 1 ==> s[j] == s[..|s| - 1][j];
      r
    else s
  }

  /** `String.prototype.trim`. */
  function Trim(s: string): string
  {
    TrimEnd(TrimStart(s))
  }

  /** A string trims to nothing exactly when it is all white space. */
  lemma TrimBlank(s: string)
    ensures Trim(s) == "" <==> forall j :: 0 <= j < |s| ==> IsSpace(s[j])
  {
    var t := TrimStart(s);
    if Trim(s) == "" {
      forall j | 0 <= j < |s| ensures IsSpace(s[j]) {
        if j >= |s| - |t| {
          assert s[j] == t[j - (|s| - |t|)];
        }
      }
    } else {
      var u := Trim(s);
      assert u[0] == t[0];
      assert s[|s| - |t|] == t[0];
    }
  }

  // ------------------------------------------------------------ offsets

  /** `stepItem.start === steps.start + 1` holds exactly for the container's first item. */
  lemma FirstStepTest(d: Doc, i: nat, k: nat)
    requires IsItem(d, i, k)
    ensures ItemPos(d, i, k) + 1 == NodePos(d, i) + 1 + 1 <==> k == 0
  {
    if k > 0 {
      SumGap(d[i].items, ItemSize, 0, k);
    }
  }

  /**
   * `stepItem.pos + stepItem.content.size + 1 === steps.pos + steps.content.size`
   * holds exactly for the container's last item.
   */
  lemma LastStepTest(d: Doc, i: nat, k: nat)
    requires IsItem(d, i, k)
    ensures var items := d[i].items;
      ItemPos(d, i, k) + (ItemSize(items[k]) - 2) + 1 == NodePos(d, i) + ItemsSize(items) <==> k == |items| - 1
  {
    var items := d[i].items;
    SlotAfter(d, i, k);
    SumAll(items, ItemSize);
    if k + 1 < |items| {
      ItemsOrdered(d, i, k + 1, |items|);
    }
  }

  /** A cursor is at `stepTitle.start` exactly when it is at the start of that title's text. */
  lemma TitleStartTest(d: Doc, i: nat, k: nat, to: Loc)
    requires IsItem(d, i, k) && ValidLoc(d, to)
    ensures Pos(d, to) == TitlePos(d, i, k) + 1 <==> to == TitleText(i, k, 0)
  {
    if Pos(d, to) == TitlePos(d, i, k) + 1 {
      PosInjective(d, to, TitleText(i, k, 0));
    }
  }

  /**
   * A cursor is at `endOfTitle` exactly when it is at the end of that
   * title's text, and `endOfTitle + 3` is the start of the first content
   * block's text.
   */
  lemma TitleEndTest(d: Doc, i: nat, k: nat, to: Loc)
    requires IsItem(d, i, k) && ValidLoc(d, to) && |d[i].items[k].content| >= 1
    ensures var t := |d[i].items[k].title|;
      && (Pos(d, to) == TitlePos(d, i, k) + 1 + t <==> to == TitleText(i, k, t))
      && TitlePos(d, i, k) + 1 + t + 3 == Pos(d, ContentText(i, k, 0, 0))
  {
    var t := |d[i].items[k].title|;
    if Pos(d, to) == TitlePos(d, i, k) + 1 + t {
      PosInjective(d, to, TitleText(i, k, t));
    }
  }

  // ------------------------------------------------------------ edits

  /** Item `it` with the title text from offset `o` on moved to the front of its first content block. */
  function CutItem(it: Item, o: nat): (r: Item)
    requires o <= |it.title| && |it.content| >= 1
    ensures r.title == it.title[..o] && |r.content| == |it.content| && r.content[1..] == it.content[1..]
  {
    var b := it.content[0];
    Item(it.title[..o], [Block(b.kind, [it.title[o..]] + b.runs)] + it.content[1..])
  }

  /** The cut of the title of item `k` of container `i` at offset `o`. */
  function CutTitle(d: Doc, i: nat, k: nat, o: nat): Doc
    requires IsItem(d, i, k) && o <= |d[i].items[k].title| && |d[i].items[k].content| >= 1
  {
    d[i := Steps(d[i].items[k := CutItem(d[i].items[k], o)])]
  }

  /** Cutting moves text and loses none: the item's text is as before, and the moved part heads the content. */
  lemma CutItemText(it: Item, o: nat)
    requires o <= |it.title| && |it.content| >= 1
    ensures var r := CutItem(it, o);
      && ItemText(r) == ItemText(it)
      && TextOf(r.content[0]) == it.title[o..] + TextOf(it.content[0])
      && (o < |it.title| && ValidItem(it) ==> ValidItem(r))
  {
    var r := CutItem(it, o);
    var b := it.content[0];
    assert Concat([it.title[o..]] + b.runs) == it.title[o..] + Concat(b.runs);
    assert r.content == [r.content[0]] + it.content[1..];
    assert it.content == [b] + it.content[1..];
    BlocksTextAppend([r.content[0]], it.content[1..]);
    BlocksTextAppend([b], it.content[1..]);
    assert BlocksText([r.content[0]]) == TextOf(r.content[0]) + BlocksText([]);
    assert BlocksText([b]) == TextOf(b) + BlocksText([]);
    assert it.title == it.title[..o] + it.title[o..];
    if o < |it.title| && ValidItem(it) {
      assert ValidBlock(b);
      forall j | 0 <= j < |r.content| ensures ValidBlock(r.content[j]) {
        if j > 0 {
          assert r.content[j] == it.content[j];
        }
      }
    }
  }

  /** After the cut, the start of the first content block's text lies three tokens past the cut point. */
  lemma CutFocus(d: Doc, i: nat, k: nat, o: nat)
    requires IsItem(d, i, k) && o <= |d[i].items[k].title| && |d[i].items[k].content| >= 1
    ensures var r := CutTitle(d, i, k, o);
      && ValidLoc(r, ContentText(i, k, 0, 0))
      && Pos(r, ContentText(i, k, 0, 0)) == Pos(d, TitleText(i, k, o)) + 3
  {
    var r := CutTitle(d, i, k, o);
    assert r[..i] == d[..i];
    assert r[i].items[..k] == d[i].items[..k];
  }

  /**
   * The second phase of the blank-last-item branch, on the state removeStep
   * left: the container around the cursor is looked up again, and a
   * paragraph is inserted at `steps.start + steps.node.nodeSize`, one
   * token into the node after it. When that node is an empty paragraph or
   * heading, the host replaces it by the new paragraph. Without a container
   * around the cursor, or with the position past the document's end (the
   * host throws, and the error is caught), the handler returns false after
   * the removal. Inserting into a non-empty or other textblock is not
   * modelled.
   */
  function ParagraphAfter(r: Outcome): (p: Outcome)
    requires r.Done? && r.focus.Some?
    ensures p != Pass && (p.Done? ==> p.focus.Some?)
  {
    var d1 := r.doc;
    var c := ContainerAt(d1, r.focus.value);
    if c.None? then Done(false, d1, r.focus)
    else
      var j := c.value;
      var posAfterSteps := NodePos(d1, j) + 1 + NodeSize(d1[j]);
      if j + 1 == |d1| then Done(false, d1, r.focus)
      else if d1[j + 1].Text? && d1[j + 1].block.runs == [] && !d1[j + 1].block.kind.OtherTextblock? then
        Done(true, d1[j + 1 := Text(EmptyParagraph)], Some(posAfterSteps))
      else Unmodelled
  }

  // ------------------------------------------------------------ the handlers

  /** The options insertStep gets with only `before` given: no title, no content. */
  function BeforeOptions(): InsertOptions
  {
    InsertOptions("", [], true)
  }

  /**
   * Enter in a step title: nothing unless `$from` is in one. At the start of
   * a container's first title, the paragraph goes to
   * `max(0, steps.start - 2)`, which is the document start for a container
   * that opens the document; a container elsewhere is not modelled. Every
   * branch that acts sets a cursor position.
   */
  function TitleEnter(d: Doc, s: Selection): (r: Outcome)
    requires ValidDoc(d) && ValidSelection(d, s)
    ensures r == Pass <==> !From(d, s).TitleText?
    ensures r.Done? ==> r.focus.Some?
  {
    var from := From(d, s);
    if !from.TitleText? then Pass else EnterInTitle(d, from, To(d, s))
  }

  /**
   * The first two branches: at the start of the first title, or of a later
   * non-blank one. `insertContentAt` leaves the cursor inside the paragraph
   * it puts at the document start, at 1, and `focus(0)` does not move it:
   * the host reads position 0 as no position.
   */
  function EnterInTitle(d: Doc, from: Loc, to: Loc): (r: Outcome)
    requires ValidDoc(d) && ValidLoc(d, from) && from.TitleText? && ValidLoc(d, to)
    ensures r != Pass && (r.Done? ==> r.focus.Some?)
  {
    var i, k := from.node, from.item;
    var stepsStart, itemStart, titleStart := NodePos(d, i) + 1, ItemPos(d, i, k) + 1, TitlePos(d, i, k) + 1;
    var isFirstStep := itemStart == stepsStart + 1;
    var atTitleStart := Pos(d, to) == titleStart;
    var titleHasContent := Trim(d[i].items[k].title) != "";
    var posBeforeSteps := AtLeastZero(stepsStart - 2);
    if isFirstStep && atTitleStart then
      if posBeforeSteps == 0 then Done(true, InsertNodes(d, 0, [Text(EmptyParagraph)]), Some(1))
      else Unmodelled
    else if !isFirstStep && atTitleStart && titleHasContent then
      InsertStep(d, from, BeforeOptions())
    else EnterPastStart(d, from, to)
  }

  /** The third branch: a blank last item is removed, then a paragraph is added after the container. */
  function EnterPastStart(d: Doc, from: Loc, to: Loc): (r: Outcome)
    requires ValidDoc(d) && ValidLoc(d, from) && from.TitleText? && ValidLoc(d, to)
    ensures r != Pass && (r.Done? ==> r.focus.Some?)
  {
    var i, k := from.node, from.item;
    var it := d[i].items[k];
    var isLastStep := ItemPos(d, i, k) + (ItemSize(it) - 2) + 1 == NodePos(d, i) + ItemsSize(d[i].items);
    var isLastStepEmpty := Trim(ItemText(it)) == "";
    if isLastStep && isLastStepEmpty then ParagraphAfter(RemoveStep(d, from))
    else EnterMoveOrCut(d, from, to)
  }

  /**
   * The last two branches: at the end of the title the cursor moves to the
   * content; before it, the title is cut at `$to`. A `$to` outside the
   * title, past its end, is not modelled.
   */
  function EnterMoveOrCut(d: Doc, from: Loc, to: Loc): (r: Outcome)
    requires ValidDoc(d) && ValidLoc(d, from) && from.TitleText? && ValidLoc(d, to)
    ensures r != Pass && (r.Done? ==> r.handled && r.focus.Some?)
  {
    var i, k := from.node, from.item;
    var it := d[i].items[k];
    var endOfTitle := TitlePos(d, i, k) + 1 + |it.title|;
    var startOfContent := endOfTitle + 3;
    if Pos(d, to) == endOfTitle then Done(true, d, Some(startOfContent))
    else if to.TitleText? && to.node == i && to.item == k then
      assert ValidNode(d[i]) && ValidItem(it);
      Done(true, CutTitle(d, i, k, to.offset), Some(startOfContent - (endOfTitle - Pos(d, to))))
    else Unmodelled
  }

  /** Backspace in a step title: removeStep when the selection is collapsed at the title's start. */
  function TitleBackspace(d: Doc, s: Selection): (r: Outcome)
    requires ValidDoc(d) && ValidSelection(d, s)
    ensures r != Pass ==> From(d, s).TitleText? && Collapsed(d, s) && r == RemoveStep(d, From(d, s))
    ensures r != Pass ==> r.Done? && r.handled && r.focus.Some?
  {
    var from, to := From(d, s), To(d, s);
    if !from.TitleText? then Pass
    else if Pos(d, from) != TitlePos(d, from.node, from.item) + 1 || Pos(d, from) != Pos(d, to) then Pass
    else RemoveStep(d, from)
  }

  // ------------------------------------------------------------ the handlers' branches

  /**
   * Enter at the start of a container's first title: for a container that
   * opens the document, an empty paragraph goes in front of it and the
   * cursor is in that paragraph.
   */
  lemma EnterAbove(d: Doc, from: Loc, to: Loc)
    requires ValidDoc(d) && ValidLoc(d, from) && from.TitleText? && from.item == 0 && to == TitleText(from.node, 0, 0)
    ensures from.node == 0 ==>
      var d1 := [Text(EmptyParagraph)] + d;
      ValidLoc(d1, TopText(0, 0)) && EnterInTitle(d, from, to) == Done(true, d1, Some(Pos(d1, TopText(0, 0))))
    ensures from.node > 0 ==> EnterInTitle(d, from, to) == Unmodelled
  {
    var i := from.node;
    FirstStepTest(d, i, 0);
    if i > 0 {
      SumGap(d, NodeSize, 0, i);
    }
  }

  /**
   * Enter at the start of a later item's non-blank title: an item with an
   * empty title and one empty paragraph goes in front of the current one.
   */
  lemma EnterInsertsBefore(d: Doc, from: Loc, to: Loc)
    requires ValidDoc(d) && ValidLoc(d, from) && from.TitleText? && from.item > 0
    requires to == TitleText(from.node, from.item, 0) && Trim(d[from.node].items[from.item].title) != ""
    ensures var r, i, k := EnterInTitle(d, from, to), from.node, from.item;
      && r == InsertStep(d, from, BeforeOptions()) && r.handled
      && ItemsOf(r.doc) == ItemsOf(d[..i]) + d[i].items[..k] + [Item("", [EmptyParagraph])] + d[i].items[k..] + ItemsOf(d[i + 1..])
  {
    FirstStepTest(d, from.node, from.item);
    InsertStepAdds(d, from, BeforeOptions());
    InsertStepItems(d, from, BeforeOptions());
  }

  /** Past the first two branches, a blank last item is removed and ParagraphAfter runs on what that leaves. */
  lemma EnterRemoves(d: Doc, from: Loc, to: Loc)
    requires ValidDoc(d) && ValidLoc(d, from) && from.TitleText? && ValidLoc(d, to)
    requires var i, k := from.node, from.item;
      && k == |d[i].items| - 1 && Trim(ItemText(d[i].items[k])) == ""
      && !(to == TitleText(i, k, 0) && (k == 0 || Trim(d[i].items[k].title) != ""))
    ensures EnterInTitle(d, from, to) == ParagraphAfter(RemoveStep(d, from))
  {
    FirstStepTest(d, from.node, from.item);
    TitleStartTest(d, from.node, from.item, to);
    LastStepTest(d, from.node, from.item);
  }

  /**
   * The second phase after removing a container's only item: the container
   * is gone, the cursor lies between top-level nodes where no container
   * holds it, and the handler returns false after the removal.
   */
  lemma AfterRemovingOnly(d: Doc, from: Loc)
    requires ValidDoc(d) && ValidLoc(d, from) && !from.TopText? && from.item == 0 && |d[from.node].items| == 1
    ensures var i := from.node;
      ParagraphAfter(RemoveStep(d, from)) == Done(false, Removed(d, i, 0), Some(NodePos(Removed(d, i, 0), i)))
  {
    RemoveFirstStepFocus(d, from);
    ContainerAtBoundary(RemoveStep(d, from).doc, from.node);
  }

  /**
   * The second phase with the cursor inside container `j` and an empty
   * paragraph or heading right after it: that node becomes the new empty
   * paragraph, and the cursor goes into it.
   */
  lemma ParagraphReplaces(r: Outcome, j: nat)
    requires r.Done? && r.focus.Some? && j + 1 < |r.doc| && IsSteps(r.doc, j) && Inside(r.doc, j, r.focus.value)
    requires r.doc[j + 1].Text? && r.doc[j + 1].block.runs == [] && !r.doc[j + 1].block.kind.OtherTextblock?
    ensures var d2 := r.doc[j + 1 := Text(EmptyParagraph)];
      ValidLoc(d2, TopText(j + 1, 0)) && ParagraphAfter(r) == Done(true, d2, Some(Pos(d2, TopText(j + 1, 0))))
  {
    ContainerAtInside(r.doc, r.focus.value, j);
    SumStep(r.doc, NodeSize, j);
    var d2 := r.doc[j + 1 := Text(EmptyParagraph)];
    assert d2[..j + 1] == r.doc[..j + 1];
  }

  /**
   * The second phase after removing a later last item with an empty title
   * and an empty first block: the cursor is still inside the container,
   * and that block, now right after the container, becomes the empty
   * paragraph the handler adds, with the cursor in it.
   */
  lemma AfterRemovingLast(d: Doc, from: Loc)
    requires ValidDoc(d) && ValidLoc(d, from) && !from.TopText? && from.item > 0
    requires var it := d[from.node].items[from.item];
      it.title == "" && it.content[0].runs == [] && !it.content[0].kind.OtherTextblock?
    ensures var r, i := ParagraphAfter(RemoveStep(d, from)), from.node;
      && r.Done? && r.handled && r.doc == Removed(d, i, from.item)[i + 1 := Text(EmptyParagraph)]
      && ValidLoc(r.doc, TopText(i + 1, 0)) && r.focus == Some(Pos(r.doc, TopText(i + 1, 0)))
  {
    var i, k := from.node, from.item;
    ItemOfValidDoc(d, i, k);
    RemoveLaterStepFocus(d, from);
    var r := RemoveStep(d, from);
    var d1, p := r.doc, r.focus.value;
    SumStep(d1, NodeSize, i);
    assert NodeSize(d1[i]) > 2 by {
      SumGap(d[i].items[..k], ItemSize, 0, k);
    }
    assert Dissolve(d[i].items[k])[0] == d[i].items[k].content[0];
    ParagraphReplaces(r, i);
  }

  /** Enter at the end of a non-empty title only moves the cursor, to the start of the first content block's text. */
  lemma EnterToContent(d: Doc, from: Loc, to: Loc)
    requires ValidDoc(d) && ValidLoc(d, from) && from.TitleText?
    requires var i, k := from.node, from.item; var it := d[i].items[k];
      && |it.title| > 0 && to == TitleText(i, k, |it.title|)
      && !(k == |d[i].items| - 1 && Trim(ItemText(it)) == "")
    ensures var i, k := from.node, from.item;
      ValidLoc(d, ContentText(i, k, 0, 0)) && EnterInTitle(d, from, to) == Done(true, d, Some(Pos(d, ContentText(i, k, 0, 0))))
  {
    var i, k := from.node, from.item;
    ItemOfValidDoc(d, i, k);
    TitleStartTest(d, i, k, to);
    LastStepTest(d, i, k);
    TitleEndTest(d, i, k, to);
  }

  /**
   * Enter inside a title: the title keeps the text before `$to`, the rest
   * heads the first content block, no text is lost, and the cursor goes to
   * the start of the first content block's text.
   */
  lemma EnterSplits(d: Doc, from: Loc, to: Loc)
    requires ValidDoc(d) && ValidLoc(d, from) && from.TitleText?
    requires var i, k := from.node, from.item; var it := d[i].items[k];
      && to.TitleText? && to.node == i && to.item == k && to.offset < |it.title|
      && !(to.offset == 0 && (k == 0 || Trim(it.title) != ""))
      && !(k == |d[i].items| - 1 && Trim(ItemText(it)) == "")
    ensures var r, i, k, o := EnterInTitle(d, from, to), from.node, from.item, to.offset;
      var it := d[i].items[k];
      && r.Done? && r.handled && ValidDoc(r.doc)
      && r.doc == CutTitle(d, i, k, o)
      && r.doc[i].items[k].title == it.title[..o]
      && TextOf(r.doc[i].items[k].content[0]) == it.title[o..] + TextOf(it.content[0])
      && ItemText(r.doc[i].items[k]) == ItemText(it)
      && ValidLoc(r.doc, ContentText(i, k, 0, 0)) && r.focus == Some(Pos(r.doc, ContentText(i, k, 0, 0)))
  {
    var i, k := from.node, from.item;
    FirstStepTest(d, i, k);
    TitleStartTest(d, i, k, to);
    LastStepTest(d, i, k);
    assert EnterInTitle(d, from, to) == EnterMoveOrCut(d, from, to);
    CutOutcome(d, from, to);
  }

  /** The cut branch on its own: what EnterSplits states of the last two branches. */
  lemma CutOutcome(d: Doc, from: Loc, to: Loc)
    requires ValidDoc(d) && ValidLoc(d, from) && from.TitleText?
    requires to.TitleText? && to.node == from.node && to.item == from.item && to.offset < |d[from.node].items[from.item].title|
    ensures var r, i, k, o := EnterMoveOrCut(d, from, to), from.node, from.item, to.offset;
      && r.Done? && r.handled && ValidDoc(r.doc) && r.doc == CutTitle(d, i, k, o)
      && r.doc[i].items[k].title == d[i].items[k].title[..o]
      && TextOf(r.doc[i].items[k].content[0]) == d[i].items[k].title[o..] + TextOf(d[i].items[k].content[0])
      && ItemText(r.doc[i].items[k]) == ItemText(d[i].items[k])
      && ValidLoc(r.doc, ContentText(i, k, 0, 0)) && r.focus == Some(Pos(r.doc, ContentText(i, k, 0, 0)))
  {
    var i, k := from.node, from.item;
    var it := d[i].items[k];
    var o := to.offset;
    ItemOfValidDoc(d, i, k);
    TitleEndTest(d, i, k, to);
    CutItemText(it, o);
    CutFocus(d, i, k, o);
    CutKeepsValid(d, i, k, o);
  }

  /** Whatever the Enter handler does to a valid document leaves it valid. */
  lemma TitleEnterValid(d: Doc, s: Selection)
    requires ValidDoc(d) && ValidSelection(d, s)
    ensures TitleEnter(d, s).Done? ==> ValidDoc(TitleEnter(d, s).doc)
  {
    var from, to := From(d, s), To(d, s);
    if from.TitleText? {
      InTitleValid(d, from, to);
    }
  }

  lemma InTitleValid(d: Doc, from: Loc, to: Loc)
    requires ValidDoc(d) && ValidLoc(d, from) && from.TitleText? && ValidLoc(d, to)
    ensures EnterInTitle(d, from, to).Done? ==> ValidDoc(EnterInTitle(d, from, to).doc)
  {
    var i, k := from.node, from.item;
    var r := EnterInTitle(d, from, to);
    if ItemPos(d, i, k) + 1 == NodePos(d, i) + 1 + 1 && Pos(d, to) == TitlePos(d, i, k) + 1 {
      InsertNodesValid(d, 0, [Text(EmptyParagraph)]);
    } else if r == InsertStep(d, from, BeforeOptions()) {
      InsertStepValid(d, from, BeforeOptions());
    } else {
      assert r == EnterPastStart(d, from, to);
      PastStartValid(d, from, to);
    }
  }

  lemma PastStartValid(d: Doc, from: Loc, to: Loc)
    requires ValidDoc(d) && ValidLoc(d, from) && from.TitleText? && ValidLoc(d, to)
    ensures EnterPastStart(d, from, to).Done? ==> ValidDoc(EnterPastStart(d, from, to).doc)
  {
    var r := EnterPastStart(d, from, to);
    if r == ParagraphAfter(RemoveStep(d, from)) {
      RemoveStepValid(d, from);
      ParagraphAfterValid(RemoveStep(d, from));
    } else {
      assert r == EnterMoveOrCut(d, from, to);
      MoveOrCutValid(d, from, to);
    }
  }

  lemma MoveOrCutValid(d: Doc, from: Loc, to: Loc)
    requires ValidDoc(d) && ValidLoc(d, from) && from.TitleText? && ValidLoc(d, to)
    ensures EnterMoveOrCut(d, from, to).Done? ==> ValidDoc(EnterMoveOrCut(d, from, to).doc)
  {
    var i, k := from.node, from.item;
    if to.TitleText? && to.node == i && to.item == k && to.offset < |d[i].items[k].title| {
      ItemOfValidDoc(d, i, k);
      CutKeepsValid(d, i, k, to.offset);
    }
  }

  /** The second phase keeps a valid document valid: it only ever puts an empty paragraph in place of a textblock. */
  lemma ParagraphAfterValid(r: Outcome)
    requires r.Done? && r.focus.Some?
    ensures ValidDoc(r.doc) && ParagraphAfter(r).Done? ==> ValidDoc(ParagraphAfter(r).doc)
  {
  }

  /** Cutting inside a title keeps a valid document valid. */
  lemma CutKeepsValid(d: Doc, i: nat, k: nat, o: nat)
    requires ValidDoc(d) && IsItem(d, i, k) && o < |d[i].items[k].title| && |d[i].items[k].content| >= 1
    ensures ValidDoc(CutTitle(d, i, k, o))
  {
    ItemOfValidDoc(d, i, k);
    CutItemText(d[i].items[k], o);
    assert ValidNode(d[i]);
  }

  /**
   * Backspace acts exactly when the selection is collapsed at the start of a
   * title's text, and then it is removeStep.
   */
  lemma TitleBackspaceActs(d: Doc, s: Selection)
    requires ValidDoc(d) && ValidSelection(d, s)
    ensures var from := From(d, s);
      TitleBackspace(d, s) != Pass <==> from.TitleText? && from.offset == 0 && Collapsed(d, s)
    ensures TitleBackspace(d, s) != Pass ==> TitleBackspace(d, s) == RemoveStep(d, From(d, s))
  {
    var from := From(d, s);
    if from.TitleText? {
      TitleStartTest(d, from.node, from.item, from);
    }
  }

  // ------------------------------------------------------------ the handlers on a transaction

  /**
   * Enter in a step title, step by step. In the blank-last-item branch
   * removeStep is dispatched first, and the container is looked up again
   * on the state it leaves before the paragraph goes in.
   */
  method TitleEnterIn(tr: Transaction, s: Selection) returns (ok: bool)
    requires ValidDoc(tr.doc) && ValidSelection(tr.doc, s) && !TitleEnter(tr.doc, s).Unmodelled?
    modifies tr
    ensures var r := TitleEnter(old(tr.doc), s);
      && (r == Pass ==> !ok && tr.doc == old(tr.doc) && tr.focus == old(tr.focus))
      && (r.Done? ==> ok == r.handled && tr.doc == r.doc && tr.focus == r.focus)
  {
    var from, to := From(tr.doc, s), To(tr.doc, s);
    if !from.TitleText? {
      return false;
    }
    ok := EnterInTitleIn(tr, from, to);
  }

  /** The first two branches on the transaction. */
  method EnterInTitleIn(tr: Transaction, from: Loc, to: Loc) returns (ok: bool)
    requires ValidDoc(tr.doc) && ValidLoc(tr.doc, from) && from.TitleText? && ValidLoc(tr.doc, to)
    requires !EnterInTitle(tr.doc, from, to).Unmodelled?
    modifies tr
    ensures var r := EnterInTitle(old(tr.doc), from, to);
      r.Done? && ok == r.handled && tr.doc == r.doc && tr.focus == r.focus
  {
    var i, k := from.node, from.item;
    var isFirstStep := ItemPos(tr.doc, i, k) + 1 == NodePos(tr.doc, i) + 1 + 1;
    var atTitleStart := Pos(tr.doc, to) == TitlePos(tr.doc, i, k) + 1;
    var titleHasContent := Trim(tr.doc[i].items[k].title) != "";
    ghost var d0 := tr.doc;
    ghost var r := EnterInTitle(d0, from, to);
    if isFirstStep && atTitleStart {
      assert r == Done(true, InsertNodes(d0, 0, [Text(EmptyParagraph)]), Some(1));
      tr.InsertNodesAt(0, [Text(EmptyParagraph)]);
      tr.SetSelection(1);
      ok := true;
    } else if !isFirstStep && atTitleStart && titleHasContent {
      assert r == InsertStep(d0, from, BeforeOptions());
      ok := InsertStepIn(tr, from, BeforeOptions());
    } else {
      assert r == EnterPastStart(d0, from, to);
      ok := EnterPastStartIn(tr, from, to);
    }
  }

  /** The third branch on the transaction: removeStep, then the second phase on the state it leaves. */
  method EnterPastStartIn(tr: Transaction, from: Loc, to: Loc) returns (ok: bool)
    requires ValidDoc(tr.doc) && ValidLoc(tr.doc, from) && from.TitleText? && ValidLoc(tr.doc, to)
    requires !EnterPastStart(tr.doc, from, to).Unmodelled?
    modifies tr
    ensures var r := EnterPastStart(old(tr.doc), from, to);
      r.Done? && ok == r.handled && tr.doc == r.doc && tr.focus == r.focus
  {
    var i, k := from.node, from.item;
    var it := tr.doc[i].items[k];
    var isLastStep := ItemPos(tr.doc, i, k) + (ItemSize(it) - 2) + 1 == NodePos(tr.doc, i) + ItemsSize(tr.doc[i].items);
    if isLastStep && Trim(ItemText(it)) == "" {
      ok := RemoveStepIn(tr, from);
      ok := ParagraphAfterIn(tr);
    } else {
      ok := EnterMoveOrCutIn(tr, from, to);
    }
  }

  /** The second phase of the blank-last-item branch, on the state the removal left. */
  method ParagraphAfterIn(tr: Transaction) returns (ok: bool)
    requires tr.focus.Some? && !ParagraphAfter(Done(true, tr.doc, tr.focus)).Unmodelled?
    modifies tr
    ensures var r := ParagraphAfter(Done(true, old(tr.doc), old(tr.focus)));
      ok == r.handled && tr.doc == r.doc && tr.focus == r.focus
  {
    var c := ContainerAt(tr.doc, tr.focus.value);
    if c.None? {
      return false;
    }
    var j := c.value;
    var posAfterSteps := NodePos(tr.doc, j) + 1 + NodeSize(tr.doc[j]);
    if j + 1 == |tr.doc| {
      return false;
    }
    tr.ReplaceNodeAt(j + 1, Text(EmptyParagraph));
    tr.SetSelection(posAfterSteps);
    ok := true;
  }

  /** The last two branches on the transaction: a cursor move, or the cut and then the cursor move. */
  method EnterMoveOrCutIn(tr: Transaction, from: Loc, to: Loc) returns (ok: bool)
    requires ValidDoc(tr.doc) && ValidLoc(tr.doc, from) && from.TitleText? && ValidLoc(tr.doc, to)
    requires !EnterMoveOrCut(tr.doc, from, to).Unmodelled?
    modifies tr
    ensures var r := EnterMoveOrCut(old(tr.doc), from, to);
      r.Done? && ok == r.handled && tr.doc == r.doc && tr.focus == r.focus
  {
    var i, k := from.node, from.item;
    var it := tr.doc[i].items[k];
    var endOfTitle := TitlePos(tr.doc, i, k) + 1 + |it.title|;
    var startOfContent := endOfTitle + 3;
    var p := Pos(tr.doc, to);
    if p != endOfTitle {
      assert ValidNode(tr.doc[i]) && ValidItem(it);
      tr.ReplaceNodeAt(i, Steps(tr.doc[i].items[k := CutItem(it, to.offset)]));
    }
    tr.SetSelection(startOfContent - (endOfTitle - p));
    ok := true;
  }

  /** Backspace in a step title, on the transaction. */
  method TitleBackspaceIn(tr: Transaction, s: Selection) returns (ok: bool)
    requires ValidDoc(tr.doc) && ValidSelection(tr.doc, s)
    modifies tr
    ensures var r := TitleBackspace(old(tr.doc), s);
      && (r == Pass ==> !ok && tr.doc == old(tr.doc) && tr.focus == old(tr.focus))
      && (r.Done? ==> ok && tr.doc == r.doc && tr.focus == r.focus)
  {
    var from, to := From(tr.doc, s), To(tr.doc, s);
    if !from.TitleText? || Pos(tr.doc, from) != TitlePos(tr.doc, from.node, from.item) + 1 || Pos(tr.doc, from) != Pos(tr.doc, to) {
      return false;
    }
    ok := RemoveStepIn(tr, from);
  }
}
