/**
 * The stepContent key handlers. Enter on an empty last block of a step's
 * content joins that block into the one before it (into the title when it
 * is the content's only block) and adds a new step after the current one. Backspace at the start of the content moves the cursor
 * to the end of the step's title.
 */
module StepContent {
  import opened Document
  import opened Host
  import opened StepItem

  // ------------------------------------------------------------ joinTextblockBackward

  lemma {:induction false} ConcatAppend(a: seq<string>, b: seq<string>)
    ensures Concat(a + b) == Concat(a) + Concat(b)
  {
    if a == [] {
      assert a + b == b;
    } else {
      assert (a + b)[1..] == a[1..] + b;
      ConcatAppend(a[1..], b);
    }
  }

  /** Content block `j` of item `k` of container `i` merged into block `j - 1`, which keeps its type. */
  function JoinBlocks(d: Doc, i: nat, k: nat, j: nat): (r: Doc)
    requires IsItem(d, i, k) && 0 < j < |d[i].items[k].content|
    ensures |r| == |d| && r[..i] == d[..i] && r[i + 1..] == d[i + 1..]
  {
    var it := d[i].items[k];
    var c := it.content;
    var joined := Block(c[j - 1].kind, c[j - 1].runs + c[j].runs);
    d[i := Steps(d[i].items[k := Item(it.title, c[..j - 1] + [joined] + c[j + 1..])])]
  }

  /**
   * Content block 0 of item `k` of container `i` merged into the title: its
   * text follows the title's, and a content left without blocks is refilled
   * with an empty paragraph.
   */
  function JoinTitle(d: Doc, i: nat, k: nat): (r: Doc)
    requires IsItem(d, i, k) && |d[i].items[k].content| >= 1
    ensures |r| == |d| && r[..i] == d[..i] && r[i + 1..] == d[i + 1..]
  {
    var it := d[i].items[k];
    var c := it.content;
    var rest := if |c| == 1 then [EmptyParagraph] else c[1..];
    d[i := Steps(d[i].items[k := Item(it.title + TextOf(c[0]), rest)])]
  }

  /**
   * joinTextblockBackward at a cursor in a step's content. The cursor must
   * be at the start of its block. The block is then joined to the textblock
   * before it: the block before it in the content, or, for the content's
   * first block, the step's title, since neither node isolates its
   * content. The cursor goes where the two met.
   */
  function JoinBackward(d: Doc, c: Loc): (r: Outcome)
    requires ValidLoc(d, c) && c.ContentText?
    ensures r.Done?
    ensures !r.handled ==> r.doc == d && r.focus == None
    ensures r.handled <==> c.offset == 0
  {
    if c.offset != 0 then Done(false, d, None)
    else if c.block == 0 then
      Done(true, JoinTitle(d, c.node, c.item), Some(Pos(d, TitleText(c.node, c.item, |d[c.node].items[c.item].title|))))
    else Done(true, JoinBlocks(d, c.node, c.item, c.block), Some(BlockPos(d, c.node, c.item, c.block) - 1))
  }

  /** Where the cursor lands after a join at the start of content block `c.block`. */
  function JoinPoint(d: Doc, c: Loc): (l: Loc)
    requires ValidLoc(d, c) && c.ContentText?
    ensures !l.TopText? && l.node == c.node && l.item == c.item
  {
    if c.block == 0 then TitleText(c.node, c.item, |d[c.node].items[c.item].title|) else Seam(d, c)
  }

  /** The place where the two blocks met: the old end of block `j - 1`'s text. */
  function Seam(d: Doc, c: Loc): Loc
    requires ValidLoc(d, c) && c.ContentText? && c.block > 0
  {
    ContentText(c.node, c.item, c.block - 1, |TextOf(d[c.node].items[c.item].content[c.block - 1])|)
  }

  /**
   * A join keeps every block before the seam, puts the text of the joined
   * block right after the text of the block before it, and leaves the
   * cursor at the seam.
   */
  lemma JoinBackwardJoins(d: Doc, c: Loc)
    requires ValidLoc(d, c) && c.ContentText? && c.offset == 0 && c.block > 0
    ensures var r, i, k, j := JoinBackward(d, c), c.node, c.item, c.block;
      var before := d[i].items[k].content;
      && r.handled && IsItem(r.doc, i, k)
      && r.doc[i].items[k].title == d[i].items[k].title
      && r.doc[i].items[k].content[..j - 1] == before[..j - 1]
      && TextOf(r.doc[i].items[k].content[j - 1]) == TextOf(before[j - 1]) + TextOf(before[j])
      && r.doc[i].items[k].content[j..] == before[j + 1..]
      && ValidLoc(r.doc, Seam(d, c)) && r.focus == Some(Pos(r.doc, Seam(d, c)))
  {
    var i, k, j := c.node, c.item, c.block;
    var c0 := d[i].items[k].content;
    ConcatAppend(c0[j - 1].runs, c0[j].runs);
    var r := JoinBlocks(d, i, k, j);
    var c1 := r[i].items[k].content;
    assert c1[..j - 1] == c0[..j - 1];
    assert r[i].items[..k] == d[i].items[..k];
    assert c1[j - 1].runs == c0[j - 1].runs + c0[j].runs;
    SumStep(c0, BlockSize, j - 1);
  }

  /**
   * A join at the start of the content's first block appends that block's
   * text to the title, keeps the blocks after it (or an empty paragraph when
   * there are none), and leaves the cursor where the title's text used to
   * end.
   */
  lemma JoinTitleJoins(d: Doc, c: Loc)
    requires ValidLoc(d, c) && c.ContentText? && c.offset == 0 && c.block == 0
    ensures var r, i, k := JoinBackward(d, c), c.node, c.item;
      var before := d[i].items[k];
      && r.handled && IsItem(r.doc, i, k)
      && r.doc[i].items[k].title == before.title + TextOf(before.content[0])
      && r.doc[i].items[k].content == (if |before.content| == 1 then [EmptyParagraph] else before.content[1..])
      && ValidLoc(r.doc, JoinPoint(d, c)) && r.focus == Some(Pos(r.doc, JoinPoint(d, c)))
  {
    var i, k := c.node, c.item;
    var r := JoinTitle(d, i, k);
    assert r[i].items[..k] == d[i].items[..k];
    assert NodePos(r, i) == NodePos(d, i);
  }

  /** After a join the cursor is at the join point, in the same item. */
  lemma JoinBackwardLands(d: Doc, c: Loc)
    requires ValidLoc(d, c) && c.ContentText? && c.offset == 0
    ensures var r := JoinBackward(d, c);
      && r.handled && ValidLoc(r.doc, JoinPoint(d, c)) && r.focus == Some(Pos(r.doc, JoinPoint(d, c)))
  {
    if c.block == 0 {
      JoinTitleJoins(d, c);
    } else {
      JoinBackwardJoins(d, c);
    }
  }

  /** A join keeps a valid document valid. */
  lemma JoinBackwardValid(d: Doc, c: Loc)
    requires ValidDoc(d) && ValidLoc(d, c) && c.ContentText?
    ensures ValidDoc(JoinBackward(d, c).doc)
  {
    var i, k, j := c.node, c.item, c.block;
    if c.offset == 0 && j == 0 {
      ItemOfValidDoc(d, i, k);
      var it := d[i].items[k];
      var r := JoinTitle(d, i, k);
      assert ValidBlock(EmptyParagraph);
      assert ValidItem(r[i].items[k]);
      assert ValidNode(d[i]);
    } else if c.offset == 0 {
      ItemOfValidDoc(d, i, k);
      var it := d[i].items[k];
      var r := JoinBlocks(d, i, k, j);
      var b := r[i].items[k].content[j - 1];
      assert b.runs == it.content[j - 1].runs + it.content[j].runs;
      assert ValidBlock(it.content[j - 1]) && ValidBlock(it.content[j]);
      assert ValidBlock(b);
      assert ValidItem(r[i].items[k]);
      assert ValidNode(d[i]);
    }
  }

  /** Joining an empty last block only drops it. */
  lemma JoinEmptyLast(d: Doc, i: nat, k: nat)
    requires IsItem(d, i, k) && |d[i].items[k].content| >= 2
    requires d[i].items[k].content[|d[i].items[k].content| - 1].runs == []
    ensures var it, n := d[i].items[k], |d[i].items[k].content|;
      JoinBlocks(d, i, k, n - 1) == d[i := Steps(d[i].items[k := Item(it.title, it.content[..n - 1])])]
  {
    var it, n := d[i].items[k], |d[i].items[k].content|;
    var c := it.content;
    assert c[n - 2].runs + c[n - 1].runs == c[n - 2].runs;
    assert c[..n - 2] + [Block(c[n - 2].kind, c[n - 2].runs)] + c[n..] == c[..n - 1];
  }

  // ------------------------------------------------------------ the handlers

  /** The options insertStep gets when called with none: no title, no content, after the current item. */
  function NoOptions(): InsertOptions
  {
    InsertOptions("", [], false)
  }

  /**
   * Enter in step content. Nothing happens unless `$from` is in a step's
   * content, the anchor is where that content's last block ends, and that
   * block is empty. Then the chain runs joinTextblockBackward and
   * insertStep on the state the join leaves, and reports true only when
   * both succeed; a failed join changes nothing, and insertStep still
   * runs.
   */
  function ContentEnter(d: Doc, s: Selection): (r: Outcome)
    requires ValidDoc(d) && ValidSelection(d, s)
    ensures !From(d, s).ContentText? ==> r == Pass
    ensures r != Pass ==> r.Done? && r.focus.Some? && r == EnterChain(d, s)
  {
    var from := From(d, s);
    if !from.ContentText? then Pass
    else
      var i, k := from.node, from.item;
      var endOfContent := ContentPos(d, i, k) + BlocksSize(d[i].items[k].content);
      if Pos(d, s.anchor) != endOfContent then Pass
      else if |TextOf(ParentBlock(d, s.anchor))| > 0 then Pass
      else EnterChain(d, s)
  }

  /**
   * joinTextblockBackward then insertStep at the cursor the join leaves. The
   * join needs a collapsed selection; it then acts at `$from`. When it does
   * not act it changes nothing, insertStep still runs, and the chain reports
   * false.
   */
  function EnterChain(d: Doc, s: Selection): (r: Outcome)
    requires ValidDoc(d) && ValidSelection(d, s) && From(d, s).ContentText?
    ensures r.Done? && r.focus.Some?
  {
    var from := From(d, s);
    var join := if Collapsed(d, s) then JoinBackward(d, from) else Done(false, d, None);
    if join.handled then
      JoinBackwardLands(d, from);
      var ins := InsertStep(join.doc, JoinPoint(d, from), NoOptions());
      Done(ins.handled, ins.doc, ins.focus)
    else
      var ins := InsertStep(d, from, NoOptions());
      Done(false, ins.doc, ins.focus)
  }

  /**
   * Backspace in step content: when `$to` is at the start of the content's
   * first block, the cursor moves to `stepContent.start - 2`, the end of the
   * title's text, and nothing else changes.
   */
  function ContentBackspace(d: Doc, s: Selection): (r: Outcome)
    requires ValidDoc(d) && ValidSelection(d, s)
    ensures !From(d, s).ContentText? ==> r == Pass
    ensures r != Pass ==> r.Done? && r.handled && r.doc == d && r.focus.Some?
  {
    var from, to := From(d, s), To(d, s);
    if !from.ContentText? then Pass
    else
      var start := ContentPos(d, from.node, from.item) + 1;
      if Pos(d, to) != start + 1 then Pass
      else Done(true, d, Some(start - 2))
  }

  // ------------------------------------------------------------ what the handlers do

  /** `stepContent.pos + content.size` is the end of the text of the content's last block. */
  lemma EndOfContentIs(d: Doc, i: nat, k: nat)
    requires ValidDoc(d) && IsItem(d, i, k)
    ensures var c := d[i].items[k].content;
      && |c| >= 1 && ValidLoc(d, ContentText(i, k, |c| - 1, |TextOf(c[|c| - 1])|))
      && ContentPos(d, i, k) + BlocksSize(c) == Pos(d, ContentText(i, k, |c| - 1, |TextOf(c[|c| - 1])|))
  {
    ItemOfValidDoc(d, i, k);
    var c := d[i].items[k].content;
    SumStep(c, BlockSize, |c| - 1);
    SumAll(c, BlockSize);
  }

  /**
   * Enter acts exactly when `$from` is in a step's content and the anchor
   * is in that content's last block, which is empty.
   */
  lemma ContentEnterActs(d: Doc, s: Selection)
    requires ValidDoc(d) && ValidSelection(d, s)
    ensures var from := From(d, s);
      ContentEnter(d, s) != Pass <==>
        && from.ContentText?
        && var c := d[from.node].items[from.item].content;
        && |c| >= 1 && s.anchor == ContentText(from.node, from.item, |c| - 1, 0) && TextOf(c[|c| - 1]) == ""
  {
    var from := From(d, s);
    if from.ContentText? {
      AtEmptyContentEnd(d, s.anchor, from.node, from.item);
    }
  }

  /** The anchor is at the end of content `k` and its block is empty exactly when it sits in an empty last block. */
  lemma AtEmptyContentEnd(d: Doc, l: Loc, i: nat, k: nat)
    requires ValidDoc(d) && ValidLoc(d, l) && IsItem(d, i, k)
    ensures var c := d[i].items[k].content;
      (Pos(d, l) == ContentPos(d, i, k) + BlocksSize(c) && |TextOf(ParentBlock(d, l))| == 0) <==>
        (|c| >= 1 && l == ContentText(i, k, |c| - 1, 0) && TextOf(c[|c| - 1]) == "")
  {
    EndOfContentIs(d, i, k);
    var c := d[i].items[k].content;
    var last := ContentText(i, k, |c| - 1, |TextOf(c[|c| - 1])|);
    if Pos(d, l) == Pos(d, last) {
      PosInjective(d, l, last);
      assert ParentBlock(d, l) == c[|c| - 1];
    }
  }

  /**
   * When Enter acts on a single cursor below a non-empty block, the empty
   * last block goes, and a new step with an empty title and one empty
   * paragraph follows the current one; the handler reports true, and the
   * step's text is unchanged.
   */
  lemma ContentEnterJoins(d: Doc, s: Selection)
    requires ValidDoc(d) && ValidSelection(d, s) && ContentEnter(d, s) != Pass
    requires Collapsed(d, s) && |d[From(d, s).node].items[From(d, s).item].content| >= 2
    ensures var r, from := ContentEnter(d, s), From(d, s);
      var i, k := from.node, from.item;
      var it := d[i].items[k];
      var kept := Item(it.title, it.content[..|it.content| - 1]);
      && r.Done? && r.handled
      && ItemsOf(r.doc) == ItemsOf(d[..i]) + d[i].items[..k] + [kept, Item("", [EmptyParagraph])] + d[i].items[k + 1..] + ItemsOf(d[i + 1..])
      && ItemText(kept) == ItemText(it)
  {
    var from := From(d, s);
    var i, k := from.node, from.item;
    var n := |d[i].items[k].content|;
    ContentEnterActs(d, s);
    PosInjective(d, from, s.anchor);
    assert from == ContentText(i, k, n - 1, 0);
    ItemOfValidDoc(d, i, k);
    JoinThenInsert(d, from);
    var ins := InsertStep(JoinBackward(d, from).doc, JoinPoint(d, from), NoOptions());
    assert ContentEnter(d, s) == EnterChain(d, s) == Done(ins.handled, ins.doc, ins.focus);
  }

  /** The join and then insertStep, at the start of an empty last block that is not the content's only one. */
  lemma JoinThenInsert(d: Doc, c: Loc)
    requires ValidDoc(d) && ValidLoc(d, c) && c.ContentText? && c.offset == 0 && c.block >= 1
    requires c.block == |d[c.node].items[c.item].content| - 1 && d[c.node].items[c.item].content[c.block].runs == []
    ensures JoinBackward(d, c).handled && ValidLoc(JoinBackward(d, c).doc, Seam(d, c))
    ensures var r, i, k := InsertStep(JoinBackward(d, c).doc, Seam(d, c), NoOptions()), c.node, c.item;
      var it := d[i].items[k];
      var kept := Item(it.title, it.content[..|it.content| - 1]);
      && r.handled
      && ItemsOf(r.doc) == ItemsOf(d[..i]) + d[i].items[..k] + [kept, Item("", [EmptyParagraph])] + d[i].items[k + 1..] + ItemsOf(d[i + 1..])
      && ItemText(kept) == ItemText(it)
  {
    var i, k := c.node, c.item;
    var it := d[i].items[k];
    var n := |it.content|;
    JoinEmptyLast(d, i, k);
    JoinBackwardJoins(d, c);
    var kept := Item(it.title, it.content[..n - 1]);
    InsertAfterReplaced(d, i, k, kept, Seam(d, c));
    DropEmptyKeepsText(it);
  }

  /** Dropping an empty last block leaves an item's text as it was. */
  lemma DropEmptyKeepsText(it: Item)
    requires |it.content| >= 1 && it.content[|it.content| - 1].runs == []
    ensures ItemText(Item(it.title, it.content[..|it.content| - 1])) == ItemText(it)
  {
    var n := |it.content|;
    BlocksTextAppend(it.content[..n - 1], [it.content[n - 1]]);
    assert it.content[..n - 1] + [it.content[n - 1]] == it.content;
    assert BlocksText([it.content[n - 1]]) == "" + BlocksText([]);
  }

  /** insertStep after an item that was just replaced puts the new step right after the replacement. */
  lemma InsertAfterReplaced(d: Doc, i: nat, k: nat, kept: Item, l: Loc)
    requires IsItem(d, i, k)
    requires var d1 := d[i := Steps(d[i].items[k := kept])];
      ValidLoc(d1, l) && !l.TopText? && l.node == i && l.item == k
    ensures var d1 := d[i := Steps(d[i].items[k := kept])];
      ItemsOf(InsertStep(d1, l, NoOptions()).doc)
        == ItemsOf(d[..i]) + d[i].items[..k] + [kept, Item("", [EmptyParagraph])] + d[i].items[k + 1..] + ItemsOf(d[i + 1..])
  {
    var d1 := d[i := Steps(d[i].items[k := kept])];
    var r := InsertStep(d1, l, NoOptions());
    var items, items1 := d[i].items, d1[i].items;
    var n := NewItem(NoOptions());
    InsertStepItems(d1, l, NoOptions());
    assert Slot(l, false) == k + 1;
    assert ItemsOf(r.doc) == ItemsOf(d1[..i]) + items1[..k + 1] + [n] + items1[k + 1..] + ItemsOf(d1[i + 1..]);
    assert d1[..i] == d[..i] && d1[i + 1..] == d[i + 1..];
    assert items1[..k + 1] == items[..k] + [kept] && items1[k + 1..] == items[k + 1..];
    assert n == Item("", [EmptyParagraph]);
    Regroup(ItemsOf(d[..i]), items[..k], kept, n, items[k + 1..], ItemsOf(d[i + 1..]));
  }

  lemma Regroup<T>(a: seq<T>, b: seq<T>, x: T, y: T, c: seq<T>, e: seq<T>)
    ensures a + (b + [x]) + [y] + c + e == a + b + [x, y] + c + e
  {
  }

  /**
   * When Enter acts on a single cursor in a content's only block, which is
   * empty, the join folds that block into the title and refills the content
   * with an empty paragraph; a new step follows the current one, the
   * handler reports true, and the step's text is unchanged.
   */
  lemma ContentEnterLoneBlock(d: Doc, s: Selection)
    requires ValidDoc(d) && ValidSelection(d, s) && ContentEnter(d, s) != Pass
    requires Collapsed(d, s) && |d[From(d, s).node].items[From(d, s).item].content| == 1
    ensures var r, from := ContentEnter(d, s), From(d, s);
      var i, k := from.node, from.item;
      var it := d[i].items[k];
      var kept := Item(it.title, [EmptyParagraph]);
      && r.Done? && r.handled
      && ItemsOf(r.doc) == ItemsOf(d[..i]) + d[i].items[..k] + [kept, Item("", [EmptyParagraph])] + d[i].items[k + 1..] + ItemsOf(d[i + 1..])
      && ItemText(kept) == ItemText(it)
  {
    var from := From(d, s);
    var i, k := from.node, from.item;
    var it := d[i].items[k];
    ContentEnterActs(d, s);
    PosInjective(d, from, s.anchor);
    assert from == ContentText(i, k, 0, 0);
    JoinTitleJoins(d, from);
    var kept := Item(it.title, [EmptyParagraph]);
    assert TextOf(it.content[0]) == "";
    assert it.title + TextOf(it.content[0]) == it.title;
    var l := JoinPoint(d, from);
    InsertAfterReplaced(d, i, k, kept, l);
    var ins := InsertStep(JoinBackward(d, from).doc, l, NoOptions());
    assert ContentEnter(d, s) == EnterChain(d, s) == Done(ins.handled, ins.doc, ins.focus);
    assert BlocksText([EmptyParagraph]) == "" + BlocksText([]);
    assert BlocksText(it.content) == TextOf(it.content[0]) + BlocksText([]);
  }

  /**
   * When Enter acts but a range is selected, the join does nothing; the new
   * step still follows the current one, nothing else changes, and the
   * handler reports false.
   */
  lemma ContentEnterWithoutJoin(d: Doc, s: Selection)
    requires ValidDoc(d) && ValidSelection(d, s) && ContentEnter(d, s) != Pass
    requires !Collapsed(d, s)
    ensures var r, from := ContentEnter(d, s), From(d, s);
      var i, k := from.node, from.item;
      && r.Done? && !r.handled
      && ItemsOf(r.doc) == ItemsOf(d[..i]) + d[i].items[..k + 1] + [Item("", [EmptyParagraph])] + d[i].items[k + 1..] + ItemsOf(d[i + 1..])
  {
    var from := From(d, s);
    InsertStepItems(d, from, NoOptions());
  }

  /** Whatever Enter does to a valid document leaves it valid. */
  lemma ContentEnterValid(d: Doc, s: Selection)
    requires ValidDoc(d) && ValidSelection(d, s)
    ensures ContentEnter(d, s).Done? ==> ValidDoc(ContentEnter(d, s).doc)
  {
    var from := From(d, s);
    if from.ContentText? {
      if Collapsed(d, s) && from.offset == 0 {
        JoinBackwardValid(d, from);
        JoinBackwardLands(d, from);
        InsertStepValid(JoinBackward(d, from).doc, JoinPoint(d, from), NoOptions());
      }
      InsertStepValid(d, from, NoOptions());
    }
  }

  /**
   * Backspace acts exactly when `$from` is in a step's content and `$to` is
   * at the start of its first block; it then only puts the cursor at the
   * end of the step's title.
   */
  lemma ContentBackspaceActs(d: Doc, s: Selection)
    requires ValidDoc(d) && ValidSelection(d, s)
    ensures var from, to := From(d, s), To(d, s);
      ContentBackspace(d, s) != Pass <==> from.ContentText? && to == ContentText(from.node, from.item, 0, 0)
    ensures var from := From(d, s);
      ContentBackspace(d, s) != Pass ==>
        var i, k := from.node, from.item;
        ContentBackspace(d, s) == Done(true, d, Some(Pos(d, TitleText(i, k, |d[i].items[k].title|))))
  {
    var from, to := From(d, s), To(d, s);
    if from.ContentText? {
      AtContentStart(d, to, from.node, from.item);
    }
  }

  /**
   * A cursor is two tokens into content `k` exactly when it is at the start
   * of the content's first block; one token before the content is the end of
   * the title's text.
   */
  lemma AtContentStart(d: Doc, l: Loc, i: nat, k: nat)
    requires ValidDoc(d) && ValidLoc(d, l) && IsItem(d, i, k)
    ensures ValidLoc(d, TitleText(i, k, |d[i].items[k].title|))
    ensures Pos(d, l) == ContentPos(d, i, k) + 2 <==> l == ContentText(i, k, 0, 0)
    ensures ContentPos(d, i, k) - 1 == Pos(d, TitleText(i, k, |d[i].items[k].title|))
  {
    ItemOfValidDoc(d, i, k);
    var first := ContentText(i, k, 0, 0);
    assert Pos(d, first) == ContentPos(d, i, k) + 1 + 1;
    if Pos(d, l) == Pos(d, first) {
      PosInjective(d, l, first);
    }
  }

  // ------------------------------------------------------------ the handlers on a transaction

  /** Enter in step content, step by step: the join's edit and cursor, then insertStep's. */
  method ContentEnterIn(tr: Transaction, s: Selection) returns (ok: bool)
    requires ValidDoc(tr.doc) && ValidSelection(tr.doc, s)
    modifies tr
    ensures var r := ContentEnter(old(tr.doc), s);
      && (r == Pass ==> !ok && tr.doc == old(tr.doc) && tr.focus == old(tr.focus))
      && (r.Done? ==> ok == r.handled && tr.doc == r.doc && tr.focus == r.focus)
  {
    var from := From(tr.doc, s);
    if !from.ContentText? {
      return false;
    }
    var i, k := from.node, from.item;
    var endOfContent := ContentPos(tr.doc, i, k) + BlocksSize(tr.doc[i].items[k].content);
    if Pos(tr.doc, s.anchor) != endOfContent || |TextOf(ParentBlock(tr.doc, s.anchor))| > 0 {
      return false;
    }
    ok := ChainIn(tr, s);
  }

  /** The chain on the transaction: the join when it applies, then insertStep at the cursor it leaves. */
  method ChainIn(tr: Transaction, s: Selection) returns (ok: bool)
    requires ValidDoc(tr.doc) && ValidSelection(tr.doc, s) && From(tr.doc, s).ContentText?
    modifies tr
    ensures var r := EnterChain(old(tr.doc), s);
      ok == r.handled && tr.doc == r.doc && tr.focus == r.focus
  {
    var from := From(tr.doc, s);
    var i, k, j := from.node, from.item, from.block;
    if Collapsed(tr.doc, s) && from.offset == 0 && j == 0 {
      ghost var d0 := tr.doc;
      JoinTitleJoins(d0, from);
      var it := tr.doc[i].items[k];
      var c := it.content;
      var rest := if |c| == 1 then [EmptyParagraph] else c[1..];
      var beforePos := Pos(tr.doc, TitleText(i, k, |it.title|));
      var at := TitleText(i, k, |it.title|);
      tr.ReplaceNodeAt(i, Steps(tr.doc[i].items[k := Item(it.title + TextOf(c[0]), rest)]));
      tr.SetSelection(beforePos);
      assert tr.doc == JoinBackward(d0, from).doc;
      ok := InsertStepIn(tr, at, NoOptions());
    } else if Collapsed(tr.doc, s) && from.offset == 0 {
      ghost var d0 := tr.doc;
      JoinBackwardJoins(d0, from);
      var seam := Seam(tr.doc, from);
      var it := tr.doc[i].items[k];
      var c := it.content;
      var joined := Block(c[j - 1].kind, c[j - 1].runs + c[j].runs);
      var beforePos := BlockPos(tr.doc, i, k, j) - 1;
      tr.ReplaceNodeAt(i, Steps(tr.doc[i].items[k := Item(it.title, c[..j - 1] + [joined] + c[j + 1..])]));
      tr.SetSelection(beforePos);
      assert tr.doc == JoinBackward(d0, from).doc;
      ok := InsertStepIn(tr, seam, NoOptions());
    } else {
      var _ := InsertStepIn(tr, from, NoOptions());
      ok := false;
    }
  }

  /** Backspace in step content, on the transaction. */
  method ContentBackspaceIn(tr: Transaction, s: Selection) returns (ok: bool)
    requires ValidDoc(tr.doc) && ValidSelection(tr.doc, s)
    modifies tr
    ensures var r := ContentBackspace(old(tr.doc), s);
      && (r == Pass ==> !ok && tr.doc == old(tr.doc) && tr.focus == old(tr.focus))
      && (r.Done? ==> ok && tr.doc == r.doc && tr.focus == r.focus)
  {
    var from, to := From(tr.doc, s), To(tr.doc, s);
    if !from.ContentText? {
      return false;
    }
    var start := ContentPos(tr.doc, from.node, from.item) + 1;
    if Pos(tr.doc, to) != start + 1 {
      return false;
    }
    tr.SetSelection(start - 2);
    ok := true;
  }
}
