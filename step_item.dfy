/**
 * The stepItem commands `insertStep` and `removeStep`, and the two list-join
 * helpers `insertStep` runs on its transaction after inserting.
 *
 * Each command is specified by a function from the document and selection
 * to an `Outcome`, and performed by a method that applies the same edits
 * one at a time to a `Transaction`.
 */
module StepItem {
  import opened Document
  import opened Host

  /** insertStep's options. An absent title or content behaves as an empty one. */
  datatype InsertOptions = InsertOptions(title: string, content: seq<Block>, before: bool)

  /** The item insertStep builds: the given title, and the given content or else one empty paragraph. */
  function NewItem(opts: InsertOptions): (it: Item)
    ensures it.title == opts.title
    ensures opts.content != [] ==> it.content == opts.content
    ensures opts.content == [] ==> it.content == [EmptyParagraph]
    ensures ValidBlocks(opts.content) ==> ValidItem(it)
  {
    Item(opts.title, if opts.content == [] then [EmptyParagraph] else opts.content)
  }

  // ------------------------------------------------------------ list joins

  /** What a join helper leaves: its result, the document, and the container around the cursor. */
  datatype Joined = Joined(ok: bool, doc: Doc, steps: Option<nat>)

  /**
   * joinListBackwards: the container around the cursor is joined with the
   * node before it when that node is a container too.
   */
  function JoinListBackwards(d: Doc, steps: Option<nat>): (r: Joined)
    requires steps.Some? ==> IsSteps(d, steps.value)
    ensures r.ok && (steps.None? ==> r.doc == d && r.steps == None)
    ensures steps.Some? ==> r.steps.Some? && IsSteps(r.doc, r.steps.value)
    ensures steps.Some? ==>
      var i := steps.value;
      if i > 0 && d[i - 1].Steps? then r.doc == Join(d, i - 1) && r.steps == Some(i - 1)
      else r.doc == d && r.steps == steps
  {
    if steps.None? then Joined(true, d, None)
    else
      var i := steps.value;
      // the node that ends one token before the container; for the first
      // node this resolves to the container itself, with nothing to join
      var before := if i == 0 then 0 else i - 1;
      if before < i && d[before].Steps? then Joined(true, Join(d, before), Some(before))
      else Joined(true, d, steps)
  }

  /**
   * joinListForwards: the container around the cursor is joined with the
   * node after it when that node is a container too.
   */
  function JoinListForwards(d: Doc, steps: Option<nat>): (r: Joined)
    requires steps.Some? ==> IsSteps(d, steps.value)
    ensures r.ok
    ensures r.steps == steps
    ensures steps.None? ==> r.doc == d
    ensures steps.Some? ==>
      var i := steps.value;
      if i + 1 < |d| && d[i + 1].Steps? then r.doc == Join(d, i) else r.doc == d
  {
    if steps.None? then Joined(true, d, None)
    else
      var i := steps.value;
      // the boundary right after the container
      var after := i + 1;
      if after < |d| && d[after].Steps? then Joined(true, Join(d, i), steps)
      else Joined(true, d, steps)
  }

  /** Both join helpers keep the document's items, in order, and keep a valid document valid. */
  lemma JoinListsKeep(d: Doc, steps: Option<nat>)
    requires steps.Some? ==> IsSteps(d, steps.value)
    ensures var b, f := JoinListBackwards(d, steps), JoinListForwards(d, steps);
      && ItemsOf(b.doc) == ItemsOf(d) && (ValidDoc(d) ==> ValidDoc(b.doc))
      && ItemsOf(f.doc) == ItemsOf(d) && (ValidDoc(d) ==> ValidDoc(f.doc))
  {
    if steps.Some? {
      var i := steps.value;
      if i > 0 && d[i - 1].Steps? {
        JoinKeeps(d, i - 1);
      }
      if i + 1 < |d| && d[i + 1].Steps? {
        JoinKeeps(d, i);
      }
    }
  }

  // ------------------------------------------------------------ insertStep

  /** The item boundary of the current container at which insertStep puts the new item. */
  function Slot(from: Loc, before: bool): nat
    requires !from.TopText?
  {
    from.item + (if before then 0 else 1)
  }

  /** The boundary after an item lies the item's size past the boundary before it. */
  lemma SlotAfter(d: Doc, i: nat, k: nat)
    requires IsItem(d, i, k)
    ensures ItemPos(d, i, k + 1) == ItemPos(d, i, k) + ItemSize(d[i].items[k])
  {
    SumStep(d[i].items, ItemSize, k);
  }

  /**
   * insertStep at cursor `from`: a new item goes before or after the current
   * item; outside a container a new container holding only the new item goes
   * in front of the cursor's block. Content with an empty text node makes the
   * command fail before any edit.
   */
  function InsertStep(d: Doc, from: Loc, opts: InsertOptions): (r: Outcome)
    requires ValidLoc(d, from)
    ensures r.Done? && (r.handled <==> ValidBlocks(opts.content))
    ensures !r.handled ==> r.doc == d && r.focus == None
    ensures r.handled ==> r.focus.Some?
  {
    // building the node from JSON throws on an empty text node; the error is caught before any edit
    if !ValidBlocks(opts.content) then Done(false, d, None)
    else if from.TopText? then WrapStep(d, from.node, NewItem(opts))
    else AddStep(d, from.node, Slot(from, opts.before), NewItem(opts))
  }

  /** A new container holding only `it` in front of top-level node `t`; the cursor three tokens past the insertion point. */
  function WrapStep(d: Doc, t: nat, it: Item): (r: Outcome)
    requires t <= |d|
    ensures r.Done? && r.handled && r.focus.Some?
    ensures |r.doc| == |d| + 1 && r.doc[t] == Steps([it]) && r.doc[..t] == d[..t] && r.doc[t + 1..] == d[t..]
  {
    Done(true, InsertNodes(d, t, [Steps([it])]), Some(NodePos(d, t) + 3))
  }

  /** `it` added at boundary `at` of container `i`; the cursor two tokens past the insertion point. */
  function AddStep(d: Doc, i: nat, at: nat, it: Item): (r: Outcome)
    requires IsSteps(d, i) && at <= |d[i].items|
    ensures r.Done? && r.handled && r.focus == Some(ItemPos(d, i, at) + 2)
    ensures r.doc == AddItem(d, i, at, it)
  {
    Done(true, AddItem(d, i, at, it), Some(ItemPos(d, i, at) + 2))
  }

  /** An item inserted at boundary `at` of container `i`, followed by the two join attempts. */
  function AddItem(d: Doc, i: nat, at: nat, it: Item): (r: Doc)
    requires IsSteps(d, i) && at <= |d[i].items|
    // each join merges two neighbouring containers into one; nodes before the container's left neighbour stay
    ensures |d| - 2 <= |r| <= |d|
    ensures i > 0 ==> r[..i - 1] == d[..i - 1]
    ensures i == 0 ==> IsSteps(r, 0) && at + 1 <= |r[0].items| && r[0].items[..at + 1] == d[0].items[..at] + [it]
  {
    var back := JoinListBackwards(InsertItem(d, i, at, it), Some(i));
    JoinListForwards(back.doc, back.steps).doc
  }

  /** Adding a valid item keeps a valid document valid. */
  lemma AddItemValid(d: Doc, i: nat, at: nat, it: Item)
    requires IsSteps(d, i) && at <= |d[i].items|
    ensures ValidDoc(d) && ValidItem(it) ==> ValidDoc(AddItem(d, i, at, it))
  {
    var d1 := InsertItem(d, i, at, it);
    InsertItemValid(d, i, at, it);
    var back := JoinListBackwards(d1, Some(i));
    JoinListsKeep(d1, Some(i));
    JoinListsKeep(back.doc, back.steps);
  }

  /** insertStep keeps a valid document valid. */
  lemma InsertStepValid(d: Doc, from: Loc, opts: InsertOptions)
    requires ValidLoc(d, from)
    ensures ValidDoc(d) ==> ValidDoc(InsertStep(d, from, opts).doc)
  {
    if ValidBlocks(opts.content) {
      var it := NewItem(opts);
      if from.TopText? {
        InsertNodesValid(d, from.node, [Steps([it])]);
      } else {
        AddItemValid(d, from.node, Slot(from, opts.before), it);
      }
    }
  }

  /** The new container sits where node `t` was, with the cursor at the start of its title text. */
  lemma WrapPlacement(d: Doc, t: nat, it: Item)
    requires t <= |d|
    ensures var r := WrapStep(d, t, it);
      && IsSteps(r.doc, t) && r.doc[t].items == [it]
      && ValidLoc(r.doc, TitleText(t, 0, 0)) && r.focus == Some(Pos(r.doc, TitleText(t, 0, 0)))
  {
    var r := WrapStep(d, t, it).doc;
    assert r[..t] == d[..t];
    assert NodePos(r, t) == NodePos(d, t);
    assert r[t].items[..0] == [];
  }

  lemma {:induction false} WrapItems(d: Doc, t: nat, it: Item)
    requires t <= |d|
    ensures ItemsOf(InsertNodes(d, t, [Steps([it])])) == ItemsOf(d[..t]) + [it] + ItemsOf(d[t..])
  {
    var n := Steps([it]);
    assert InsertNodes(d, t, [n]) == d[..t] + [n] + d[t..];
    ItemsOfAppend(d[..t] + [n], d[t..]);
    ItemsOfAppend(d[..t], [n]);
    assert [n][1..] == [];
    assert ItemsOf([n]) == [it] + ItemsOf([]);
  }

  /** Outside a container: a new one-item container goes in front of the cursor's block, with the cursor in its title. */
  lemma InsertStepWraps(d: Doc, from: Loc, opts: InsertOptions)
    requires ValidLoc(d, from) && from.TopText? && ValidBlocks(opts.content)
    ensures var r, t := InsertStep(d, from, opts), from.node;
      && r.handled
      && r.doc == InsertNodes(d, t, [Steps([NewItem(opts)])])
      && ValidLoc(r.doc, TitleText(t, 0, 0))
      && r.focus == Some(Pos(r.doc, TitleText(t, 0, 0)))
  {
    WrapPlacement(d, from.node, NewItem(opts));
  }

  /** Inside a container: the new item is added at the chosen boundary of the current container. */
  lemma InsertStepAdds(d: Doc, from: Loc, opts: InsertOptions)
    requires ValidLoc(d, from) && !from.TopText? && ValidBlocks(opts.content)
    ensures InsertStep(d, from, opts) == AddStep(d, from.node, Slot(from, opts.before), NewItem(opts))
    ensures opts.before ==> Slot(from, opts.before) == from.item
    ensures !opts.before ==> Slot(from, opts.before) == from.item + 1
  {
  }

  /** Whether insertStep's backward join fires for the container at `i`. */
  predicate JoinsBack(d: Doc, i: nat)
    requires i < |d|
  {
    i > 0 && d[i - 1].Steps?
  }

  /** Whether insertStep's forward join fires for the container at `i`. */
  predicate JoinsForward(d: Doc, i: nat)
    requires i < |d|
  {
    i + 1 < |d| && d[i + 1].Steps?
  }

  /**
   * Inside a container the new item sits at the chosen boundary of the
   * current container, which absorbs a container directly before or after it.
   */
  lemma {:induction false} AddItemShape(d: Doc, i: nat, at: nat, it: Item)
    requires IsSteps(d, i) && at <= |d[i].items|
    ensures var r := AddItem(d, i, at, it); var c := if JoinsBack(d, i) then i - 1 else i;
      && IsSteps(r, c) && r[..c] == d[..c]
      && r[c].items ==
           (if JoinsBack(d, i) then d[i - 1].items else [])
           + (d[i].items[..at] + [it] + d[i].items[at..])
           + (if JoinsForward(d, i) then d[i + 1].items else [])
  {
    var d1 := InsertItem(d, i, at, it);
    var m := d1[i].items;
    var back := JoinListBackwards(d1, Some(i));
    var x := back.doc;
    if JoinsBack(d, i) {
      assert d1[i - 1] == d[i - 1];
      assert x == Join(d1, i - 1);
      assert x[i - 1].items == d[i - 1].items + m;
      assert x[i..] == d1[i + 1..] == d[i + 1..];
      assert JoinsForward(x, i - 1) == JoinsForward(d, i) by {
        if i + 1 < |d| { assert x[i] == d[i + 1]; }
      }
      if JoinsForward(d, i) {
        assert x[i] == d[i + 1];
      }
    } else {
      assert x == d1;
      assert JoinsForward(d1, i) == JoinsForward(d, i) by {
        if i + 1 < |d| { assert d1[i + 1] == d[i + 1]; }
      }
    }
  }

  /** After a backward join the new item's position is the insertion point less the two tokens the join removed. */
  lemma {:induction false} AddItemPosJoined(d: Doc, i: nat, at: nat, it: Item)
    requires IsSteps(d, i) && at <= |d[i].items| && JoinsBack(d, i)
    ensures var r, a := AddItem(d, i, at, it), |d[i - 1].items| + at;
      IsItem(r, i - 1, a) && r[i - 1].items[a] == it && ItemPos(r, i - 1, a) + 2 == ItemPos(d, i, at)
  {
    AddItemShape(d, i, at, it);
    var r := AddItem(d, i, at, it);
    var items, pre := d[i].items, d[i - 1].items;
    var post := if JoinsForward(d, i) then d[i + 1].items else [];
    PrefixOfJoined(pre, items[..at], it, items[at..], post, r[i - 1].items);
    PrefixPos(d, r, i - 1, pre, i, at);
  }

  /** Without a backward join the new item sits exactly at the insertion point. */
  lemma {:induction false} AddItemPosPlain(d: Doc, i: nat, at: nat, it: Item)
    requires IsSteps(d, i) && at <= |d[i].items| && !JoinsBack(d, i)
    ensures var r := AddItem(d, i, at, it); IsItem(r, i, at) && r[i].items[at] == it && ItemPos(r, i, at) == ItemPos(d, i, at)
  {
    AddItemShape(d, i, at, it);
    var r := AddItem(d, i, at, it);
    var items := d[i].items;
    var post := if JoinsForward(d, i) then d[i + 1].items else [];
    PrefixOfJoined([], items[..at], it, items[at..], post, r[i].items);
    PrefixPos(d, r, i, [], i, at);
  }

  lemma PrefixOfJoined<T>(p: seq<T>, q: seq<T>, x: T, rest: seq<T>, post: seq<T>, all: seq<T>)
    requires all == p + (q + [x] + rest) + post
    ensures |p| + |q| < |all| && all[..|p| + |q|] == p + q && all[|p| + |q|] == x
  {
    assert all == (p + q) + ([x] + rest + post);
  }

  /**
   * Positions in a document that agrees with `d` before node `c`, whose node
   * `c` starts with `pre` and then item `at`'s predecessors of `d[i]`.
   */
  lemma {:induction false} PrefixPos(d: Doc, r: Doc, c: nat, pre: seq<Item>, i: nat, at: nat)
    requires IsSteps(d, i) && at <= |d[i].items| && c <= i && IsSteps(r, c) && r[..c] == d[..c]
    requires (c == i && pre == []) || (c + 1 == i && d[c].Steps? && pre == d[c].items)
    requires |pre| + at <= |r[c].items| && r[c].items[..|pre| + at] == pre + d[i].items[..at]
    ensures ItemPos(r, c, |pre| + at) + (if c == i then 0 else 2) == ItemPos(d, i, at)
  {
    SumAppend(pre, d[i].items[..at], ItemSize);
    assert NodePos(r, c) == NodePos(d, c);
    if c < i {
      PosAfterPrevious(d, i);
    }
  }

  /** A top-level node starts where the one before it ends. */
  lemma PosAfterPrevious(d: Doc, i: nat)
    requires 0 < i < |d| && d[i - 1].Steps?
    ensures NodePos(d, i) == NodePos(d, i - 1) + ItemsSize(d[i - 1].items) + 2
  {
    SumStep(d, NodeSize, i - 1);
    assert d[..i - 1 + 1] == d[..i];
  }

  lemma TitleTextPos(r: Doc, c: nat, a: nat)
    requires IsItem(r, c, a)
    ensures Pos(r, TitleText(c, a, 0)) == ItemPos(r, c, a) + 2
  {
  }

  /**
   * With no container right before the current one, the new item sits at
   * the chosen boundary and the cursor lands at the start of its title.
   */
  lemma AddStepPlain(d: Doc, i: nat, at: nat, it: Item)
    requires IsSteps(d, i) && at <= |d[i].items| && !JoinsBack(d, i)
    ensures var r := AddStep(d, i, at, it);
      && IsItem(r.doc, i, at) && r.doc[i].items[at] == it
      && r.focus == Some(Pos(r.doc, TitleText(i, at, 0)))
  {
    AddItemPosPlain(d, i, at, it);
    TitleTextPos(AddItem(d, i, at, it), i, at);
  }

  /**
   * When a container comes right before the current one, the two merge and
   * the cursor lands two tokens past the start of the new title: the focus
   * position is computed before the join removes two tokens in front of the
   * new item.
   */
  lemma AddStepAfterJoin(d: Doc, i: nat, at: nat, it: Item)
    requires IsSteps(d, i) && at <= |d[i].items| && JoinsBack(d, i)
    ensures var r, a := AddStep(d, i, at, it), |d[i - 1].items| + at;
      && IsItem(r.doc, i - 1, a) && r.doc[i - 1].items[a] == it
      && r.focus == Some(Pos(r.doc, TitleText(i - 1, a, 0)) + 2)
  {
    AddItemPosJoined(d, i, at, it);
    TitleTextPos(AddItem(d, i, at, it), i - 1, |d[i - 1].items| + at);
  }

  lemma {:induction false} AddedItems(d: Doc, i: nat, at: nat, it: Item)
    requires IsSteps(d, i) && at <= |d[i].items|
    ensures ItemsOf(AddItem(d, i, at, it)) ==
      ItemsOf(d[..i]) + d[i].items[..at] + [it] + d[i].items[at..] + ItemsOf(d[i + 1..])
  {
    JoinsKeepItems(d, i, at, it);
    InsertedItems(d, i, at, it);
  }

  /** The joins after the insertion leave the items as the insertion made them. */
  lemma JoinsKeepItems(d: Doc, i: nat, at: nat, it: Item)
    requires IsSteps(d, i) && at <= |d[i].items|
    ensures ItemsOf(AddItem(d, i, at, it)) == ItemsOf(InsertItem(d, i, at, it))
  {
    var d1 := InsertItem(d, i, at, it);
    JoinListsKeep(d1, Some(i));
    var back := JoinListBackwards(d1, Some(i));
    JoinListsKeep(back.doc, back.steps);
  }

  /** Inserting an item puts it among the document's items at its place. */
  lemma InsertedItems(d: Doc, i: nat, at: nat, it: Item)
    requires IsSteps(d, i) && at <= |d[i].items|
    ensures ItemsOf(InsertItem(d, i, at, it)) ==
      ItemsOf(d[..i]) + d[i].items[..at] + [it] + d[i].items[at..] + ItemsOf(d[i + 1..])
  {
    var d1 := InsertItem(d, i, at, it);
    ItemsOfAround(d1, i);
  }

  /** insertStep adds exactly the new item to the document's items, at the chosen place. */
  lemma InsertStepItems(d: Doc, from: Loc, opts: InsertOptions)
    requires ValidLoc(d, from) && ValidBlocks(opts.content)
    ensures var r := InsertStep(d, from, opts);
      && r.handled
      && (from.TopText? ==>
            ItemsOf(r.doc) == ItemsOf(d[..from.node]) + [NewItem(opts)] + ItemsOf(d[from.node..]))
      && (!from.TopText? ==>
            var i, at := from.node, Slot(from, opts.before);
            ItemsOf(r.doc) ==
              ItemsOf(d[..i]) + d[i].items[..at] + [NewItem(opts)] + d[i].items[at..] + ItemsOf(d[i + 1..]))
  {
    if from.TopText? {
      WrapItems(d, from.node, NewItem(opts));
    } else {
      AddedItems(d, from.node, Slot(from, opts.before), NewItem(opts));
    }
  }

  /** insertStep adds one item to the document. */
  lemma InsertStepCount(d: Doc, from: Loc, opts: InsertOptions)
    requires ValidLoc(d, from) && ValidBlocks(opts.content)
    ensures |ItemsOf(InsertStep(d, from, opts).doc)| == |ItemsOf(d)| + 1
  {
    InsertStepItems(d, from, opts);
    var i := from.node;
    ItemsOfAround(d, i);
    if from.TopText? {
      assert d[i..] == [d[i]] + d[i + 1..];
      ItemsOfAppend([d[i]], d[i + 1..]);
      assert ItemsOf([d[i]]) == [] + ItemsOf([]);
    } else {
      var at := Slot(from, opts.before);
      assert |d[i].items[..at]| + |d[i].items[at..]| == |d[i].items|;
    }
  }

  /** insertStep changes no top-level textblock: the new item goes into a new or an existing container. */
  lemma InsertStepKeepsBlocks(d: Doc, from: Loc, opts: InsertOptions)
    requires ValidLoc(d, from)
    ensures TopBlocks(InsertStep(d, from, opts).doc) == TopBlocks(d)
  {
    if ValidBlocks(opts.content) {
      var it := NewItem(opts);
      if from.TopText? {
        var t := from.node;
        assert AllSteps(d[t..t]);
        assert AllSteps([Steps([it])]);
        TopBlocksSwap(d, t, t, [Steps([it])]);
      } else {
        AddItemKeepsBlocks(d, from.node, Slot(from, opts.before), it);
      }
    }
  }

  lemma AddItemKeepsBlocks(d: Doc, i: nat, at: nat, it: Item)
    requires IsSteps(d, i) && at <= |d[i].items|
    ensures TopBlocks(AddItem(d, i, at, it)) == TopBlocks(d)
  {
    var d1 := InsertItem(d, i, at, it);
    InsertItemKeepsBlocks(d, i, at, it);
    var back := JoinListBackwards(d1, Some(i));
    assert TopBlocks(back.doc) == TopBlocks(d1) by {
      if JoinsBack(d1, i) {
        JoinKeepsBlocks(d1, i - 1);
      }
    }
    var c := back.steps.value;
    var fwd := JoinListForwards(back.doc, back.steps);
    assert TopBlocks(fwd.doc) == TopBlocks(back.doc) by {
      if JoinsForward(back.doc, c) {
        JoinKeepsBlocks(back.doc, c);
      }
    }
  }

  // ------------------------------------------------------------ removeStep

  /** The blocks removeStep puts back for an item: a level-2 heading holding a non-empty title, then the content. */
  function Dissolve(it: Item): (bs: seq<Block>)
    ensures |bs| == |it.content| + (if |it.title| == 0 then 0 else 1)
    ensures |it.title| > 0 ==> bs[0] == Block(Heading(2), [it.title])
    ensures bs[|bs| - |it.content|..] == it.content
    ensures BlocksText(bs) == ItemText(it)
    ensures ValidItem(it) ==> |bs| >= 1 && ValidBlocks(bs)
  {
    var heading := if |it.title| == 0 then [] else [Block(Heading(2), [it.title])];
    var bs := heading + it.content;
    BlocksTextAppend(heading, it.content);
    assert Concat([it.title]) == it.title + Concat([]);
    assert |it.title| > 0 ==> BlocksText(heading) == TextOf(heading[0]) + BlocksText([]);
    bs
  }

  /** `Math.max(0, p)`. */
  function AtLeastZero(p: int): (m: nat)
    ensures m >= p && (p >= 0 ==> m == p)
  {
    if p < 0 then 0 else p
  }

  /** Where removeStep puts the blocks back and the cursor: before the container for its first item, else before the item. */
  function RemovalPos(d: Doc, from: Loc): (p: nat)
    requires ValidLoc(d, from) && !from.TopText?
    ensures from.item == 0 ==> p == NodePos(d, from.node)
    ensures from.item > 0 ==> p == ItemPos(d, from.node, from.item)
  {
    var i, k := from.node, from.item;
    var isFirstChild := k == 0;
    if isFirstChild then AtLeastZero(ItemPos(d, i, k) - 1) else AtLeastZero(ItemPos(d, i, k))
  }

  /**
   * removeStep, as intended: the current item is replaced, in place, by its
   * title as a heading and its content blocks, and the cursor goes to the
   * boundary before the item (before the container for its first item).
   */
  function RemoveStep(d: Doc, from: Loc): (r: Outcome)
    requires ValidLoc(d, from)
    ensures r == Pass <==> from.TopText?
    ensures r != Pass ==> r.Done? && r.handled && r.focus.Some?
    ensures r != Pass ==> r.doc == Removed(d, from.node, from.item)
  {
    if from.TopText? then Pass
    else Done(true, Removed(d, from.node, from.item), Some(RemovalPos(d, from)))
  }

  /** Item `k` of container `i` replaced by its reinstated blocks. */
  function Removed(d: Doc, i: nat, k: nat): (r: Doc)
    requires IsItem(d, i, k)
    ensures |r| >= 1 && i <= |r| && r[..i] == d[..i]
  {
    ReplaceItems(d, i, k, k + 1, Dissolve(d[i].items[k]))
  }

  /** removeStep keeps a valid document valid. */
  lemma RemoveStepValid(d: Doc, from: Loc)
    requires ValidLoc(d, from) && !from.TopText?
    ensures ValidDoc(d) ==> ValidDoc(RemoveStep(d, from).doc)
  {
    var i, k := from.node, from.item;
    var bs := Dissolve(d[i].items[k]);
    ItemOfValidDoc(d, i, k);
    ReplaceItemsValid(d, i, k, k + 1, bs);
    assert RemoveStep(d, from).doc == Removed(d, i, k);
  }

  /** removeStep takes exactly the current item out of the document's items. */
  lemma RemoveStepItems(d: Doc, from: Loc)
    requires ValidLoc(d, from) && !from.TopText?
    ensures var r, i, k := RemoveStep(d, from), from.node, from.item; var items := d[i].items;
      ItemsOf(r.doc) == ItemsOf(d[..i]) + items[..k] + items[k + 1..] + ItemsOf(d[i + 1..])
  {
    var i, k := from.node, from.item;
    ReplacedItems(d, i, k, k + 1, Dissolve(d[i].items[k]));
  }

  /** Replacing the first item by at least one block puts the first block where the container began. */
  lemma {:induction false} ReplacedFirst(d: Doc, i: nat, bs: seq<Block>)
    requires IsSteps(d, i) && |d[i].items| >= 1 && |bs| >= 1
    ensures var r := ReplaceItems(d, i, 0, 1, bs);
      i < |r| && r[..i] == d[..i] && r[i] == Text(bs[0])
  {
    var items := d[i].items;
    var tail: seq<Node> := if 1 == |items| then [] else [Steps(items[1..])];
    assert Split(items, 0, 1, bs) == Lift(bs) + tail;
    var whole := d[..i] + (Lift(bs) + tail) + d[i + 1..];
    assert whole == d[..i] + ([Text(bs[0])] + Lift(bs)[1..] + tail + d[i + 1..]);
  }

  /** Replacing a later item leaves the container holding the items before it, ending one token after the item's start. */
  lemma {:induction false} ReplacedLater(d: Doc, i: nat, k: nat, bs: seq<Block>)
    requires IsItem(d, i, k) && k > 0 && |bs| >= 1
    ensures var r := ReplaceItems(d, i, k, k + 1, bs);
      i + 1 < |r| && r[..i] == d[..i] && r[i] == Steps(d[i].items[..k]) && r[i + 1] == Text(bs[0])
      && NodePos(r, i + 1) == ItemPos(d, i, k) + 1
  {
    var items := d[i].items;
    var tail: seq<Node> := if k + 1 == |items| then [] else [Steps(items[k + 1..])];
    var head := Steps(items[..k]);
    assert Split(items, k, k + 1, bs) == [head] + Lift(bs) + tail;
    var r := ReplaceItems(d, i, k, k + 1, bs);
    assert r == (d[..i] + [head]) + (Lift(bs) + tail + d[i + 1..]);
    assert r[..i + 1] == d[..i] + [head];
    SumStep(r, NodeSize, i);
  }

  /** removeStep of a container's first item: the cursor is at the boundary before the first reinstated block. */
  lemma RemoveFirstStepFocus(d: Doc, from: Loc)
    requires ValidDoc(d) && ValidLoc(d, from) && !from.TopText? && from.item == 0
    ensures var r, i := RemoveStep(d, from), from.node;
      && i < |r.doc| && r.doc[i] == Text(Dissolve(d[i].items[0])[0])
      && r.focus == Some(NodePos(r.doc, i))
  {
    var i := from.node;
    ItemOfValidDoc(d, i, 0);
    ReplacedFirst(d, i, Dissolve(d[i].items[0]));
    var r := RemoveStep(d, from).doc;
    assert NodePos(r, i) == NodePos(d, i);
  }

  /** removeStep of a later item: the cursor is at the end of the shortened container, just before its closing token. */
  lemma RemoveLaterStepFocus(d: Doc, from: Loc)
    requires ValidDoc(d) && ValidLoc(d, from) && !from.TopText? && from.item > 0
    ensures var r, i := RemoveStep(d, from), from.node;
      && i + 1 < |r.doc| && r.doc[i] == Steps(d[i].items[..from.item])
      && r.doc[i + 1] == Text(Dissolve(d[i].items[from.item])[0])
      && r.focus.Some? && r.focus.value + 1 == NodePos(r.doc, i + 1)
  {
    var i, k := from.node, from.item;
    ItemOfValidDoc(d, i, k);
    ReplacedLater(d, i, k, Dissolve(d[i].items[k]));
  }

  /**
   * removeStep of the only, empty item of the only container: the deletion
   * empties the document, which is refilled with an empty paragraph, and
   * the item's empty paragraph goes back in front of it, so two remain.
   */
  lemma RemoveLoneEmptyStep()
    ensures var d := [Steps([Item("", [EmptyParagraph])])];
      ValidLoc(d, TitleText(0, 0, 0))
      && RemoveStep(d, TitleText(0, 0, 0)) == Done(true, [Text(EmptyParagraph), Text(EmptyParagraph)], Some(0))
  {
    var d := [Steps([Item("", [EmptyParagraph])])];
    assert d[..0] == [] && d[1..] == [];
    assert Dissolve(Item("", [EmptyParagraph])) == [EmptyParagraph];
    assert Split(d[0].items, 0, 1, [EmptyParagraph]) == [Text(EmptyParagraph)];
    assert Empties(d, 0, 0, 1);
  }

  /**
   * The document toggleSteps makes from one empty paragraph is a container
   * with one empty item followed by an empty paragraph. Removing that item
   * puts its empty paragraph back in front of the other one, so two
   * paragraphs remain; as written, the item is deleted, the container goes
   * with it, one paragraph remains, and the command returns false.
   */
  lemma RemoveStepAfterToggle()
    ensures var d, from := [Steps([Item("", [EmptyParagraph])]), Text(EmptyParagraph)], TitleText(0, 0, 0);
      && ValidLoc(d, from)
      && RemoveStep(d, from) == Done(true, [Text(EmptyParagraph), Text(EmptyParagraph)], Some(0))
      && RemoveStepAsWritten(d, from) == Done(false, [Text(EmptyParagraph)], None)
  {
    var d := [Steps([Item("", [EmptyParagraph])]), Text(EmptyParagraph)];
    assert d[..0] == [] && d[1..] == [Text(EmptyParagraph)];
    assert Dissolve(Item("", [EmptyParagraph])) == [EmptyParagraph];
    assert Split(d[0].items, 0, 1, [EmptyParagraph]) == [Text(EmptyParagraph)];
  }

  /**
   * removeStep as written: the item is deleted, then building the blocks to
   * put back fails because a list of nodes is passed where one node is
   * expected; the command returns false with the deletion already in the
   * transaction and no selection set.
   */
  function RemoveStepAsWritten(d: Doc, from: Loc): (r: Outcome)
    requires ValidLoc(d, from)
    ensures r == Pass <==> from.TopText?
    ensures r != Pass ==> r.Done? && !r.handled && r.focus == None
    ensures r != Pass ==> r.doc == DeleteItem(d, from.node, from.item)
  {
    if from.TopText? then Pass
    else Done(false, DeleteItem(d, from.node, from.item), None)
  }

  /**
   * As written, removeStep takes the item out of the document's items like
   * the corrected command, but puts none of its blocks back: the top-level
   * blocks stay as they were, unless the document emptied and was refilled.
   */
  lemma RemoveStepAsWrittenKeepsBlocks(d: Doc, from: Loc)
    requires ValidLoc(d, from) && !from.TopText?
    ensures var r, i, k := RemoveStepAsWritten(d, from), from.node, from.item; var items := d[i].items;
      && ItemsOf(r.doc) == ItemsOf(d[..i]) + items[..k] + items[k + 1..] + ItemsOf(d[i + 1..])
      && (r.doc != [Text(EmptyParagraph)] ==> TopBlocks(r.doc) == TopBlocks(d))
  {
    var i, k := from.node, from.item;
    var r := RemoveStepAsWritten(d, from);
    DeleteItemKeeps(d, i, k);
    if r.doc != [Text(EmptyParagraph)] {
      DeleteItemKeepsBlocks(d, i, k);
    }
  }

  lemma DeleteItemKeepsBlocks(d: Doc, i: nat, k: nat)
    requires IsItem(d, i, k) && DeleteItem(d, i, k) != [Text(EmptyParagraph)]
    ensures TopBlocks(DeleteItem(d, i, k)) == TopBlocks(d)
  {
    var items := d[i].items;
    var mid: seq<Node> := if |items| == 1 then [] else [Steps(items[..k] + items[k + 1..])];
    assert DeleteItem(d, i, k) == d[..i] + mid + d[i + 1..];
    TopBlocksSwap(d, i, i + 1, mid);
  }

  /** On a one-item document the item's title and content vanish as written, and are kept as intended. */
  lemma RemoveStepAsWrittenLosesText()
    ensures var d, from := [Steps([Item("Step", [Block(Paragraph, ["x"])])])], TitleText(0, 0, 0);
      && ValidLoc(d, from)
      && RemoveStepAsWritten(d, from) == Done(false, [Text(EmptyParagraph)], None)
      && RemoveStep(d, from).doc == [Text(Block(Heading(2), ["Step"])), Text(Block(Paragraph, ["x"])), Text(EmptyParagraph)]
  {
    var d := [Steps([Item("Step", [Block(Paragraph, ["x"])])])];
    assert d[..0] == [] && d[1..] == [];
    var bs := Dissolve(d[0].items[0]);
    assert bs == [Block(Heading(2), ["Step"]), Block(Paragraph, ["x"])];
    assert Split(d[0].items, 0, 1, bs) == Lift(bs);
    assert Empties(d, 0, 0, 1);
  }

  // ------------------------------------------------------------ on a transaction

  /** joinListBackwards on a transaction. */
  method JoinBackwardsIn(tr: Transaction, steps: Option<nat>) returns (ok: bool, around: Option<nat>)
    requires steps.Some? ==> IsSteps(tr.doc, steps.value)
    modifies tr
    ensures var r := JoinListBackwards(old(tr.doc), steps);
      ok == r.ok && tr.doc == r.doc && around == r.steps && tr.focus == old(tr.focus)
  {
    around := steps;
    if steps.Some? {
      var i := steps.value;
      if i > 0 && tr.doc[i - 1].Steps? {
        tr.JoinAt(i - 1);
        around := Some(i - 1);
      }
    }
    ok := true;
  }

  /** joinListForwards on a transaction. */
  method JoinForwardsIn(tr: Transaction, steps: Option<nat>) returns (ok: bool)
    requires steps.Some? ==> IsSteps(tr.doc, steps.value)
    modifies tr
    ensures var r := JoinListForwards(old(tr.doc), steps);
      ok == r.ok && tr.doc == r.doc && tr.focus == old(tr.focus)
  {
    if steps.Some? {
      var i := steps.value;
      if i + 1 < |tr.doc| && tr.doc[i + 1].Steps? {
        tr.JoinAt(i);
      }
    }
    ok := true;
  }

  /** insertStep's insertion and two join attempts inside container `i`, on a transaction. */
  method AddItemIn(tr: Transaction, i: nat, at: nat, it: Item)
    requires IsSteps(tr.doc, i) && at <= |tr.doc[i].items|
    modifies tr
    ensures tr.doc == AddItem(old(tr.doc), i, at, it) && tr.focus == old(tr.focus)
  {
    tr.InsertItemAt(i, at, it);
    var _, around := JoinBackwardsIn(tr, Some(i));
    var _ := JoinForwardsIn(tr, around);
  }

  /** insertStep outside a container, on a transaction. */
  method WrapStepIn(tr: Transaction, t: nat, it: Item)
    requires t <= |tr.doc|
    modifies tr
    ensures var r := WrapStep(old(tr.doc), t, it); tr.doc == r.doc && tr.focus == r.focus
  {
    var p := NodePos(tr.doc, t);
    tr.InsertNodesAt(t, [Steps([it])]);
    tr.SetSelection(p + 3);
  }

  /** insertStep inside a container, on a transaction. */
  method AddStepIn(tr: Transaction, i: nat, at: nat, it: Item)
    requires IsSteps(tr.doc, i) && at <= |tr.doc[i].items|
    modifies tr
    ensures var r := AddStep(old(tr.doc), i, at, it); tr.doc == r.doc && tr.focus == r.focus
  {
    var p := ItemPos(tr.doc, i, at);
    AddItemIn(tr, i, at, it);
    tr.SetSelection(p + 2);
  }

  /** insertStep on a transaction holding the state's document, with the cursor at `from`. */
  method InsertStepIn(tr: Transaction, from: Loc, opts: InsertOptions) returns (ok: bool)
    requires ValidLoc(tr.doc, from)
    modifies tr
    ensures var r := InsertStep(old(tr.doc), from, opts);
      && ok == r.handled && tr.doc == r.doc
      && (r.handled ==> tr.focus == r.focus) && (!r.handled ==> tr.focus == old(tr.focus))
  {
    if !ValidBlocks(opts.content) {
      return false;
    }
    if from.TopText? {
      WrapStepIn(tr, from.node, NewItem(opts));
    } else {
      AddStepIn(tr, from.node, Slot(from, opts.before), NewItem(opts));
    }
    ok := true;
  }

  /** removeStep (as intended) on a transaction holding the state's document, with the cursor at `from`. */
  method RemoveStepIn(tr: Transaction, from: Loc) returns (ok: bool)
    requires ValidLoc(tr.doc, from)
    modifies tr
    ensures var r := RemoveStep(old(tr.doc), from);
      && (r == Pass ==> !ok && tr.doc == old(tr.doc) && tr.focus == old(tr.focus))
      && (r.Done? ==> ok && tr.doc == r.doc && tr.focus == r.focus)
  {
    if from.TopText? {
      return false;
    }
    var i, k := from.node, from.item;
    var p := RemovalPos(tr.doc, from);
    tr.ReplaceItemsAt(i, k, k + 1, Dissolve(tr.doc[i].items[k]));
    tr.SetSelection(p);
    ok := true;
  }
}
