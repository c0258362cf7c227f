# tiptap steps: a Dafny model of the editing core

The steps extension adds numbered step lists to a tiptap (ProseMirror) editor.
A `steps` container holds one or more `stepItem`s. Each item is a `stepTitle`
(inline text) followed by a `stepContent` (one or more blocks). This project
models the commands and key handlers that edit such lists:

- `insertStep` and `removeStep`, with the two list-join helpers that `insertStep` runs;
- `toggleSteps`, which turns selected blocks into a step or puts selected steps back as blocks;
- the Enter and Backspace handlers of `stepTitle` and `stepContent`.

Modules:

- `Document` (document.dfy): the document tree and ProseMirror token positions. A
  non-text node takes its content size plus two tokens, and text takes one token
  per character. `PosInjective` proves that a position determines the cursor, so
  the handlers' position tests can be stated structurally.
- `Host` (host.dfy): what the commands borrow from the editor. This covers
  `$from`/`$to`, `blockRange`, `Selection.near`, `findParentNode` for a container,
  and the structural effect of `insert`, `delete` and `join`. It also holds a
  `Transaction` class, whose `doc` and `focus` fields the commands update one step
  at a time.
- `StepItem` (step_item.dfy): `insertStep`, `removeStep` and the join helpers.
- `StepTitle` (step_title.dfy): the title's Enter and Backspace handlers.
- `StepContent` (step_content.dfy): the content's Enter and Backspace handlers,
  including `joinTextblockBackward`.
- `StepsToggle` (steps.dfy): `toggleSteps`.

Each command is a function from the document and selection to an `Outcome`, which
is one of:

- `Pass`: the command returned false before touching the transaction;
- `Done(handled, doc, focus)`: the dispatched document, the boolean returned, and
  the cursor position set;
- `Unmodelled`: a case the model does not cover (listed below).

A method then performs the same edits on a `Transaction`. Its `ensures` ties the
transaction's new state to the function.

removeStep is modelled twice: `StepItem.RemoveStepAsWritten` as the code
stands, and `StepItem.RemoveStep` as intended (see Findings). Every command that
calls removeStep calls the intended one: toggleSteps, the title's Backspace
handler, and the title's Enter handler in its blank-last-item branch. That way
each finding below shows on its own. `StepsToggle.ToggleSteps` models
toggleSteps with its item filter as written; `StepsToggle.ToggleStepsCorrected`
uses the corrected filter as well.

The host's replace fitting is idealised by three rules:

1. A deletion that leaves the document empty is refilled with one empty paragraph, before anything else is inserted.
2. Removing a container's last item removes the container.
3. Blocks placed between items split the container there.

## Model

| member | source | states |
|---|---|---|
| Document.PosInjective | src/steps/step-title.ts:66-67 | two valid cursors at the same ProseMirror position are the same cursor, so position tests decide structural places |
| Document.ItemOfValidDoc | src/steps/step-item.ts:90 | every item of a valid document has a title and at least one content block |
| Document.ItemsOfAround | src/steps/steps.ts:26 | the document's items are those before a node, that node's items, then those after it |
| Host.From | src/steps/steps.ts:62 | `$from` is a selection end whose position is no greater than either end |
| Host.To | src/steps/steps.ts:62 | `$to` is the selection end at or after `$from` |
| Host.RangeFrom | src/steps/steps.ts:62 | the block range found has the deepest depth whose ancestor's content still reaches `$to`, with start and end at that ancestor's boundaries |
| Host.BlockRange | src/steps/steps.ts:62 | `$from.blockRange($to)`: when a range is found, its depth is one of `$from`'s ancestor levels (RangeFrom states its bounds) |
| Host.BlockRangeDefined | src/steps/step-item.ts:129-130 | a text selection always has a block range, so the `!range` guards never fire |
| Host.RangeShape | src/steps/steps.ts:62 | a block range spans whole top-level nodes (depth 0), whole items of one container (depth 1), or lies inside one item (depth 2 or more) |
| Host.RangeStartsAtBlock | src/steps/step-item.ts:142 | outside a container, `range.start` is the position of the cursor's own top-level block |
| Host.Near | src/steps/steps.ts:145-147 | the cursor left after a deletion is the first text position at or after the boundary, else the last one before it |
| Host.ContainerIn | src/steps/step-item.ts:13-15 | `findParentNode` for a container finds the container strictly holding the position, and None exactly when no container holds it |
| Host.ContainerAtInside | src/steps/step-title.ts:96-99 | a position strictly inside a container finds that container |
| Host.ContainerAtBoundary | src/steps/step-title.ts:96-99 | a position between top-level nodes finds no container |
| Host.DeleteNodes | src/steps/steps.ts:145-146 | deleting top-level nodes keeps the rest in order; a document the deletion empties becomes one empty paragraph; a valid document stays valid |
| Host.DeleteItem | src/steps/step-item.ts:246 | `tr.delete` over one item: the container keeps its other items in order, and a container that loses its only item is removed |
| Host.DeleteItemKeeps | src/steps/step-item.ts:246 | deleting an item takes exactly that item out of the document's items and keeps a valid document valid |
| Host.InsertItem | src/steps/step-item.ts:177-184 | the item goes into container `i` at item boundary `k`, after the items before it and before the rest; every other node is unchanged |
| Host.InsertItemValid | src/steps/step-item.ts:177-184 | inserting a valid item into a container keeps a valid document valid |
| Host.ReplaceItems | src/steps/step-item.ts:246-255 | the result is never empty and the nodes before the container are unchanged (ReplaceIsDeleteThenInsert and StepsToggle.ReplacedShape state the rest) |
| Host.ReplaceIsDeleteThenInsert | src/steps/step-item.ts:246-255 | replacing items is deleting them, refilling an emptied document with one empty paragraph, then inserting the blocks at the boundary where the items were, so the refill paragraph follows the blocks |
| Host.ReplaceItemsValid | src/steps/step-item.ts:246-255 | replacing items by valid blocks keeps a valid document valid |
| Host.ReplacedItems | src/steps/step-item.ts:246 | replacing items `a..b` by blocks removes exactly those items from the document's items |
| Host.Join | src/steps/step-item.ts:26 | `tr.join` merges two adjacent containers into one holding both item lists, in order |
| Host.JoinKeeps | src/steps/step-item.ts:26 | a join keeps the document's items and keeps a valid document valid |
| Host.JoinKeepsBlocks | src/steps/step-item.ts:26 | a join changes no top-level textblock |
| Host.InsertItemKeepsBlocks | src/steps/step-item.ts:177-184 | inserting an item into a container changes no top-level textblock |
| Host.Transaction.InsertNodesAt | src/steps/step-item.ts:177-184 | `tr.insert` of top-level nodes; the selection is untouched |
| Host.Transaction.DeleteNodesAt | src/steps/steps.ts:145-146 | `deleteRange` over whole top-level nodes |
| Host.Transaction.InsertItemAt | src/steps/step-item.ts:177-184 | `tr.insert` of an item into a container |
| Host.Transaction.ReplaceItemsAt | src/steps/step-item.ts:246-255 | `tr.delete` of items, with the refill of an emptied document, then `tr.insert` of blocks in their place; when the only container loses every item, the blocks are followed by one empty paragraph |
| Host.Transaction.JoinAt | src/steps/step-item.ts:26 | `tr.join` of two adjacent containers |
| Host.Transaction.SetSelection | src/steps/step-item.ts:191 | `tr.setSelection` changes the focus and not the document |
| StepItem.NewItem | src/steps/step-item.ts:144-163 | the new item has exactly the given title; its content is the given content, or one empty paragraph when none is given; valid content gives a valid item |
| StepItem.JoinListBackwards | src/steps/step-item.ts:12-28 | always returns true; joins the container around the cursor with the node before it exactly when that node is a container |
| StepItem.JoinListForwards | src/steps/step-item.ts:30-46 | always returns true; joins the container around the cursor with the node after it exactly when that node is a container |
| StepItem.JoinListsKeep | src/steps/step-item.ts:12-46 | both join helpers keep the document's items in order and keep a valid document valid |
| StepItem.InsertStep | src/steps/step-item.ts:124-199 | the command returns true exactly when the content has no empty text node; when it fails the document is unchanged and no cursor is set |
| StepItem.WrapStep | src/steps/step-item.ts:165-191 | outside a container, a one-item container goes in at node `t` and nothing else moves; returns true with a cursor set |
| StepItem.AddStep | src/steps/step-item.ts:170-191 | inside a container, returns true with AddItem's document and the cursor two tokens past the item boundary |
| StepItem.AddItem | src/steps/step-item.ts:177-188 | the insertion and the two joins remove at most two containers and keep every node before the container's left neighbour; in a container that opens the document the new item follows the items before the boundary |
| StepItem.InsertStepValid | src/steps/step-item.ts:124-199 | insertStep keeps a valid document valid |
| StepItem.InsertStepWraps | src/steps/step-item.ts:165-172 | outside a container a new one-item container goes in front of the cursor's block, and the cursor lands at the start of its title |
| StepItem.InsertStepAdds | src/steps/step-item.ts:137-142 | inside a container the new item goes before the current item when `before` is set, else after it |
| StepItem.AddItemShape | src/steps/step-item.ts:186-188 | after inserting, the current container absorbs a container directly before or after it, with every item in order |
| StepItem.AddStepPlain | src/steps/step-item.ts:170-172 | with no container just before, the cursor lands at the start of the new item's title |
| StepItem.AddStepAfterJoin | src/steps/step-item.ts:170-191 | after a backward join the cursor lands two positions past the start of the new title, because the focus is computed before the join |
| StepItem.InsertStepItems | src/steps/step-item.ts:124-199 | insertStep adds exactly the new item to the document's items, at the chosen place |
| StepItem.InsertStepCount | src/steps/step-item.ts:124-199 | insertStep adds one item to the document |
| StepItem.InsertStepKeepsBlocks | src/steps/step-item.ts:124-199 | insertStep changes no top-level textblock |
| StepItem.Dissolve | src/steps/step-item.ts:218-232 | the blocks put back are a level-2 heading holding a non-empty title, then the content; their text is the item's text |
| StepItem.AtLeastZero | src/steps/step-item.ts:236-241 | `Math.max(0, p)` is at least `p` and equals it when `p` is not negative |
| StepItem.RemovalPos | src/steps/step-item.ts:234-242 | the insertion and focus position is before the container for its first item, and before the item otherwise |
| StepItem.RemoveStep | src/steps/step-item.ts:201-270 | passes exactly when the cursor is outside any item; otherwise replaces the item in place by its blocks, returns true and sets the cursor |
| StepItem.Removed | src/steps/step-item.ts:244-255 | the result is never empty and the nodes before the container are unchanged (RemoveFirstStepFocus, RemoveLaterStepFocus and RemoveStepItems state the rest) |
| StepItem.RemoveStepValid | src/steps/step-item.ts:201-270 | removeStep keeps a valid document valid |
| StepItem.RemoveStepItems | src/steps/step-item.ts:246 | removeStep takes exactly the current item out of the document's items |
| StepItem.RemoveFirstStepFocus | src/steps/step-item.ts:234-262 | for a first item, the first reinstated block takes the container's place and the cursor is at the boundary before it |
| StepItem.RemoveLaterStepFocus | src/steps/step-item.ts:234-262 | for a later item, the container keeps the items before it and the cursor is just before the container's closing token |
| StepItem.RemoveLoneEmptyStep | src/steps/step-item.ts:201-270 | on a document that is only a container with one empty item, the deletion empties the document, it is refilled, and the item's empty paragraph goes back in front: two empty paragraphs, with the cursor at 0 |
| StepItem.RemoveStepAfterToggle | src/steps/step-item.ts:201-270 | on the document toggleSteps makes from one empty paragraph, removeStep returns true and leaves two empty paragraphs; as written it returns false and leaves one |
| StepItem.RemoveStepAsWritten | src/steps/step-item.ts:244-269 | as written, the item is deleted by `tr.delete`: its container keeps its other items, or goes when this was its only item; nothing is put back, and the command returns false with no cursor set |
| StepItem.RemoveStepAsWrittenKeepsBlocks | src/steps/step-item.ts:244-269 | as written, the item leaves the document's items and none of its blocks come back: the top-level textblocks stay as they were unless the document was refilled |
| StepItem.RemoveStepAsWrittenLosesText | src/steps/step-item.ts:251 | on a one-item document the title and content vanish as written; as intended they are kept, in front of the paragraph that refills the emptied document |
| StepItem.JoinBackwardsIn | src/steps/step-item.ts:12-28 | joinListBackwards on a transaction does what JoinListBackwards states |
| StepItem.JoinForwardsIn | src/steps/step-item.ts:30-46 | joinListForwards on a transaction does what JoinListForwards states |
| StepItem.AddItemIn | src/steps/step-item.ts:177-188 | the insertion and the two join attempts on a transaction give AddItem's document |
| StepItem.WrapStepIn | src/steps/step-item.ts:170-191 | the wrapping insertion on a transaction, with the focus three tokens past the insertion point |
| StepItem.AddStepIn | src/steps/step-item.ts:170-191 | the insertion into a container on a transaction, with the focus two tokens past the insertion point |
| StepItem.InsertStepIn | src/steps/step-item.ts:124-199 | insertStep on a transaction returns and leaves what InsertStep states |
| StepItem.RemoveStepIn | src/steps/step-item.ts:201-270 | removeStep on a transaction returns and leaves what RemoveStep states |
| StepTitle.TrimStart | src/steps/step-title.ts:68 | strips exactly the leading white space |
| StepTitle.TrimEnd | src/steps/step-title.ts:68 | strips exactly the trailing white space |
| StepTitle.TrimBlank | src/steps/step-title.ts:68 | `trim()` gives "" exactly when every character is white space |
| StepTitle.FirstStepTest | src/steps/step-title.ts:66 | `stepItem.start === steps.start + 1` holds exactly for the first item |
| StepTitle.LastStepTest | src/steps/step-title.ts:85-87 | the isLastStep comparison holds exactly for the container's last item |
| StepTitle.TitleStartTest | src/steps/step-title.ts:67 | `$to` is at `stepTitle.start` exactly when it is at the start of the title's text |
| StepTitle.TitleEndTest | src/steps/step-title.ts:111-116 | `$to` is at endOfTitle exactly when it is at the end of the title's text, and endOfTitle + 3 is the start of the first content block's text |
| StepTitle.CutItem | src/steps/step-title.ts:121-123 | the cut keeps the title before the offset and the other content blocks |
| StepTitle.CutItemText | src/steps/step-title.ts:121-123 | the cut loses no text: the moved text heads the first content block, and a valid item stays valid |
| StepTitle.CutFocus | src/steps/step-title.ts:124 | after the cut, `startOfContent - (endOfTitle - $to.pos)` is the start of the first content block's text |
| StepTitle.ParagraphAfter | src/steps/step-title.ts:95-108 | the second phase always acts and, when it completes, sets a cursor |
| StepTitle.EnterPastStart | src/steps/step-title.ts:85-109 | past the first two branches the handler always acts, and when it completes it sets a cursor |
| StepTitle.EnterMoveOrCut | src/steps/step-title.ts:111-125 | the last two branches always return true and set a cursor |
| StepTitle.TitleEnter | src/steps/step-title.ts:42-130 | Enter passes the key on exactly when `$from` is not in a step title, and every outcome that acts sets a cursor |
| StepTitle.EnterInTitle | src/steps/step-title.ts:66-125 | once `$from` is in a title the handler never passes the key on, and every outcome that acts sets a cursor |
| StepTitle.EnterAbove | src/steps/step-title.ts:69-78 | at the start of the first title of a container that opens the document, an empty paragraph goes in front of it and the cursor is inside that paragraph; a container elsewhere is not modelled |
| StepTitle.EnterInsertsBefore | src/steps/step-title.ts:81-83 | at the start of a later non-blank title, an empty item goes in front of the current one |
| StepTitle.EnterRemoves | src/steps/step-title.ts:85-93 | past the first two branches, a blank last item is removed and the second phase runs on what that leaves |
| StepTitle.AfterRemovingOnly | src/steps/step-title.ts:96-99 | after removing a container's only item, no container holds the cursor and the handler returns false after the removal |
| StepTitle.ParagraphReplaces | src/steps/step-title.ts:101-108 | with an empty textblock right after the container, it becomes the new empty paragraph and the cursor goes into it |
| StepTitle.AfterRemovingLast | src/steps/step-title.ts:92-109 | removing a blank later last item hands its empty first block to the new paragraph, and the cursor goes into it |
| StepTitle.EnterToContent | src/steps/step-title.ts:116-118 | at the end of a non-empty title, Enter only moves the cursor to the start of the first content block |
| StepTitle.EnterSplits | src/steps/step-title.ts:121-125 | inside a title, Enter keeps the text before `$to`, moves the rest to the head of the content, loses no text, and puts the cursor at the content's start |
| StepTitle.CutOutcome | src/steps/step-title.ts:121-125 | the cut branch on its own states the same as EnterSplits |
| StepTitle.TitleEnterValid | src/steps/step-title.ts:42-130 | whatever Enter does to a valid document leaves it valid |
| StepTitle.TitleBackspace | src/steps/step-title.ts:132-153 | when Backspace acts, `$from` is in a title and the selection is collapsed, and the outcome is removeStep's: true, with a cursor set |
| StepTitle.TitleBackspaceActs | src/steps/step-title.ts:139-148 | Backspace acts exactly when the selection is collapsed at the start of a title's text, and then it is removeStep |
| StepTitle.TitleEnterIn | src/steps/step-title.ts:42-130 | the Enter handler on a transaction returns what TitleEnter states and leaves its document and cursor |
| StepTitle.EnterInTitleIn | src/steps/step-title.ts:66-83 | the first two branches on a transaction: the paragraph inserted at the document start with the cursor inside it, or insertStep before the current item, or else the later branches |
| StepTitle.EnterPastStartIn | src/steps/step-title.ts:85-109 | removeStep dispatched, then the second phase, on a transaction |
| StepTitle.ParagraphAfterIn | src/steps/step-title.ts:95-108 | the second phase on the state the removal left |
| StepTitle.EnterMoveOrCutIn | src/steps/step-title.ts:111-125 | the cursor move, or the cut then the cursor move, on a transaction |
| StepTitle.TitleBackspaceIn | src/steps/step-title.ts:132-153 | the Backspace handler on a transaction returns and leaves what TitleBackspace states |
| StepContent.ConcatAppend | src/steps/step-content.ts:61 | the text of two run lists side by side is their texts concatenated |
| StepContent.JoinBlocks | src/steps/step-content.ts:61 | a block join changes only the container that holds the blocks |
| StepContent.JoinBackward | src/steps/step-content.ts:61 | joinTextblockBackward acts exactly at the start of a content block, joining it to the block before it, or to the title for the content's first block; otherwise nothing changes |
| StepContent.JoinBackwardJoins | src/steps/step-content.ts:61 | a join keeps the blocks before the seam, appends the joined block's text to the previous block's, and leaves the cursor at the seam |
| StepContent.JoinTitleJoins | src/steps/step-content.ts:61 | a join at the start of the content's first block appends its text to the title, keeps the later blocks or refills the content with one empty paragraph, and leaves the cursor where the title's text ended |
| StepContent.JoinBackwardLands | src/steps/step-content.ts:61 | after a join the cursor is at the join point, in the same item |
| StepContent.JoinBackwardValid | src/steps/step-content.ts:61 | a join keeps a valid document valid |
| StepContent.JoinEmptyLast | src/steps/step-content.ts:57-61 | joining an empty last block only drops it |
| StepContent.EnterChain | src/steps/step-content.ts:61 | the chain always ends with a cursor set |
| StepContent.ContentEnter | src/steps/step-content.ts:36-62 | Enter passes the key on when `$from` is outside step content; when it acts it is the join-then-insertStep chain and sets a cursor |
| StepContent.ContentBackspace | src/steps/step-content.ts:64-85 | Backspace passes the key on when `$from` is outside step content; when it acts it returns true, leaves the document unchanged and sets a cursor |
| StepContent.EndOfContentIs | src/steps/step-content.ts:51 | `stepContent.pos + content.size` is the end of the text of the content's last block |
| StepContent.ContentEnterActs | src/steps/step-content.ts:44-57 | Enter acts exactly when `$from` is in a step's content and the anchor is in that content's last block, which is empty |
| StepContent.AtEmptyContentEnd | src/steps/step-content.ts:54-57 | the anchor is at endOfContent in an empty textblock exactly when it is in the content's empty last block |
| StepContent.ContentEnterJoins | src/steps/step-content.ts:59-61 | on a cursor below a non-empty block, the empty last block goes, a new empty step follows, the handler returns true, and the step's text is unchanged |
| StepContent.ContentEnterLoneBlock | src/steps/step-content.ts:59-61 | on a cursor in a content's only block, which is empty, the block folds into the title and the content becomes one empty paragraph; a new empty step follows, the handler returns true, and the step's text is unchanged |
| StepContent.JoinThenInsert | src/steps/step-content.ts:61 | the join and then insertStep at the seam add an empty step right after the current one |
| StepContent.DropEmptyKeepsText | src/steps/step-content.ts:57-61 | dropping an empty last block keeps the item's text |
| StepContent.InsertAfterReplaced | src/steps/step-content.ts:61 | insertStep after an item just replaced puts the new step right after it |
| StepContent.ContentEnterWithoutJoin | src/steps/step-content.ts:61 | with a range selected the join does nothing; the new step still follows the current one and the handler returns false |
| StepContent.ContentEnterValid | src/steps/step-content.ts:36-62 | whatever Enter does to a valid document leaves it valid |
| StepContent.ContentBackspaceActs | src/steps/step-content.ts:64-85 | Backspace acts exactly when `$to` is at the start of the content's first block, and then only moves the cursor to the end of the title |
| StepContent.AtContentStart | src/steps/step-content.ts:79-81 | `stepContent.start + 1` is the start of the first block's text, and `stepContent.start - 2` is the end of the title's text |
| StepContent.ContentEnterIn | src/steps/step-content.ts:36-62 | the Enter handler on a transaction returns and leaves what ContentEnter states |
| StepContent.ChainIn | src/steps/step-content.ts:61 | the join, then insertStep at the cursor it leaves, on a transaction |
| StepContent.ContentBackspaceIn | src/steps/step-content.ts:64-85 | the Backspace handler on a transaction returns and leaves what ContentBackspace states |
| StepsToggle.Selected | src/steps/steps.ts:75-83 | the filter keeps a subsequence of the container's items, and valid items stay valid |
| StepsToggle.CoveredIsInside | src/steps/steps.ts:75-83 | the intended filter keeps an item exactly when its whole extent lies inside the range |
| StepsToggle.SelectedRun | src/steps/steps.ts:75-83 | a filter that keeps exactly the items `a..b` selects exactly them, in order |
| StepsToggle.SelectedBetween | src/steps/steps.ts:75-83 | bounds at the boundaries before item `a` and after item `b - 1` select items `a..b` |
| StepsToggle.SelectedInside | src/steps/steps.ts:75-83 | bounds strictly inside one item select nothing |
| StepsToggle.SelectedAll | src/steps/steps.ts:75-83 | bounds around the whole container content select every item |
| StepsToggle.Preserve | src/steps/steps.ts:93-115 | the blocks preserved hold exactly the selected items' text, at least one block per item |
| StepsToggle.CollectPreserved | src/steps/steps.ts:93-115 | the loop collects, item by item, each item's heading (when it has a title) and then its content |
| StepsToggle.PreserveStep | src/steps/steps.ts:95-115 | each item adds its own removeStep blocks after those of the items before it |
| StepsToggle.ExtractText | src/steps/steps.ts:132-143 | a first paragraph or heading gives its first text run as the title and the rest as content; otherwise everything is content; no other text is lost |
| StepsToggle.Extract | src/steps/steps.ts:132-143 | the options never ask for `before`; the content is all the selected blocks or all but the first, and a non-empty title comes from a first paragraph or heading, which is then left out of the content |
| StepsToggle.NodeOrder | src/steps/steps.ts:62 | `$from` lies in a top-level node no later than `$to`'s |
| StepsToggle.ToggleSteps | src/steps/steps.ts:59-149 | with its filter as written: inside a container, whenever the command is modelled it returns true and sets a cursor |
| StepsToggle.ToggleStepsCorrected | src/steps/steps.ts:59-149 | with the intended filter: inside a container, whenever the command is modelled it returns true and sets a cursor |
| StepsToggle.FromProse | src/steps/steps.ts:131-148 | the prose branch is modelled exactly when the range holds only textblocks, and it returns true exactly when it sets a cursor |
| StepsToggle.FromList | src/steps/steps.ts:74-128 | the list branch never passes the key on, returns true with a cursor set whenever it is modelled, and is removeStep when no item is selected |
| StepsToggle.FromListCases | src/steps/steps.ts:86-127 | the list branch is modelled for no item selected, a run of items of one container, or a range of nodes from a container that opens the document |
| StepsToggle.FromListRemoves | src/steps/steps.ts:86-88 | with no item selected, the command is removeStep |
| StepsToggle.FromListUnwraps | src/steps/steps.ts:118-127 | with items of one container selected, they are deleted and their preserved blocks go in their place |
| StepsToggle.FromListReinstates | src/steps/steps.ts:118-127 | across nodes from a container that opens the document, the nodes are deleted and the preserved blocks go at the start |
| StepsToggle.Unwrap | src/steps/steps.ts:118-127 | putting blocks back in a container returns true with a cursor set and leaves the nodes before the container unchanged |
| StepsToggle.Reinstate | src/steps/steps.ts:118-127 | putting blocks back at the document start returns true with a cursor set; the blocks open the document, followed by the nodes after the deleted ones, or by the refill paragraph when every node was deleted |
| StepsToggle.UnwrapPlacement | src/steps/steps.ts:118-127 | the preserved blocks take the items' place between what is left of the container, and the cursor ends after the last block's text; when the only container loses every item, the blocks are followed by the refill paragraph |
| StepsToggle.ReplacedShape | src/steps/steps.ts:118-127 | the blocks stand between what is left of the container before and after them, followed by the refill paragraph when the only container loses every item |
| StepsToggle.UnwrapKeeps | src/steps/steps.ts:118-127 | putting blocks back keeps a valid document valid and removes exactly the selected items |
| StepsToggle.ReinstatePlacement | src/steps/steps.ts:118-127 | every node up to the selection's last is replaced by the preserved blocks, and the cursor ends after the last block's text |
| StepsToggle.ReinstateValid | src/steps/steps.ts:118-127 | putting blocks back at the document start keeps a valid document valid |
| StepsToggle.DeleteProseKeepsItems | src/steps/steps.ts:145-146 | deleting textblocks leaves the document's items as they were |
| StepsToggle.FromProseEffect | src/steps/steps.ts:131-148 | the selected textblocks become exactly one new item built from their title and content; no other textblock changes and the document stays valid |
| StepsToggle.ProseInsert | src/steps/steps.ts:145-148 | the prose branch is insertStep, with valid content, at the cursor the deletion leaves |
| StepsToggle.ProsePlacedBefore | src/steps/steps.ts:145-148 | before a textblock the new container takes the blocks' place; before a container the item is added after its first item |
| StepsToggle.ProsePlacedAfterText | src/steps/steps.ts:145-148 | blocks ending the document after a textblock give a container placed in front of that textblock |
| StepsToggle.ProsePlacedAfterList | src/steps/steps.ts:145-148 | blocks ending the document after a container give an item added at that container's end |
| StepsToggle.InsertAtListEnd | src/steps/step-item.ts:137-142 | at the end of a document ending with a container, insertStep adds the item after the container's last one |
| StepsToggle.ProsePlacedAlone | src/steps/steps.ts:145-148 | with every node selected, the new container goes before the empty paragraph that refills the document |
| StepsToggle.CoveredAcross | src/steps/steps.ts:75-83 | across items `a..b`, the intended filter keeps exactly those items |
| StepsToggle.ItemBounds | src/steps/steps.ts:75-83 | a range over items, shifted to be relative to the container's content, lies on those items' boundaries |
| StepsToggle.CoveredInside | src/steps/steps.ts:75-83 | inside one item the intended filter keeps nothing |
| StepsToggle.CoveredWhole | src/steps/steps.ts:75-83 | across top-level nodes from the container on, the intended filter keeps every item |
| StepsToggle.AsWrittenAcross | src/steps/steps.ts:75-83 | for a container that opens the document, the filter as written keeps exactly the items across the range |
| StepsToggle.AsWrittenInside | src/steps/steps.ts:75-83 | for a container that opens the document, the filter as written keeps nothing inside one item |
| StepsToggle.AsWrittenWhole | src/steps/steps.ts:75-83 | for a container that opens the document, the filter as written keeps every item across nodes |
| StepsToggle.CorrectedIsFromList | src/steps/steps.ts:74-128 | inside a container, the corrected command is the list branch with the intended filter |
| StepsToggle.ToggleIsFromList | src/steps/steps.ts:74-128 | inside a container, both versions run the list branch, each with its own filter |
| StepsToggle.ListInside | src/steps/steps.ts:86-88 | a range inside one item selects nothing, so the command is removeStep |
| StepsToggle.ListAcross | src/steps/steps.ts:90-127 | a range across items puts back exactly those items' blocks in their place |
| StepsToggle.FromListRun | src/steps/steps.ts:90-127 | the list branch on a run of items puts back those items' own blocks |
| StepsToggle.ListWhole | src/steps/steps.ts:90-127 | from a container that opens the document to a later node, every item's blocks replace the nodes |
| StepsToggle.ToggleInsideItem | src/steps/steps.ts:86-88 | a selection inside one item makes the corrected command removeStep |
| StepsToggle.ToggleAcrossItems | src/steps/steps.ts:90-127 | a selection across items of one container puts those items' blocks back where they were, in order |
| StepsToggle.ToggleEmptiesDocument | src/steps/steps.ts:90-127 | selecting every item of a container that is the document's only node leaves the items' blocks, then the empty paragraph that refills the emptied document |
| StepsToggle.AcrossItems | src/steps/steps.ts:62 | a depth-1 block range spans whole items from `$from`'s item to `$to`'s |
| StepsToggle.ToggleAcrossNodes | src/steps/steps.ts:118-127 | from a container that opens the document to a later node, every node up to the last is replaced by the container's blocks |
| StepsToggle.ToggleOutsideList | src/steps/steps.ts:131-148 | a selection starting outside every container covers whole top-level nodes, and both filters lead to the prose branch |
| StepsToggle.ToggleStepsActs | src/steps/steps.ts:62-63 | the command never passes the key on, since a block range always exists |
| StepsToggle.FiltersAgreeAtStart | src/steps/steps.ts:75-83 | for a container that opens the document, both filters keep the same items |
| StepsToggle.FiltersAgree | src/steps/steps.ts:75-83 | both filters agree on every shape of range that starts in a container opening the document |
| StepsToggle.AsWrittenAtStart | src/steps/steps.ts:59-149 | for a container that opens the document, the command as written and the corrected one agree |
| StepsToggle.DropLayout | src/steps/steps.ts:75-83 | the token positions of the counterexample document |
| StepsToggle.DropFilters | src/steps/steps.ts:80-81 | on the counterexample the filter as written keeps only the third item, and the corrected filter keeps the second and third |
| StepsToggle.AsWrittenDropsItem | src/steps/steps.ts:75-83 | the command as written deletes two items but puts back only the last one's blocks, so the title "x" is lost; the corrected command keeps it |
| StepsToggle.ToggleStepsValid | src/steps/steps.ts:59-149 | whenever the corrected command is modelled it returns true and leaves a valid document |
| StepsToggle.ToggleEmptyDocument | src/steps/steps.ts:131-148 | toggling an empty document gives one container with one untitled item holding an empty paragraph, then an empty paragraph |
| StepsToggle.ToggleOneParagraph | src/steps/steps.ts:136-140 | toggling a one-paragraph document makes its text the title of the new step |
| StepsToggle.ToggleBack | src/steps/steps.ts:86-88 | toggling again at the start of that title gives the title back as a level-2 heading, followed by the empty paragraphs |
| StepsToggle.FromProseIn | src/steps/steps.ts:131-148 | the prose branch on a transaction, with the item's parts taken before the blocks are deleted |
| StepsToggle.FromListIn | src/steps/steps.ts:74-128 | the list branch on a transaction |
| StepsToggle.UnwrapIn | src/steps/steps.ts:118-127 | the items deleted and the blocks inserted in their place, on a transaction |
| StepsToggle.ReinstateIn | src/steps/steps.ts:118-127 | the nodes deleted and the blocks inserted at the start, on a transaction |
| StepsToggle.ToggleStepsIn | src/steps/steps.ts:59-149 | the corrected command on a transaction returns true and leaves ToggleStepsCorrected's valid document |

## Left out

- Node selections and all-selections are not modelled. Every selection is a text selection, so a block range always exists and the `!range` guards never fire (Host.BlockRangeDefined).
- Every block is a textblock: paragraph, heading or another textblock. Atoms, images, nested lists and other container blocks are not modelled.
- Marks are not modelled. A textblock keeps only its text runs, which is enough to tell a block's first text node from its whole text.
- Editor state outside the document and the cursor is not modelled: dispatch, dry runs through `can()`, plugins and undo history. A command is modelled as if dispatched, and a chain as its steps applied in order.
- HTML parsing and rendering, the node options and attributes, and the Mod-Alt-s key binding are not modelled. The same goes for `console.error` logging in the catch blocks; only their `return false` is kept.
- The host's replace fitting is idealised by the three rules above. A deletion or insertion that the host would fit in some other way is not modelled.
- TitleEnter: when the first title of a container that does not open the document gets Enter at its start, the model is `Unmodelled`. The paragraph goes to `max(0, steps.start - 2)`, which lies inside the node before the container.
- ParagraphAfter: inserting into a non-empty textblock, or into a textblock that is neither a paragraph nor a heading, is `Unmodelled`. Those depend on the host splitting that block.
- EnterMoveOrCut: a `$to` outside the current title, past its end, is `Unmodelled`.
- ToggleSteps: a prose range that takes in a container is `Unmodelled`.
- ToggleSteps: in the list branch, the deletion and the insertion start at `range.start - 1`. For a depth-1 range that position is just before the container's opening token when the first item is selected, and otherwise inside the item before, ahead of its closing token. The model takes the deletion to remove exactly the selected items, and puts the blocks in their place, splitting the container there (rule 3).
- ToggleSteps: a depth-0 range from a container that does not open the document is `Unmodelled`, because `range.start - 1` falls inside the node before the container. A range of depth 2 or more for which the filter keeps items is `Unmodelled` too; only the filter as written can keep items there. Its deletion would start at the item's boundary and end inside the item.
- TitleEnter, TitleBackspace: both call removeStep as intended (StepItem.RemoveStep). With removeStep as written, Backspace would return false after the bare deletion is dispatched, and the host would go on to its own Backspace handling. Enter's blank-last-item branch would look the container up from a selection that removeStep never set. Neither is modelled.
- RemoveLoneEmptyStep: the extension's test at tests/step-item.test.ts:85-97 toggles an empty document, calls removeStep, and expects true and one paragraph. Here toggleSteps leaves a paragraph after the new container (StepsToggle.ToggleEmptyDocument). On that document removeStep as intended returns true and leaves two paragraphs, and as written returns false and leaves one (StepItem.RemoveStepAfterToggle). Neither matches the test, so the model follows the code.
- JoinBackward: at the start of a content's first block the join follows what the host's fitting does with two textblocks at different depths. The block's text is appended to the title, and a content left without blocks gets one empty paragraph. The block's type and marks are not kept.
- CutItem: the moved title text becomes a separate first text run of the first content block. The host would merge it with the block's first text node when their marks agree. A later `toggleSteps` that takes a block's first text node as a title can then see more text than the model does.
- RemoveStep: the join helpers are not run after the blocks are put back. At least one block is always put back, so those helpers could only join containers that were already adjacent before the command.
- ToggleSteps: the filter runs on the items of the container around `$from`, found by `findParentNode`. A `$from` in a nested container is not modelled, because the schema here has no nested lists.
- The duplicate copy of the content handlers under package/ is not part of this model.
- The extension's documentation says that removeStep on a container's only item deletes the container. The code deletes the item, and the host's fitting then removes the emptied container (rule 2). The model follows the code.

## Findings

| source | as written | input that shows it | evidently intended | confidence | as-written member | corrected member |
|---|---|---|---|---|---|---|
| src/steps/step-item.ts:251 | `schema.nodeFromJSON` gets an array of block JSON. It expects one node, so it throws, the error is caught and the command returns false. The deletion at line 246 is already in the dispatched transaction. | A document that is one container with the item `Step` / paragraph `x`, and the cursor in its title: the item is deleted and nothing is put back | The title as a level-2 heading, then the content blocks, inserted where the item was, in front of the paragraph that refills the emptied document | not executed | StepItem.RemoveStepAsWrittenLosesText | StepItem.RemoveStep |
| src/steps/steps.ts:80-81 | `findChildren` gives item positions relative to the container's content, but they are compared with the absolute `range.start - 1` and `range.end` | An empty paragraph, then a container of three items with titles "", "x", "". Select from the start of the second title to the start of the third: both items are deleted, but only the third item's blocks come back, so "x" is lost | Keep the items whose whole extent lies inside the range | not executed | StepsToggle.AsWrittenDropsItem | StepsToggle.ToggleStepsCorrected |
