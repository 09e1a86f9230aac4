# Verified models of the vendored libraries

The application itself is a thin layer over windowing and graphics libraries. The algorithms worth
proving are in the code it vendors, and this project models five pieces of it in Dafny and proves
what they promise. `dafny verify dfyconfig.toml` checks everything.

**Rectangle packer** (`imstb_rectpack.h`; Skyline, Placement, PackingRuns, RectOrder, RectPack).
The skyline is a value: heights column by column. `RectPack` is the code in its own form, nodes
relinked in place between an active and a free list, proved against that value. The packer is a
transition system, one step per rectangle, and every run keeps every box inside the target, disjoint
from all others and under the skyline, for both heuristics and any alignment. Bottom-left is the
least (y, x) over all integer positions, best-fit the best of its candidates and nowhere higher than
any position; a rectangle is refused only if no position has room or no node is free.

**Undo engine** (`imstb_textedit.h`; UndoLog, RedoSides, UndoRuns, UndoState, TextEdit). An undo or
redo record with its stored characters is an edit of the text. The two stacks of edits determine the
live contents of both buffers and all four pointers as long as the redo half is in order; otherwise the
redo half is modelled as it is. `UndoBuffers.UndoState` is the code on its two arrays, for every redo
half on which the code stays inside them. Every run of changes, redos and undos that find room keeps
the records of both stacks leading through exactly the texts really held (`UndoLog.RunFaithful`);
every run that stays inside the buffers and records its redos keeps those of the undo stack, with the
redo half in order or not (`UndoRuns.RunRewinds`).

**doctest internals** (`doctest.h`; Subcases, Wildcard, StripedCounter, SmallString, XmlEncode,
XmlLegal, XmlReport, XmlReadBack, XmlDocument). Re-running a test until every subcase leaf has been
entered once, the glob matcher with one backtracking point, the striped counter under interleavings,
the string with a small buffer, and the XML encoder, writer and reporter against a reference parser
with an element schema and a reader that builds up the document.

**Command line parser** (`argh.h`; Argh, ArghGrammar): the parser against the items a command line is
written as. **File watcher hand-off** (`FileWatch.hpp`; FileWatch): monitor, callback thread and
destroy as interleaved steps, with the lock and the condition variable.

Sizes are mathematical integers; the macros UNDOSTATECOUNT and UNDOCHARCOUNT, the lane count and all
packer dimensions are parameters. Ghost fields (the lists of nodes with their ranks, the stacks, the
history, block owners) stand beside the real fields and are tied to them by each class's `Valid`.

Where the code does not do what its comments say or what it is for, the code is followed:

- Lines 145-150 and 253-261 of the packer promise that quantised widths make the nodes suffice. The
  splice uses the width before quantisation, and the promise holds, for both heuristics, exactly when
  there is a node per column, or in a single row that ends early enough
  (`PackingRuns.NeverOutOfNodesIff`).
- An undo that has to discard redo records leaves a stale redo record, because line 1344 of the edit
  control moves to another slot after lines 1315-1317 have written the old one. For given positions
  and lengths a redo after it is right whatever the characters exactly under the condition of
  `RedoSides.RedoRightIff`, and for given characters exactly under that of `UndoLog.RedoSurvivesIff`.
  `UndoRuns.StaleRedo` is a run whose redo makes a text never held.
- The comment of line 1338, that the return after it is never taken, is right as long as the redo half
  is in order (`RedoSides.DiscardedOrderly`), and so is that of lines 1382-1383
  (`UndoRuns.RedoDeskIs`). Above a stale record both are wrong: in `UndoRuns.StuckUndo` an undo
  returns there, restores nothing and leaves every later undo without effect until the next change;
  in `UndoRuns.UnrecordedRedo` a redo finds no room and is not recorded. `RedoSides.GivesUpIff` and
  `UndoRuns.StaleUndoIff` say exactly when an undo gives up, `UndoRuns.RedoKeepsIff` exactly when a
  redo leaves the undo records right.
- A stale record can claim more characters than are stored for it. A discard at lines 1236-1239 then
  moves redo_char_point past the end of the buffer, and a redo reads past it at line 1412:
  `UndoRuns.OverrunUndo` is a run of five steps, typing and undoing only, after which neither is
  defined. `RedoSides.InBoundsIff` and `RedoSides.StaleRedoableIff` give the exact conditions for any
  half and any stale record, `UndoRuns.CrowdedUndoLeaves` those after an undo that had to discard.
- In insert mode lines 804-811 record one character in the place of one, but insert all that are
  handed over; undo is right exactly if that is one (`TextEditing.TextEdit.Overwrite`).
- `destroy` of the file watcher sets the flag and notifies without the lock, so its notification can
  come between the callback thread's test and its wait. `FileWatch.LostWakeUp` is a run after which
  its joins never return, `FileWatch.ShutdownIff` says exactly from which states that can happen.
- Line 4767 means to escape the control characters that are illegal in XML 1.0; vertical tab and form
  feed are let through (`XmlLegality.LegalIff`).
- `]]>` at the very start of a text is not escaped (`XmlEncoding.CdataEndIff`), and 0x800 in four
  bytes passes as UTF-8 (`XmlEncoding.AcceptedIff`).
- `find_min_y` overstates the waste for a probe that starts inside a node of height 0
  (`Skyline.WasteExactIff`).

## Model

| member | source | states |
|---|---|---|
| RectPack.Context.PackRects | third-party/imgui/imstb_rectpack.h:528-584 | One call takes one step of the run relation for each rectangle that is not empty, the highest first and the widest first among equally high ones; a refused one gets the marking coordinates and a placed one those of the box the step adds. The array comes back in its original order with every id, w and h unchanged, no two rectangles overlapping; a flag is non-zero exactly for an empty or a placed rectangle, and the result is 1 exactly when no flag is 0. |
| RectPack.Context.PackRectangle | third-party/imgui/imstb_rectpack.h:449-526 | Refuses a rectangle exactly when no node is free or no integer position leaves room; otherwise the box goes where the heuristic's definition says and the state takes one step of the run relation. |
| PackingRuns.StepMeans | third-party/imgui/imstb_rectpack.h:347-526 | A rectangle is refused, and nothing changes, exactly when no node is free or it would reach above the target wherever it stood; otherwise one box of its size is added, no position is lower, and among the equally low ones it is the leftmost for bottom-left, and for best-fit the one with the least waste, then the leftmost, of those with an edge on a node. |
| RectPack.Context.FindBestPos | third-party/imgui/imstb_rectpack.h:347-447 | The linked search returns a position satisfying the heuristic's definition over all positions, its height and the link into its node, or nothing only when no position has room. |
| RectPack.Context.FindMinY | third-party/imgui/imstb_rectpack.h:291-339 | The loop over the linked nodes returns the highest column under the probe and the reported waste. |
| RectPack.Context.Splice | third-party/imgui/imstb_rectpack.h:464-499 | Relinking nodes between the active and the free list changes the skyline to the spliced sequence, keeps both lists acyclic and disjoint, and loses no node. |
| RectPack.Context.InitTarget | third-party/imgui/imstb_rectpack.h:265-288 | The chained free nodes and the two extra nodes form the fresh state, with the quantised align and the default heuristic. |
| RectPack.Context.SetupAllowOutOfMem | third-party/imgui/imstb_rectpack.h:245-263 | Only align changes, to 1 or to the rounded-up quotient of width and node count; the packing stays sound. |
| PackingRuns.QuantisedAlignLeast | third-party/imgui/imstb_rectpack.h:254-261 | The quantised align is the least number that times the nodes is not below the width. |
| RectPack.Context.SetupHeuristic | third-party/imgui/imstb_rectpack.h:233-243 | Only the heuristic changes. |
| PackingRuns.RunSound | third-party/imgui/imstb_rectpack.h:449-584 | In every state of every run, for both heuristics and every alignment: boxes inside the target, pairwise disjoint, under the skyline; packed area at most width times height; nodes conserved. |
| PackingRuns.StepSound | third-party/imgui/imstb_rectpack.h:449-526 | Each step keeps the run invariant and adds at most one box, which lies inside the target. |
| PackingRuns.ChosenRests | third-party/imgui/imstb_rectpack.h:464-499 | Whatever the alignment, the box found rests on every column the splice raises, also where the raise goes past its right edge. |
| PackingRuns.NodesSuffice | third-party/imgui/imstb_rectpack.h:459-526 | With at least one node per column the free list is never empty when a placement is attempted. |
| PackingRuns.NeverOutOfNodesIff | third-party/imgui/imstb_rectpack.h:245-263 | For both heuristics and every height the promise that quantised widths make the nodes suffice holds exactly when there is a node per column, or when the target is a single row with no room for one more aligned width beside as many unit squares as there are nodes. |
| PackingRuns.OutOfNodes | third-party/imgui/imstb_rectpack.h:245-263 | The run of unit squares that breaks the promise, for both heuristics, every width above the number of nodes and both settings of align. |
| Placement.BottomLeftDecides | third-party/imgui/imstb_rectpack.h:365-389 | The bottom-left position has room if and only if any integer position does, so refusing it is complete. |
| Placement.SlideLeft | third-party/imgui/imstb_rectpack.h:365-389 | Sliding a rectangle left to the start of the node it is in never raises it. |
| Placement.NodePositionsSuffice | third-party/imgui/imstb_rectpack.h:365-389 | The first least height over node positions is the lexicographically least (y, x) over all integer positions. |
| Placement.BottomLeftUnique | third-party/imgui/imstb_rectpack.h:365-391 | There is only one bottom-left position. |
| Placement.ProbesSuffice | third-party/imgui/imstb_rectpack.h:365-441 | Best-fit's two loops pick the best left- or right-aligned position by height, waste and x; if they pick none, no integer position has room. |
| Placement.BestFitLowest | third-party/imgui/imstb_rectpack.h:365-441 | No integer position is lower than the one best-fit picks. |
| PackingRuns.RunArea | third-party/imgui/imstb_rectpack.h:449-526 | With align 1 the area under the skyline in every state of every run is the area of the boxes packed plus the gaps lost below each of them. |
| PackingRuns.ChosenArea | third-party/imgui/imstb_rectpack.h:464-499 | With align 1 each placement raises the area under the skyline by w*h plus the gap below, which is the waste find_min_y reports except for a best-fit position strictly inside a node of height 0. |
| Placement.PlacementArea | third-party/imgui/imstb_rectpack.h:464-499 | A splice that raises no more than the rectangle's own columns raises the area by w*h plus the gap below, which is the reported waste unless the position lies strictly inside a node of height 0. |
| Placement.InsertColumns | third-party/imgui/imstb_rectpack.h:464-499 | A splice raises exactly the columns from x to the raised end to the new top. |
| Placement.InsertArea | third-party/imgui/imstb_rectpack.h:464-499 | The area under the skyline grows by the gap below the new top over the raised columns. |
| Placement.InsertValid | third-party/imgui/imstb_rectpack.h:464-499 | A splice keeps the list starting at 0, strictly increasing, bounded in height and closed by the sentinel. |
| Placement.InsertSafe | third-party/imgui/imstb_rectpack.h:464-499 | A splice keeps every box inside, disjoint and under the skyline, and the packed area within the skyline's. |
| Placement.PackedAreaBounded | third-party/imgui/imstb_rectpack.h:464-499 | The boxes' areas sum to at most width times height. |
| Placement.Aligned | third-party/imgui/imstb_rectpack.h:353-356 | The least multiple of align that is not below the width. |
| Skyline.MinYIsHighest | third-party/imgui/imstb_rectpack.h:291-339 | The height returned is the maximum skyline height over the probe, wherever it starts in its node. |
| Skyline.WasteIsGap | third-party/imgui/imstb_rectpack.h:291-339 | For a probe starting at a node the waste is the gap under the returned height summed column by column. |
| Skyline.WasteExactIff | third-party/imgui/imstb_rectpack.h:315-332 | For probes starting at a given place in a node, the waste is exact whatever lies to the right if and only if that place is the node's x or its height is not zero; line 328 counts the whole node. |
| Skyline.SealedIsValid | third-party/imgui/imstb_rectpack.h:501-507 | The node-by-node check of the debug build and the global shape of the skyline are the same. |
| RectOrder.KeyedPermutation | third-party/imgui/imstb_rectpack.h:550-573 | Any permutation, so any sort, keeps was_packed naming each rectangle's original slot. |
| RectOrder.Unsorted | third-party/imgui/imstb_rectpack.h:539-544 | Sorting by was_packed puts every rectangle back where it came from. |
| RectOrder.OutcomesSettled | third-party/imgui/imstb_rectpack.h:558-570 | After the placing loop every rectangle is settled and no two placed ones overlap. |
| RectOrder.FlagMeans | third-party/imgui/imstb_rectpack.h:575-580 | The flag is non-zero exactly for empty and for placed rectangles. |
| RectOrder.QSort | third-party/imgui/imstb_rectpack.h:555-556 | What the packer may rely on of qsort: a permutation sorted by the comparator. |
| RectOrder.SetFlags | third-party/imgui/imstb_rectpack.h:575-583 | The flags tell placed from refused and the result is 1 exactly when no flag is 0. |
| UndoLog.RunFaithful | third-party/imgui/imstb_textedit.h:1200-1445 | In every state of every run of recorded changes, redos and undos that find room or make up for it, the undo records lead back through texts really held, the redo records forth, the stacks fit and redo has room. |
| UndoLog.RecordedFaithful | third-party/imgui/imstb_textedit.h:1259-1301 | A recorded change keeps the surviving history true: its newest record leads back to the text just left. |
| UndoLog.UndoneFaithful | third-party/imgui/imstb_textedit.h:1303-1369 | Undo restores the last text held and keeps both histories true. |
| UndoLog.RedoneFaithful | third-party/imgui/imstb_textedit.h:1371-1420 | Redo restores the next text and keeps both histories true; the room it needs is there. |
| UndoLog.UndoRedoInverse | third-party/imgui/imstb_textedit.h:1303-1420 | Undo and redo undo each other on sessions: the text, both stacks and both histories. |
| TextEditing.TextEdit.UndoThenRedo | third-party/imgui/imstb_textedit.h:1303-1420 | An undo that finds room, followed by a redo, gives back the text, all four pointers, the undo and redo records and the live characters of both halves. |
| UndoLog.InverseUndoes | third-party/imgui/imstb_textedit.h:1311-1317 | The inverse of an edit takes the text back, and its inverse is the edit. |
| UndoLog.KeptLongest | third-party/imgui/imstb_textedit.h:1264-1280 | A new record forgets only oldest records, and no more than the two capacities force. |
| UndoLog.PushedLongest | third-party/imgui/imstb_textedit.h:1259-1301 | A record whose characters fit into the empty buffer is always kept, on top of the longest end of the history that leaves a slot and the room for it; one whose characters do not takes the whole history with it. |
| UndoLog.ChangeThenUndo | third-party/imgui/imstb_textedit.h:1259-1369 | However full both buffers are, a change whose characters fit into the empty one can be undone at once: the text is the one just left. |
| UndoLog.RoomAfter | third-party/imgui/imstb_textedit.h:1319-1348 | The prefix-sum invariant that gives redo its room survives every undo whose redo record has the lengths it should. |
| UndoLog.RedoSurvivesIff | third-party/imgui/imstb_textedit.h:1303-1369 | After an undo from an orderly redo half redoing leads to the texts it should, with the room for it, if and only if the undo found room, or the stale record left by line 1344, given the characters just removed, makes the old text out of the new one. |
| RedoSides.RedoRightIff | third-party/imgui/imstb_textedit.h:1303-1369 | For given records, pointers, positions and lengths, with the redo half in order or stale: undo then redo gives the text back whatever the characters are if and only if the undo finds room, or neither gives up nor leaves the buffer and the topmost old record has exactly the position and both lengths of the record needed. |
| RedoSides.InBoundsIff | third-party/imgui/imstb_textedit.h:1229-1257 | The discarding loop stays inside the character buffer if and only if no record it comes to claims more characters than those after it have left, in stored lengths. |
| RedoSides.GivesUpIff | third-party/imgui/imstb_textedit.h:1336-1345 | When its discards stay inside the character buffer, the loop makes the room if and only if the lengths stored in the redo records leave no more than the characters allowed; otherwise it ends without records, which is the return of line 1340. |
| RedoSides.DiscardedOrderly | third-party/imgui/imstb_textedit.h:1336-1345 | On a redo half in order the loop stays inside the buffer and always makes the room: there the comment of line 1338 is right. |
| UndoLog.SparedLongest | third-party/imgui/imstb_textedit.h:1336-1345 | Of the redo records those redone first stay, as many as leave the room. |
| RedoSides.DiscardedStale | third-party/imgui/imstb_textedit.h:1336-1345 | With a stale record on top, in stored lengths: exactly when the loop stays inside the buffer and exactly when it makes the room. |
| RedoSides.SavedOrderly | third-party/imgui/imstb_textedit.h:1312-1352 | From a redo half in order an undo never gives up and stores the record and characters meant, except that the topmost record may carry the data of the old one. |
| RedoSides.StaleOrderlyIff | third-party/imgui/imstb_textedit.h:1344-1347 | A stale record agrees with the characters stored for it if and only if it claims as many. |
| RedoSides.StaleRedoableIff | third-party/imgui/imstb_textedit.h:1371-1416 | A stale record can be redone inside the text and the buffer if and only if it lies in the text and claims no more characters than the redo half holds. |
| UndoRuns.StaleUndoIff | third-party/imgui/imstb_textedit.h:1303-1345 | With a stale record on top: exactly when an undo stays inside the buffer, and exactly when it then gives up and leaves the text as it is. |
| UndoRuns.CrowdedUndoLeaves | third-party/imgui/imstb_textedit.h:1303-1369 | After an undo that had to discard redo records, from an orderly half: exactly when the next undo stays inside the buffer, exactly when it then gives up, and exactly when a redo stays inside text and buffer. |
| UndoRuns.OverrunUndo | third-party/imgui/imstb_textedit.h:1229-1257 | A run of three insertions and two undos after which neither another undo nor a redo stays inside the character buffer. |
| UndoRuns.StuckForGood | third-party/imgui/imstb_textedit.h:1339-1340 | An undo that has given up leaves the text as it is, and so does every undo after it. |
| UndoRuns.RunRewinds | third-party/imgui/imstb_textedit.h:1200-1445 | In every run of changes, undos and redos whose steps stay inside the buffers and whose redos are recorded, with the redo half in order or stale, both halves fit and the undo records lead back through texts really held. |
| UndoRuns.RedoKeepsIff | third-party/imgui/imstb_textedit.h:1385-1420 | After a redo the undo records lead back through the texts held if and only if there was room to record it, or it put in exactly what it took out. |
| UndoRuns.UndoDeskIs | third-party/imgui/imstb_textedit.h:1303-1369 | On an orderly redo half an undo never gives up and restores the text, and is the step of a history when it finds room. |
| UndoRuns.RedoDeskIs | third-party/imgui/imstb_textedit.h:1371-1420 | On an orderly redo half that leads through the right texts a redo is the step of a history and the branch of line 1394 is not taken. |
| UndoRuns.StaleRedo | third-party/imgui/imstb_textedit.h:1303-1420 | A run of two insertions and two undos after which redo makes a text never held. |
| UndoRuns.UnrecordedRedo | third-party/imgui/imstb_textedit.h:1371-1396 | A run of three changes and three undos after which redo takes the branch of line 1394 and changes the text, so that the undo that follows does not bring it back. |
| UndoRuns.StuckUndo | third-party/imgui/imstb_textedit.h:1336-1340 | A run of three insertions and three undos of which the third takes the return of line 1340. |
| UndoLog.LossyUndo | third-party/imgui/imstb_textedit.h:1330-1332 | Without space for the characters the redo record never gives the old text back. |
| UndoLog.LossyRedo | third-party/imgui/imstb_textedit.h:1324-1332 | After an undo without space for the characters, the redo gives the text without them, and the redo records below are all kept. |
| UndoLog.UndoTextAt | third-party/imgui/imstb_textedit.h:1203-1223 | Undo texts lie one after the other from 0 in record order, each at its char_storage. |
| UndoLog.RedoTextAt | third-party/imgui/imstb_textedit.h:1229-1257 | Redo texts lie against the end of the buffer, the next to redo first, each at its char_storage. |
| UndoBuffers.UndoState.FlushRedo | third-party/imgui/imstb_textedit.h:1200-1204 | Empties the redo stack and makes both sides consistent, whatever state the redo side was in. |
| UndoBuffers.UndoState.DiscardUndo | third-party/imgui/imstb_textedit.h:1207-1223 | Removes the oldest undo record; every surviving record keeps its text, and the redo side is untouched. |
| UndoBuffers.UndoState.DiscardRedo | third-party/imgui/imstb_textedit.h:1229-1257 | On a redo half, orderly or stale, whose furthest record claims no more characters than are stored: gives up that record and the characters it claims, moves the others, and leaves the topmost record's data in the slot given up. |
| UndoBuffers.UndoState.CreateUndoRecord | third-party/imgui/imstb_textedit.h:1259-1281 | Flushes redo and keeps the longest suffix of the undo stack that leaves room; the loop at 1277 ends because the texts sum to undo_char_point. |
| UndoBuffers.UndoState.CreateUndo | third-party/imgui/imstb_textedit.h:1283-1301 | The stack after the new record, and where its text is to be filled in. |
| UndoBuffers.UndoState.MakeUndoInsert | third-party/imgui/imstb_textedit.h:1422-1425 | The record that deletes the inserted characters is always pushed; only with all record slots in use does the oldest record go. |
| UndoBuffers.UndoState.MakeUndoReplace | third-party/imgui/imstb_textedit.h:1427-1445 | The record that puts the old characters back is pushed on the longest end of the history that leaves room for them (deletion is the case of no new ones); if they do not fit at all the history is empty. |
| UndoBuffers.UndoState.MakeRoom | third-party/imgui/imstb_textedit.h:1336-1343 | On a redo half, orderly or stale, on which the discards stay inside the buffer: discards until the characters fit, and gives up exactly when the stored lengths leave too many. |
| UndoBuffers.UndoState.StoreRedo | third-party/imgui/imstb_textedit.h:1312-1352 | As long as the discards stay inside the buffer: the redo record and its characters for all three cases of lines 1324-1328, the record that line 1344 leaves stale, and the return of line 1340; the undo half is untouched. |
| UndoBuffers.UndoState.StoreUndo | third-party/imgui/imstb_textedit.h:1379-1405 | For any redo record: the inverse as the new undo record with its characters, or the empty record of lines 1395-1396 exactly when they do not fit. |
| TextEditing.TextEdit.Undo | third-party/imgui/imstb_textedit.h:1303-1369 | As long as it stays inside the buffers, on an orderly or a stale redo half: does what the machine of undos does and restores the last text unless it gives up, which it never does from an orderly one; redo stays right exactly when RedoSurvives holds before. With room for the characters taken out (or none taken out) the text is the last one held, the record moves over as its inverse and all other records stay. |
| TextEditing.TextEdit.Redo | third-party/imgui/imstb_textedit.h:1371-1420 | As long as the topmost record lies in the text and the buffer, stale or not: carries it out with the characters found at its char_storage and records it; the undo records go on leading back exactly if there was room to record it or it changed nothing. When redoing can be trusted the text is the next one held and the record moves back as its inverse. |
| TextEditing.TextEdit.Clamp | third-party/imgui/imstb_textedit.h:615-627 | Brings both ends of the selection and the cursor down to the text's length, keeps the selection's direction, and moves the cursor if the selection collapses. |
| TextEditing.TextEdit.Delete | third-party/imgui/imstb_textedit.h:629-635 | The characters are gone, nothing can be redone, and, if they fit into the buffer, the text just left is what undo restores. |
| TextEditing.TextEdit.DeleteSelection | third-party/imgui/imstb_textedit.h:637-651 | Deletes the clamped selection as one recorded change, which undo takes back if its characters fit into the buffer, leaves the cursor at its start, or changes nothing but the cursor's clamping. |
| TextEditing.TextEdit.Cut | third-party/imgui/imstb_textedit.h:763-772 | Deletes the selection and tells whether there was one. |
| TextEditing.TextEdit.Paste | third-party/imgui/imstb_textedit.h:774-790 | The selection is replaced by the pasted text, as a deletion and an insertion: whatever the history, the next undo restores the text without the selection, and with two record slots the one after it the text before. |
| TextEditing.TextEdit.Text | third-party/imgui/imstb_textedit.h:796-821 | Typing replaces the selection, or overwrites in insert mode, or is ignored for a newline in a single line; whatever the history, the text just left is on top of it, below it the text before the selection went; undo leads back to it except when several characters overwrote one. |
| TextEditing.TextEdit.Overwrite | third-party/imgui/imstb_textedit.h:804-811 | One character gives way to what is typed and the text just left is recorded; its record leads back there exactly if a single character took the place of one. |
| TextEditing.TextEdit.ClearState | third-party/imgui/imstb_textedit.h:1447-1463 | A state with empty stacks and nothing selected. |
| Subcases.ContextState.RunTestCase | third-party/argh/doctest.h:6466-6510 | The re-run loop ends after as many runs as there are leaves, one if there are none; run n enters exactly the prefixes of the path of leaf n, in depth-first order; at the end every path is passed. |
| Subcases.ContextState.RunBody | third-party/argh/doctest.h:3739-3798 | With the first n leaves passed, one run enters the chain to leaf n, marks exactly what it completes, and asks for another run exactly if leaves are left. |
| Subcases.ContextState.Enter | third-party/argh/doctest.h:3751-3767 | Enters a subcase unless one was entered on its level or its path has been passed. |
| Subcases.ContextState.Leave | third-party/argh/doctest.h:3776-3781 | Marks the path as passed only if no subcase was skipped. |
| Subcases.ChainIsRootToLeaf | third-party/argh/doctest.h:3757-3767 | The paths entered in a run are the prefixes of one leaf's path. |
| Subcases.LeafEnteredOnce | third-party/argh/doctest.h:6466-6510 | A leaf is entered in its own run and in no other. |
| Subcases.LeafIff | third-party/argh/doctest.h:3739-3798 | The leaves are exactly the paths that no other path goes on from. |
| Subcases.RunsCountLeaves | third-party/argh/doctest.h:6466-6510 | The number of runs is the number of leaves, at least one. |
| Subcases.PrefixSplit | third-party/argh/doctest.h:3759-3764 | The passed set being a depth-first prefix decides whether a subcase is skipped, and is inherited by its children and siblings. |
| Wildcard.Wildcmp | third-party/argh/doctest.h:3681-3715 | Returns true exactly when the string matches the pattern under the recursive meaning of * and ?, in both case modes; the loops end. |
| Wildcard.MatchesIff | third-party/argh/doctest.h:3681-3715 | The meaning of a pattern without recursion: it matches exactly the strings that can be cut so that each star gets any piece, each question mark one character, and each other character one that is the same, up to the case of letters if asked for. |
| Wildcard.LastStarSuffices | third-party/argh/doctest.h:3694-3709 | Once the part between two stars has matched at its first place, no other place gives a match this one does not. |
| Wildcard.StarMeans | third-party/argh/doctest.h:3681-3715 | A star matches exactly if the rest of the pattern matches from some later place. |
| Wildcard.MatchesAny | third-party/argh/doctest.h:3726-3735 | True exactly for no filters when that counts as a match, or when some filter matches. |
| XmlEncoding.RoundTripIff | third-party/argh/doctest.h:4739-4831 | Decoding the four entities undoes the encoding, in either mode, exactly for the inputs of which no byte is hex-escaped. |
| XmlEncoding.DecodeEncode | third-party/argh/doctest.h:4739-4831 | Decoding the output gives the input with every escaped byte spelled out. |
| XmlEncoding.EncodeClean | third-party/argh/doctest.h:4739-4831 | The output consists of entities, plain characters and complete UTF-8 groups only. |
| XmlEncoding.CleanMeans | third-party/argh/doctest.h:4739-4831 | In such an output no raw < occurs, no raw quote in an attribute, every & begins an entity, and every byte above ASCII lies in a complete group (section 3 of RFC 3629). |
| XmlEncoding.CdataEndIff | third-party/argh/doctest.h:4749-4755 | The sequence ]]> reaches the output exactly when the input starts with it, because line 4751 compares the index with 2. |
| XmlLegality.UnchangedIff | third-party/argh/doctest.h:4739-4831 | A text comes out unchanged exactly if it is UTF-8 as accepted and holds no markup character, no end of a CDATA section past its start and no control character outside tab to carriage return. |
| XmlLegality.LegalIff | third-party/argh/doctest.h:4767-4772 | No character that XML 1.0 forbids below the space reaches the output exactly if the input has no vertical tab and no form feed, which the test of line 4769 lets through. |
| XmlLegality.EscapeMeans | third-party/argh/doctest.h:4724-4730 | An escape is \x and the two upper-case hexadecimal digits of the byte. |
| XmlEncoding.AcceptedIff | third-party/argh/doctest.h:4780-4821 | Bytes are written through exactly if they are a lead byte and, still within the input, as many continuation bytes as it announces, and are the shortest form of their value, or 0x800 in four bytes, which line 4815 lets pass. |
| XmlEncoding.EncodeTo | third-party/argh/doctest.h:4739-4831 | The loop computes the encoding the other results are about. |
| XmlEncoding.Masks | third-party/argh/doctest.h:4698-4722 | The bit masks of lead and continuation bytes decide trailingBytes, headerValue and the continuation test as the ranges and remainders used here. |
| XmlReporting.XmlReporter.ReportAll | third-party/argh/doctest.h:4977-5207 | Over every well-formed run of events the text stays well nested and obeys the element schema, unclosed starts equal m_tags, the text says what the events say, and nothing is open after test_run_end. |
| XmlReporting.XmlReporter.Report | third-party/argh/doctest.h:5072-5207 | Each event leaves exactly the elements open that its place in the run calls for and writes exactly its elements, attributes and texts. |
| XmlReporting.XmlReporter.TestCaseStartImpl | third-party/argh/doctest.h:5005-5035 | A test case opens in its suite; a change of suite closes the old one first. |
| XmlReporting.XmlReporter.OnTestCaseSkipped | third-party/argh/doctest.h:5201-5207 | A skipped case is written as an empty element of its suite, or not at all. |
| XmlReporting.XmlReporter.OnTestRunEnd | third-party/argh/doctest.h:5097-5114 | Closes the suite if one was opened, writes the results and closes the document. |
| XmlReporting.XmlReporter.OnLogAssert | third-party/argh/doctest.h:5157-5184 | A passing assertion is written only if asked for; otherwise with the parts its kind calls for. |
| XmlReporting.TestCasePlaced | third-party/argh/doctest.h:5017-5027 | In a text that obeys the schema every TestCase stands in a TestSuite in doctest. |
| XmlReadBack.SuitesGrouped | third-party/argh/doctest.h:5005-5035 | For every list of events a reader of the report gets back the cases written, started or skipped, grouped by runs of equal suite names: a TestSuite element opens exactly where the name changes, carries that name and holds exactly the cases up to the next change. |
| XmlReadBack.GroupedCounts | third-party/argh/doctest.h:5005-5035 | The groups read back hold exactly as many cases as were written. |
| XmlDocuments.ReportRead | third-party/argh/doctest.h:4977-5207 | For every list of events the document a reader builds up from the report, elements with decoded attributes, texts and children, is the one the events ask for. |
| XmlDocuments.AssertionRead | third-party/argh/doctest.h:5157-5184 | A passed assertion leaves no trace unless successes are reported; any other is read as one Expression: the Original is its expression, an Exception is there exactly if it threw, the expected type and text exactly for the kinds that expect them, the Expanded values exactly for a normal one that did not throw, then every context in order. |
| XmlDocuments.MessageRead | third-party/argh/doctest.h:5186-5199 | A message is read as one Message with its text and every context in order. |
| XmlDocuments.AttributesRead | third-party/argh/doctest.h:4907-4922 | Attributes with a name and a value are all read, in order and decoded. |
| XmlDocuments.DocumentShaped | third-party/argh/doctest.h:4977-5207 | In every well-formed run the elements a reader has open are those of the place in the run, so whatever is logged hangs in the case or subcase it was logged in, and after test_run_end the report is one complete doctest element. |
| XmlReporting.PrefixParses | third-party/argh/doctest.h:4876-4969 | Every prefix of a well nested text is well nested and obeys the schema if the text does, so nothing is repaired later. |
| XmlReporting.XmlWriter.StartElement | third-party/argh/doctest.h:4876-4884 | For any element name: closes an open start tag, breaks the line if text was written, indents by two blanks for each open element and opens the element; the text obeys the schema as before exactly if the name is allowed there. |
| XmlReporting.XmlWriter.EndElement | third-party/argh/doctest.h:4892-4905 | Closes the innermost element: as an empty tag if its start tag is still open, else with an indented end tag. |
| XmlReporting.XmlWriter.WriteAttribute | third-party/argh/doctest.h:4907-4922 | Writes the encoded attribute into the open tag, unless name or value is empty. |
| XmlReporting.XmlWriter.WriteText | third-party/argh/doctest.h:4924-4934 | Unless the text is empty: closes an open start tag, indents if asked to and one was open, and writes the encoded text. |
| SmallString.Pool.Construct | third-party/argh/doctest.h:3246-3260 | Over any sequence of the pool's operations texts are what plain sequences would be, every heap block has exactly one owner, and a block is freed only while allocated. |
| SmallString.Pool.Copy | third-party/argh/doctest.h:3262 | A copy has the same text and a block of its own; the other strings keep theirs. |
| SmallString.Pool.Assign | third-party/argh/doctest.h:3264-3273 | Assignment, also of a string to itself, copies the text and frees the old block once. |
| SmallString.Pool.Move | third-party/argh/doctest.h:3329-3334 | A move hands over text and block and leaves the source empty. |
| SmallString.Pool.MoveAssign | third-party/argh/doctest.h:3336-3346 | A move assignment, also of a string to itself, frees the old block, takes over the other and leaves the source empty. |
| SmallString.Pool.Append | third-party/argh/doctest.h:3275-3325 | Appending another string concatenates the texts and changes no other string. |
| SmallString.Pool.Destroy | third-party/argh/doctest.h:3237-3241 | The end of a string frees its block and leaves the others alone. |
| SmallString.String.AppendTail | third-party/argh/doctest.h:3275-3325 | All four ways of finding room give the concatenation: in the object exactly if it still fits, in the same block if that has room, else in a new block of at least twice the capacity. |
| SmallString.String.Resize | third-party/argh/doctest.h:3304-3314 | The new block has twice the capacity, or what is needed if that is more, and holds the old text; the old block is released. |
| SmallString.String.CStr | third-party/argh/doctest.h:517-521 | The characters with the terminator, from the object or from the block. |
| StripedCounter.LoadBetweenTotals | third-party/argh/doctest.h:3083-3089 | Under any interleaving of non-negative additions by any number of threads a load returns a value between the true total at its start and at its end, exactly the total if nothing was added. |
| StripedCounter.StepKeeps | third-party/argh/doctest.h:3073-3089 | Every step keeps every load under way between the lanes then and the lanes now. |
| StripedCounter.NoAddLost | third-party/argh/doctest.h:3073-3089 | In every interleaving the total is that of the beginning and all that was added since: no addition is lost or made twice. |
| StripedCounter.LoadCountsAdds | third-party/argh/doctest.h:3073-3089 | A load counts everything added before it began and nothing added after it ended. |
| StripedCounter.OwnLane | third-party/argh/doctest.h:3117-3123 | A thread keeps the lane it once got, and what it adds goes there and nowhere else. |
| StripedCounter.LoadAlone | third-party/argh/doctest.h:3083-3089 | A load can be carried out from any state, and undisturbed it gives the total. |
| StripedCounter.LanesApart | third-party/argh/doctest.h:3117-3123 | Threads that come to the counter within one round get different lanes. |
| StripedCounter.MultiLaneAtomic.FetchAdd | third-party/argh/doctest.h:3073-3075 | Adds to one lane and so to the total; the value returned is that lane's alone. |
| StripedCounter.MultiLaneAtomic.Load | third-party/argh/doctest.h:3083-3089 | Undisturbed, the load is the total. |
| StripedCounter.MultiLaneAtomic.Store | third-party/argh/doctest.h:3096-3102 | After a store the first lane holds the value and all others 0, so the total is the value stored. |
| Argh.RoundTripIff | third-party/argh/argh.h:174-266 | Parsing a rendered command line gives back positionals in order, parameters and flags in every mode that splits on equal signs; without the split, exactly if there are no parameters. |
| ArghGrammar.ParseWritten | third-party/argh/argh.h:174-266 | Parsing a command line written as items (words, --key=value, --flag, --name value, groups of letters, groups with a value for the last letter, with any number of dashes) gives back the words in order, for every name the first value written for it, and every flag as often as it was written, in every mode and for any registered names. |
| ArghGrammar.EveryLineWritten | third-party/argh/argh.h:174-266 | Every command line can be written as such items, in every mode and with any registered names. |
| ArghGrammar.ParseMeans | third-party/argh/argh.h:174-266 | So for any command line the positionals, parameters and flags are what its items say. |
| Argh.Partition | third-party/argh/argh.h:186-265 | For any input and mode every argument index is consumed exactly once, in order. |
| Argh.Parser.Parse | third-party/argh/argh.h:174-266 | The loop computes what the uses of the arguments amount to, whatever an earlier parse left behind. |
| Argh.Parser.ParseSwitch | third-party/argh/argh.h:206-264 | Multi-flags, the look-ahead and registered parameters decide what an option is used for and whether it takes the next argument. |
| Argh.Parser.AddParam | third-party/argh/argh.h:427-430 | Registers the name without its dashes. |
| Argh.Parser.FoundWithDashes | third-party/argh/argh.h:308-351 | A flag or parameter is found under its name with or without dashes. |
| Argh.TrimMeans | third-party/argh/argh.h:300-304 | Trimming removes dashes only, and all of them unless there is nothing else. |
| Argh.MapOfHas | third-party/argh/argh.h:199-203 | With distinct keys the parameter map is the list of parameters. |
| Argh.FirstCounts | third-party/argh/argh.h:199-203 | The parameter map holds the names of the list, each with the first value given for it. |
| FileWatch.DeliveredIsPrefix | third-party/filewatch/FileWatch.hpp:1217-1240 | In every interleaving the events called back are a prefix of the events appended; what is missing is in hand or in the queue, and once the callback thread has stopped only what was still queued. |
| FileWatch.StepKeeps | third-party/filewatch/FileWatch.hpp:651-656 | Every step keeps the logs, the batch in hand and the queue in agreement, the lock with at most one thread, and the callback thread asleep on events only if the monitor is still going to notify it. |
| FileWatch.NothingLost | third-party/filewatch/FileWatch.hpp:620-656 | In every reachable state the events read are, in order, those called back, those in hand, those in the queue and those the monitor still holds. |
| FileWatch.AtRestIff | third-party/filewatch/FileWatch.hpp:1217-1240 | The threads never block each other: one of them has a step unless they are idle, stopped, or the callback thread sleeps with nobody left to wake it. |
| FileWatch.InnerRunEnds | third-party/filewatch/FileWatch.hpp:1217-1240 | Left to themselves the threads come to rest after boundedly many steps. |
| FileWatch.Drains | third-party/filewatch/FileWatch.hpp:1217-1240 | Before a destroy, wherever the threads come to rest, every event read has been called back, in the order they were read. |
| FileWatch.ShutdownIff | third-party/filewatch/FileWatch.hpp:362-379 | After a destroy the threads come to rest only stopped or hanging, and can hang exactly if the callback thread had found the flag clear and is not asleep yet, or is asleep and destroy has notified, and the monitor is past its last notification. |
| FileWatch.LostWakeUp | third-party/filewatch/FileWatch.hpp:362-379 | A run that ends with destroy's joins waiting for ever: the flag is set between the test of the condition and the wait, because destroy does not take the lock. |

## Left out

- The code under `src/`, the ImGuizmo family, ImGui itself and the other vendored headers: input and output over libraries, or drawing.
- Machine-integer overflow, everywhere; the packer's height is assumed below 2^30, the height of its sentinel.
- PackingRuns.NeverOutOfNodesIff: for align 1 or quantised, the two values the setup functions give it.
- RectOrder.QSort: any sorted permutation may be relied on; the body is an insertion sort, not the C library's.
- RectPack.Context.InitTarget: takes the caller's nodes as a sequence of distinct node objects instead of an array of structures.
- The search and the splice of the packer are split into several methods; the order of their steps is the source's.
- RectPack.Context.PackRects: sides are assumed not negative, as the comparators and the skip of empty rectangles do.
- Texts of the edit model are sequences of characters whose insertion always inserts everything; UTF-8 indices, row layout, clicks, drags and the movement keys are not modelled.
- TextEditing.TextEdit.Undo: only if the newest undo record lies in the text and making room stays inside the character buffer; an orderly redo half guarantees it, a stale one need not (`UndoRuns.OverrunUndo`), and then the source's behaviour is undefined.
- UndoBuffers.UndoState.DiscardRedo: only if the furthest record claims no more characters than are stored, for the same reason.
- UndoBuffers.UndoState.MakeRoom: only if its discards stay inside the character buffer, for the same reason.
- UndoBuffers.UndoState.StoreRedo: only if its discards stay inside the character buffer, for the same reason.
- TextEditing.TextEdit.Redo: only if the topmost redo record lies in the text and its characters in the buffer; a stale record need not (`UndoRuns.OverrunUndo`), and then the source's behaviour is undefined.
- UndoRuns.RunRewinds: only runs whose undos and redos stay inside the buffers, as above, and whose redos satisfy the condition of `UndoRuns.RedoKeepsIff`, without which the claim is false.
- Subcases: filters, exceptions and aborts; a body is a finite tree of subcases with distinct signatures among siblings.
- Wildcard.Wildcmp: tolower is that of the C locale.
- XmlReporting.XmlReporter.ReportAll: numbers and enumerations arrive as their texts, which attributes an element carries is the event's business, a run has one test_run_start, and report_query, locking and the stream are not modelled.
- XmlEncoding.EncodeTo: the stream flags that the hex escape saves and restores.
- SmallString.Pool.Append: not a string to itself (its memcpy would overlap); the sum operator and the comparisons are not modelled.
- StripedCounter.LoadBetweenTotals: fetch_sub and store do not interleave with a load; memory orders other than sequential consistency are not modelled.
- Argh.RoundTripIff: is_number is any predicate that is false on texts starting with two dashes; stream conversion of values and the list forms of the accessors are not modelled.
- Argh.Parser.Parse: an empty argument, against which the source asserts, counts as no option.
- ArghGrammar.ParseWritten: is_number is any predicate on texts; stream conversion of values is not modelled.
- FileWatch.DeliveredIsPrefix: the threads are a state machine whose steps are the critical sections' parts and destroy is called once; a read that fails, a missing callback, exceptions in it, the Windows and macOS monitors, path and descriptor calls and filtering are not modelled.
- FileWatch.InnerRunEnds: that a thread with a step takes it at some time is the scheduler's business; wake-ups without a notification are possible steps that progress does not count on.
