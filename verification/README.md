# BlockBlast puzzle engine in Dafny

A model of the puzzle engine of the BlockBlast browser game (`BlockBlastGame`
in game.js) and of the grid and block-list logic of its level editor
(`LevelEditor` in editor.js). Rounds are played on an 8x8 grid whose cells
are `null`, a wall, or a colour. The player drops catalog blocks (0/1
matrices) from a dock. In endless mode full rows and columns are cleared for
a quadratic bonus and the three-slot dock is refilled once it is empty. In
stage mode a fixed layout of walls and targets is covered by a scripted
sequence of blocks. The editor paints targets and walls, collects block keys,
and exports a stage record that the game can seed a round from.

The model is functional. Every state is an immutable datatype and every
operation is a pure function or a loop-based method:

- `Board`: cells and grid.
- `Shapes`: the catalog.
- `Placing`: `isValidPlacement` and the commit of a drop.
- `Lines`: `checkLines`.
- `Round`: reset, dock, targets, status and `placeBlock`.
- `RoundFacts`: what one drop does.
- `PlaceBlockOrder`: the source's step order against the corrected one, and its two defects.
- `Editor`: the level editor.

`Math.random` outcomes are passed in as `Draw(shape, colour)` values, and
colours are indices into the seven-entry `COLORS` list. Deferred calls
(`setTimeout`) take effect at once, in the order the model states.

The main `Round.PlaceBlock` settles a drop in this order:

1. Clear lines (endless) or recount targets (stage).
2. Refill an emptied endless dock.
3. A cleared stage is won.
4. Otherwise the round is lost when `checkGameStatus` finds it over.

This order is what the round is evidently meant to report. The source runs
its steps in a different order, with the two consequences listed under
Findings; on every other drop the two orders agree
(`PlaceBlockOrder.AsWrittenAgreesElsewhere`). `Round.PlaceBlockAsWritten`
keeps the source's order.

The best score is recorded only when the game-over modal opens
(game.js:423-426), not on every score increase, and `Round.RecordBest` does
the same.

## Model

| member | source | states |
|---|---|---|
| Shapes.Catalog | game.js:49-55 | the catalog has 16 entries with pairwise distinct keys, listed in the order `Object.keys` yields them |
| Shapes.CatalogWellShaped | game.js:49-55 | every catalog matrix is a non-empty rectangle of at most 4x4 entries, each 0 or 1, covering one to four cells |
| Shapes.CatalogShapeSmall | game.js:49-55 | every row of a catalog shape has one to four entries, and the shape covers one to four cells |
| Shapes.Lookup | game.js:186 | `this.shapes[key]` yields a matrix exactly when the key is a catalog key, and then it is the matrix stored under that key |
| Placing.Placement | game.js:282-296 | a drop is accepted exactly when every 1 entry lands on an in-bounds `null` cell. The cell list then holds exactly the offset positions of the 1 entries, in row-major order, without duplicates, one per 1 entry |
| Placing.IsValidPlacement | game.js:282-296 | the early-exit double loop answers true exactly when the drop fits, and its cell list is the one `Placement` describes |
| Placing.FitsIffFootprintFree | game.js:284-292 | "fits" (every covered cell free) is equivalent to every cell of the row-major footprint being free |
| Placing.RowMajorDistinct | game.js:284-290 | a strictly row-major cell list has no repeated cell |
| Placing.PlaceCells | game.js:314-315 | the listed cells take the block's colour and every other cell keeps its value |
| Placing.PlaceThenBlocked | game.js:313-324 | after the fill step of a drop (before `checkLines` and the refill) none of its cells is free, so the same block at the same origin is refused. A whole endless drop may clear those cells again |
| Lines.FullRowsFrom | game.js:351 | a row index is listed exactly when none of that row's cells is `null` (walls count as occupied), in ascending order |
| Lines.FullColsFrom | game.js:352-356 | a column index is listed exactly when none of that column's cells is `null`, in ascending order |
| Lines.CheckLines | game.js:349-371 | with n full lines the score grows by 10·n², and every cell of a full row or column becomes `null`, walls included. All other cells are untouched. With no full line the grid and score are unchanged |
| Lines.NoFullLineAfterCheck | game.js:357-368 | after `checkLines` no row or column is full |
| Lines.ClearedRowNotFull | game.js:357-368 | once every full line is emptied, no row is full: a full row lost all its cells, any other row kept a `null` cell |
| Lines.ClearedColNotFull | game.js:357-368 | likewise no column is full |
| Lines.CheckLinesIdempotent | game.js:349-371 | a second `checkLines` right after the first changes neither grid nor score |
| Lines.CheckLinesKeepsNoWalls | game.js:364-368 | clearing never creates a wall |
| Lines.SimultaneousClearPaysMore | game.js:358-359 | clearing a+b lines at once pays 20·a·b more than clearing a and then b, so more whenever both are positive |
| Round.StageDock | game.js:175-178 | slot i of a stage dock holds the block named by the i-th queued key, with the i-th drawn colour |
| Round.SpawnBlocks | game.js:164-173 | a fresh dock has 3 slots in endless mode and one slot per stage block otherwise, and every slot holds a catalog block with a valid colour |
| Round.NewRound | game.js:126-143 | a reset round keeps the invariant and scores 0. A cell is a wall exactly when the stage layout holds 0 there (never in endless mode), every other cell is `null`, and the dock is full. A reset round is never lost, and it is won at once exactly when the stage has no target |
| Round.NoTargetsLeftIffCovered | game.js:373-381 | the remaining-target count is 0 exactly when every layout-1 cell holds a wall or a colour |
| Round.CountRemainingTargets | game.js:375-379 | the counting loop returns the number of layout-1 cells that are still `null` |
| Round.HasLegalMove | game.js:395-402 | the early-exit search answers true exactly when some pending block fits at some origin of the grid |
| Round.RecordBest | game.js:423-426 | in endless mode the best becomes the larger of the best and the score; a stage never changes it |
| Round.GoToNextStage | game.js:75-78 | the next-stage button starts stage idx+1 (at most stage 10) exactly when idx < 10, and leads to the menu otherwise |
| Round.PlaceBlock | game.js:256-262 | a drop from an empty or missing slot is refused as `InvalidSlot`, one that does not fit as `InvalidPlacement`, and every other drop is accepted |
| Round.PlaceBlockAsWritten | game.js:330-333 | the source's order accepts exactly the same drops |
| RoundFacts.PlacedCells | game.js:313-315 | the fill step of a drop (before `checkLines` and the refill) changes exactly the cells the shape covers at the drop offset. Those cells were `null` and now hold the block's colour |
| RoundFacts.PlacedKeepsWalls | game.js:313-324 | the fill step of a drop (before `checkLines` and the refill) keeps the walls, adds one point per covered cell and empties the used slot |
| RoundFacts.ResolveClears | game.js:330 | in endless mode the follow-up step empties exactly the cells on full lines |
| RoundFacts.PlaceBlockKeepsValid | game.js:313-333 | an accepted drop keeps the round invariant: an 8x8 grid whose walls are the stage's, and a dock of the mode's size holding catalog blocks |
| RoundFacts.PlaceBlockScore | game.js:322-359 | a drop scores one point per covered cell, plus in endless mode 10·n² for the n lines it completed |
| RoundFacts.StageDropGrid | game.js:330-331 | in stage mode nothing is cleared; the board differs from before exactly in the covered cells |
| RoundFacts.EndlessDropGrid | game.js:349-368 | in endless mode the covered cells are filled first, then every cell on a row or column that became full is emptied |
| RoundFacts.PlaceBlockDock | game.js:324-332 | the used slot becomes `null`. A stage dock is never refilled, and an endless dock is refilled from the draws exactly when its last block was used |
| RoundFacts.SettleOutcome | game.js:384-403 | a settled round in play is won exactly when its stage is cleared. Otherwise it is lost exactly when `checkGameStatus` finds it over, and only a loss touches the best score |
| RoundFacts.StageOutcome | game.js:373-403 | a stage drop wins exactly when no target is left. It loses exactly when targets are left and the dock is empty or stuck. The best score is untouched |
| RoundFacts.EndlessOutcome | game.js:384-426 | an endless round is never won, and its dock is never empty after a drop. The drop loses exactly when no block of the refilled dock fits anywhere, and then the best becomes the larger of best and score |
| RoundFacts.FillRemovesCovered | game.js:376-378 | filling the covered cells removes exactly the covered targets from the remaining ones |
| RoundFacts.StageTargetsShrink | game.js:373-381 | a stage drop removes exactly the targets its shape covers, so the count never grows |
| RoundFacts.FreshEndlessCanMove | game.js:126-143 | a fresh endless round always has a legal move: every catalog block fits in the corner of an empty grid |
| RoundFacts.SaturatedIsStuck | game.js:395-403 | on a board without a `null` cell no catalog block fits anywhere |
| PlaceBlockOrder.AsWrittenSameBoard | game.js:330-333 | the source's order and the corrected order leave the same grid, score and dock; they differ only in status and best score |
| PlaceBlockOrder.AsWrittenAgreesElsewhere | game.js:330-333 | the source's order and the corrected order give the same round, status and best score included, for every drop except an endless drop that empties the dock and a stage drop that clears the stage while no remaining block fits |
| PlaceBlockOrder.AsWrittenEmptiedDockNeverLoses | game.js:332-333 | as written, a drop that uses the last endless block never changes the status or the best score |
| PlaceBlockOrder.RefillHidesGameOver | game.js:332-333 | as written, the checkerboard drop leaves a refilled dock in which no block fits, and the round is still in play |
| PlaceBlockOrder.RefilledStuckIsLost | game.js:384-403 | the corrected order reports that same drop as lost |
| PlaceBlockOrder.AsWrittenStuckBeatsWin | game.js:381-403 | as written, a stage drop after which the round is over is reported lost, whether or not it cleared the stage |
| PlaceBlockOrder.LastCellDropFills | game.js:313-381 | in a stage whose only `null` cell is (r, c), a single dropped there leaves no `null` cell and no target, and the other slots keep their blocks |
| PlaceBlockOrder.FilledStageVerdicts | game.js:381-403 | a stage drop that covers the last target, leaves no `null` cell and leaves a block waiting is reported lost as written and won in the corrected order |
| PlaceBlockOrder.WinOverridden | game.js:381-422 | as written, covering the only target of the corner stage while a block is left is reported lost. The corrected order reports it won |
| Editor.InitialSketch | editor.js:7-8 | a new editor has every cell blank and no block selected |
| Editor.ToggleCell | editor.js:66-71 | a click changes only the clicked cell, always to a different mark, and never the selected keys |
| Editor.ToggleThriceRestores | editor.js:66-71 | three clicks on one cell restore the editor |
| Editor.TogglesCommute | editor.js:66-71 | clicks on two cells give the same editor in either order |
| Editor.AddBlock | editor.js:107-110 | adding a key appends it after the existing keys, which stay as they were, and leaves the grid alone |
| Editor.RemoveBlockAt | editor.js:120-122 | a click on item i removes exactly that key: the keys before it keep their places, the keys after it move up one, and the multiset loses exactly that key. An index past the end changes nothing |
| Editor.AddThenRemove | editor.js:107-122 | removing the key just added restores the editor |
| Editor.RemoveThenReinsert | editor.js:120-122 | putting the removed key back at its index restores the list |
| Editor.ClearBlocks | editor.js:25-27 | the clear button empties the list and leaves the grid alone |
| Editor.BlockEditsKeepKeysKnown | editor.js:79-110 | with only palette (catalog) keys added, every block edit keeps all selected keys in the catalog |
| Editor.Export | editor.js:169-175 | the export is titled "CUSTOM STAGE" and keeps the 8x8 shape. A cell exports as 1 exactly when it is a target and as 0 otherwise, and the block list is the selected keys in order |
| Editor.ExportSeesOnlyTargets | editor.js:169 | two editors export the same stage exactly when they agree on targets and on the selected keys; blank and wall are indistinguishable |
| Editor.PlayExported | editor.js:169-175 | playing an exported stage makes a cell a wall exactly when it was not a target, and leaves every target open. The remaining targets are exactly the editor's targets, the dock holds the selected blocks in order, and the round opens won exactly when there is no target |

## Left out

- Rendering, CSS classes, modals and menus (`renderGrid`, `renderDockBlock`, `renderPalette`, `renderSelectedBlocks`, `showMenu`, `showWin`, the other show and hide methods): presentation only. The modal that ends a round is the `status` field.
- Drag and hover input (`onStart`, `onMove`, `initDrag`, `updateDragPosition`, `checkHover`, `animateReturn`): pixel arithmetic. The slot and the drop origin are parameters of `PlaceBlock`, and a refused drop is the `Err` result.
- `setTimeout`: deferred calls take effect immediately, in the order stated above.
- `Math.random`, `Date.now` and block ids: draws are parameters, and ids are not modelled.
- `localStorage`, `navigator.clipboard`, `alert` and the JSON text of `exportJSON`: browser I/O. `Export` yields the stage record before serialisation, and the stored best score is the `best` field.
- Code.js and server.py: spreadsheet and file-saving back ends, I/O only.
- The `STAGES` catalog (stages.js is not part of this model): a stage is an input record, and `StartStage` receives the record stored under its index.
- Colours are indices into `COLORS`, not colour strings.
- Round.ValidStage: stage records that name a key outside the catalog are outside the model. For such a key the source stores `shape: undefined` (game.js:186), and `renderDockBlock` then throws (game.js:200). That aborts `resetGame` before `updateStageTarget`, an error path the model does not follow.
- The editor's `this.shapes` fallback to `window.game.shapes`: the editor uses the game's catalog directly.
- Round.PlaceBlock: does not refuse drops after the round has ended. In the source the modal covers the board, so `RoundFacts.StageOutcome` and `RoundFacts.EndlessOutcome` describe rounds in play only.
- Round.PlaceBlockAsWritten: its own contract states only which drops are accepted. Its status and best score are stated by the lemmas of `PlaceBlockOrder`: `PlaceBlockOrder.AsWrittenAgreesElsewhere` shows it equals `Round.PlaceBlock` on every drop outside the two cases under Findings, so `RoundFacts.StageOutcome` and `RoundFacts.EndlessOutcome` describe the source's order there too.

## Findings

| source | as written | input that shows it | evidently intended | confidence | as-written member | corrected member |
|---|---|---|---|---|---|---|
| game.js:332-333 | In endless mode, `checkGameStatus` runs synchronously while the emptied dock waits for its deferred refill. It sees no pending block and reports nothing, and the refilled dock is never checked. A refill with no legal move leaves the round in play, and the best score is not recorded | an endless round on a board whose even-sum cells are filled, with one `single` left, dropped on (0, 1); the refill draws three `square`s | the round ends as lost when the refilled dock has no legal move, and the best score is recorded | medium; not executed | PlaceBlockOrder.RefillHidesGameOver | RoundFacts.EndlessOutcome |
| game.js:381-403 | In stage mode, `updateStageTarget` shows the win when the last target is covered. `checkGameStatus` then finds blocks left that cannot fit, and its game-over modal replaces the win. A cleared stage has no `null` cell when every layout entry is 0 or 1, as in the editor's exports | a stage whose only target is (0, 0), blocks `single`, `single`; the first single dropped on (0, 0) | covering every target wins the stage, whatever blocks remain | medium; not executed | PlaceBlockOrder.WinOverridden | RoundFacts.StageOutcome |
