# A verified model of tmux

This project models the parts of tmux that keep its data consistent and proves
what they promise:

* **Pane layouts** (`layout.c`, `layout-custom.c`, `layout-set.c`). A window is
  a tree of containers and panes with one-cell separators, edited in place.
  `LayoutTree` to `LayoutWindow` and `LayoutInverse` describe each operation as
  a function on trees and prove what every run keeps; `LayoutCells`,
  `LayoutShapes` and `LayoutObject` hold the same operations on linked cells
  with parent links, proved to give those trees; `LayoutSteps` says what each
  step does without those functions, `LayoutSqueeze` which closes keep a layout
  minimal. `LayoutText`, `LayoutDump`, `LayoutCut`,
  `LayoutManual` and `LayoutFit` describe custom layouts as text, `LayoutSet` the even and
  tiled presets, `LayoutTiledResize` what resizing makes of the latter, with `LayoutTextCells`, `LayoutFitCells` and `LayoutSetCells`
  on linked cells.
* **The escape-sequence parser** (`input.c`). `InputTables` holds the 20
  transition tables and an independent description of what each state does
  with each byte; `InputParser` the context and the effect of one byte;
  `InputReplay` the theorem that the saved input is enough to resume;
  `InputSequences` what whole sequences deliver; `InputContext` the context
  with its fixed buffers, edited in place.
* **The grid and the screen** (`grid.c`, `grid-view.c`, `screen.c`,
  `screen-write.c`). `GridLines` describes lines of cells and moves of them,
  `GridData` and `GridView` the grid edited in place with its `u_int`
  arithmetic modulo 2^32; `ScreenModel` the writing operations, `ScreenSteps` what
  each does without those functions, `ScreenHistory`, `ScreenText`, `ScreenLines`
  and `ScreenPadding` whole runs of them, and `ScreenObject` the screen that takes
  these steps in place.
* **The key tree** (`tty-keys.c`). `KeyTree` relates the ternary search tree to
  a plain map, `KeyNodes` is the tree of linked nodes.

Where one thing is a loop or an update in place in tmux it is a method here.
Its postcondition ties the new state to a function of the old one, and lemmas
prove the properties of that function. A linked structure is described by a
ghost `Shape`: which cell has which children. `Linked` says that the links agree
with it and `TreeOf` reads the tree of values off it.

Some promises turned out to need a condition, which is then proved to be exact:

* A window made at least as large as its layout is filled exactly (the comment
  at layout.c:401-414) if and only if the layout was exact or minimal before:
  `LayoutWindow.FitsIff`. Splits and resizes keep it so. A close keeps it so if
  and only if, on each axis where the layout is larger than the window, the
  sizes of the cells around the closed one are small enough
  (`LayoutSqueeze.StaysMinimal`): `LayoutSqueeze.CloseKeepsExactIff`. Next to a
  leaf in a single row or column they never are: `LeafHeirLoses`, and
  `LayoutWindow.CloseLosesFit` for a run.
* Closing a pane just made by a split restores the layout unless it was
  inserted before a cell that had a neighbour on that side:
  `LayoutInverse.SplitThenClose`, and `NotRestored` for one that was.
* The text of a layout reads back unless a leaf without a pane number has
  another cell after it, whose width it then takes for its pane:
  `LayoutText.ConstructReadsIff` and `UnnumberedFails`. The example of the manual
  (tmux.1:1000-1003) is such a text, so `select-layout` refuses it; the model
  follows the code: `LayoutManual.ManualRefused`.
* A damaged dump is refused unless a NUL ends it early in the numbers of its
  first cell and the checksum happens to agree: `LayoutCut.ParseDamaged` and
  `UnluckyAccepted`.
* A window restored from its own dump gets the same layout exactly if the
  layout was as large as the window or minimal: `LayoutDump.RestoreDump`,
  and `DumpShrinks` for one that does not.
* The tiled layout gives its root the size before the last row and column are
  widened (layout-set.c:505-506), so it is tiled as a whole only if they divide
  the window evenly: `LayoutSet.TileDivides`. Resized, the rows fill the window
  only until they were once squeezed to their minimum, unless nothing was left
  over: `LayoutTiledResize.TiledFillsIff` and `TwoRowsOverrun`.
* The history exceeds its limit after height changes (the remark at
  screen.c:206), by no more than the screen is shorter than it has been:
  `ScreenHistory.HistoryBound` and `BoundReached`.
* The parameter buffer holds the bytes collected only until a dispatch splits
  it (input.c:809-810): `InputParser.BuffersHold` and `InputSplit.SplitLeaves`.
* ESC starts a new sequence except inside device control data, where it is
  escaped, and inside a UTF-8 character, where it is lost:
  `InputSequences.ControlSequence`, `DeviceControl` and `EscapeSwallowed`.
* Inserting lines to the end of the screen leaves a gap uncleared unless it was
  blank (grid-view.c:150-162): `GridView.OpenedIsInserted`.
* A move right from the column after the last leaves the screen:
  `ScreenModel.CursorRightLeaves`, and `ScreenHistory.CursorLeaves` for a run
  that gets there.
* A full history shrinks unless it is empty with a limit of 0, where its size
  wraps around: `GridLines.CollectWraps`. Whole screens still scroll, as the
  size wraps back: `GridData.Grid.ScrollHistory`.
* Adding a key replaces a shorter key that begins it instead (tty-keys.c:297):
  `KeyTree.AddStoresIff` and `ShorterReplaced`.

`dafny verify dfyconfig.toml` checks everything.

## Model

| member | source | states |
|---|---|---|
| `LayoutCells.ResizeCheck` | layout.c:244-278 | the loop over linked children returns the space a cell can give: the sum over children along the axis, the least over children across it, a leaf what it has above 2 |
| `LayoutAdjust.AdjustAdjusts` | layout.c:284-325 | any change of at least minus the available space changes the size along the axis by exactly that, keeps shape, panes, offsets and the other axis, takes no leaf below the smaller of its old size and 2, keeps a fitting tree fitting, and a shrink lowers the available space by exactly what it took |
| `LayoutAdjust.AdjustKeepsTiled` | layout.c:284-325 | a tiled tree stays tiled and the space available on the other axis stays the same |
| `LayoutAdjust.RoundRobinAdjusts` | layout.c:306-324 | the round-robin over children, from any child on, shares the change out completely; its termination is part of the statement |
| `LayoutAdjust.UnitAdjust` | layout.c:299-324 | one unit goes to the first child, or comes from the first child that has space, all the way down |
| `LayoutEven.GrowEvenly` | layout.c:306-324 | after growing, what two children gained differs by at most one, earlier children first |
| `LayoutEven.ShrinkEvenly` | layout.c:306-324 | a shrinking container takes from each child to within one unit of any other, earlier children first, except from those that end with nothing left to give |
| `LayoutCells.ResizeAdjust` | layout.c:284-325 | the in-place change of linked cells gives exactly the specified tree, and only sizes are written |
| `LayoutCells.ResizeAlong` | layout.c:306-324 | the nested loops over a container's children come to the round-robin result and end |
| `LayoutOffsets.PointPartition` | layout.c:140-165 | every point of the plane lies in exactly one leaf or separator of a placed tiled tree if it is inside the root, and in none if it is outside |
| `LayoutCells.FixOffsets` | layout.c:140-165 | the in-place placement of linked cells gives the placed tree, and only offsets are written |
| `LayoutSplit.SplitSizes` | layout.c:695-725 | the halves and their separator make up the cell; a size asked for from 2 to s - 2 is the size of the second half, below 2 that gets 2, above s - 2 the first gets 1, and without one the first half is as large as the second or larger by one; the pane of the old cell is in the half it should be |
| `LayoutSplit.SplitKeeps` | layout.c:620-733 | a split keeps the tree tiled, its root size, two children or more per container and one cell or more per leaf, and never adds available space |
| `LayoutSplit.SplitPlaced` | layout.c:620-733 | after a split the offsets already are what layout_fix_offsets would compute |
| `LayoutSplit.SplitPanes` | layout.c:609-733 | a split with assignment puts exactly the new pane next to the old one in the order of panes |
| `LayoutClose.CloseKeeps` | layout.c:328-375 | a close keeps the root size, tiling, branching, leaf sizes and leaves the tree placed |
| `LayoutClose.DestroyKeeps` | layout.c:328-375 | the same for layout_destroy_cell alone, before offsets are fixed |
| `LayoutClose.ClosePanes` | layout.c:736-748 | a close takes exactly the closed pane out of the order of panes |
| `LayoutClose.AfterCloseTiled` | layout.c:328-375 | what takes the place of a container after a close is tiled and has the container's size |
| `LayoutResizePane.GrowExactly` | layout.c:537-575 | growing child i adds exactly the smaller of the change and what all other children can give; nobody else grows, the sum stays |
| `LayoutResizePane.GrowTailFirst` | layout.c:537-575 | the space comes from the children after the growing one, nearest first, and from those before it, nearest first, only when all after it have nothing left |
| `LayoutResizePane.ShrinkExactly` | layout.c:577-606 | shrinking adds to child i + 1 exactly the smaller of the change and what children 0 to i can give; later children are untouched |
| `LayoutResizePane.ShrinkHeadFirst` | layout.c:577-606 | the space comes from the child itself and those before it, nearest first, each only when all nearer ones have nothing left |
| `LayoutResizePane.ResizePaneExactly` | layout.c:448-488 | in the innermost container along the axis around the pane: which child the space goes to, how much, out of which children in which order, its total kept; every cell that is not inside that container keeps its size |
| `LayoutResizePane.ResizePaneNone` | layout.c:455-463 | without such a container nothing changes |
| `LayoutResizePane.ResizePaneKeeps` | layout.c:448-488 | a pane resize keeps tiling, branching, leaf sizes, placement, root size and the order of panes |
| `LayoutWindow.AxisResized` | layout.c:415-440 | on one axis the layout ends at least as large as the window, and exact or minimal if it was |
| `LayoutWindow.AxisExactIff` | layout.c:415-440 | on one axis the layout is exact or minimal after a resize if and only if it was exact or minimal before, or the window shrinks by all the available space |
| `LayoutWindow.StepKeeps` | layout.c:328-748 | one split, close, pane resize or window resize keeps the invariant: tiled, placed at the corner, two children or more, leaves of one cell or more, each pane in one leaf, never smaller than the window |
| `LayoutSteps.PlacedInOrder` | layout.c:140-163 | a layout is placed if and only if the children of each container lie side by side in order from its corner on, with one separator between them |
| `LayoutSteps.StepObeys` | layout.c:328-748 | every operation in every window of the invariant, said of the tree before and after: the sizes, panes and places of the halves of a split; the heir of a closed cell and all other children; the donors of a pane resize; the length of the root after a window resize; and that nothing else changes size |
| `LayoutWindow.EveryRun` | layout.c:377-748 | every run from layout_init keeps that invariant, and without closes the layout is exact or minimal on each axis |
| `LayoutWindow.FitsIff` | layout.c:396-445 | in every state of the invariant, a window made at least as large as its layout is filled exactly if and only if the layout was exact or minimal on both axes |
| `LayoutWindow.FitsAgain` | layout.c:401-414 | so after any run without closes, a window at least as large as the layout is filled exactly |
| `LayoutWindow.CloseLosesFit` | layout.c:328-445 | with a close this can fail: a split, a shrink to the minimum and a close leave a layout two columns too wide at every later width |
| `LayoutSqueeze.GrownFullIff` | layout.c:273-325 | whether a cell has space left after growing by n can be told from its sizes before: children along the axis get n shared out in single units, those across it n each, one of which staying full is enough |
| `LayoutSqueeze.CloseKeepsExactIff` | layout.c:328-445 | a close keeps an exact or minimal layout so if and only if, on each axis where the layout is larger than the window, the sizes before it leave no space: in the neighbour that grows even with the closed cell added, and, going up, in the other children along the axis or in one other child across it |
| `LayoutSqueeze.LeafHeirLoses` | layout.c:328-445 | in a root larger than the window along its direction, a close whose space goes to a leaf always loses the fit |
| `LayoutInverse.SplitThenClose` | layout.c:328-748 | closing the pane a split made restores the whole tree with sizes and offsets if and only if the new cell was put after the old one, or made a new container, or was first in its container |
| `LayoutInverse.NotRestored` | layout.c:328-748 | two panes side by side, made by one split, for which it does not |
| `LayoutObject.ResizePaneGrow` | layout.c:537-575 | one turn of the growing loop on linked cells; what is left to do gives the same final children |
| `LayoutObject.ResizePaneShrink` | layout.c:577-606 | one turn of the shrinking loop on linked cells |
| `LayoutObject.ResizeRow` | layout.c:467-481 | the whole loop of layout_resize_pane gives the specified children |
| `LayoutObject.ResizeAxis` | layout.c:415-440 | one axis of layout_resize on linked cells gives the specified tree |
| `LayoutObject.Window.constructor` | layout.c:377-387 | layout_init: one leaf of the window's size that holds the pane, in the invariant |
| `LayoutObject.Window.Resize` | layout.c:396-445 | the in-place resize takes the specified step; links, panes and invariant kept |
| `LayoutObject.Window.ResizePane` | layout.c:448-488 | the in-place pane resize takes the specified step; links, panes and invariant kept |
| `LayoutObject.Window.FindContainer` | layout.c:455-463 | walking up the parent links finds the innermost container of the wanted direction around the pane, or none |
| `LayoutObject.Window.SplitPane` | layout.c:620-733 | the in-place split gives the specified tree and new cell, or nothing changes if there is not enough space |
| `LayoutObject.Window.AssignPane` | layout.c:609-614 | the new leaf and the pane are linked to each other; the tree is the specified one |
| `LayoutObject.Window.Split` | layout.c:609-733 | split and assignment together take the specified step; it succeeds if and only if the cell has 5 or more along the axis |
| `LayoutObject.Window.DestroyCell` | layout.c:328-375 | exactly the closed cell, and a container left with one child, leave the tree; the rest is the specified tree |
| `LayoutObject.Window.Close` | layout.c:736-748 | the in-place close takes the specified step; links, panes and invariant kept |
| `LayoutText.ConstructReadsIff` | layout-custom.c:71-288 | for every tree and every tail, the text of the tree reads back as the tree without panes, with exactly the tail left, if and only if no leaf without a pane number has a comma after it and the tail does not run into a last leaf |
| `LayoutText.ConstructReads` | layout-custom.c:204-288 | one half of that, by induction over what is written |
| `LayoutText.ConstructFails` | layout-custom.c:204-288 | with a leaf without a pane number anywhere before another cell nothing is read at all |
| `LayoutText.LeafTakesNumber` | layout-custom.c:212-258 | a leaf without a pane number takes the width of the next cell for one, and what is left begins with an x and is refused |
| `LayoutText.UnnumberedFails` | layout-custom.c:71-288 | two leaves side by side, the left one without a pane, for which this happens |
| `LayoutManual.ShortPrefix` | layout-custom.c:67 | a checksum of fewer than four digits is filled up with spaces |
| `LayoutManual.NumberedReads` | layout-custom.c:71-114 | the string printed for one pane beside two on top of each other, byte by byte, and that it reads back |
| `LayoutManual.ManualRefused` | tmux.1:1000-1003 | the layout string the manual gives as an example has the right checksum, but is refused |
| `LayoutTextCells.CellTextFits` | layout-custom.c:75-90 | the numbers of one cell always fit the 64-byte buffer |
| `LayoutTextCells.Append` | layout-custom.c:71-114 | the recursive append succeeds if and only if the text fits the buffer, and then adds exactly the text |
| `LayoutTextCells.AppendKids` | layout-custom.c:94-108 | the loop over children with its trailing comma replaced by the closing bracket writes exactly the bracketed list |
| `LayoutTextCells.Cursor.ReadField` | layout-custom.c:216-230 | a number and its separator are read and the cursor is after them; on failure it is after the digits |
| `LayoutTextCells.ReadNumbers` | layout-custom.c:210-239 | the two scans of a cell's numbers agree: four numbers, a pane number skipped, the cursor after them |
| `LayoutTextCells.Construct` | layout-custom.c:204-288 | the recursive descent with a shared cursor builds freshly linked cells of the specified tree, or fails exactly when that does |
| `LayoutTextCells.ConstructKids` | layout-custom.c:261-267 | the loop over children goes on exactly as long as commas follow |
| `LayoutDump.ComputeChecksum` | layout-custom.c:43-54 | the loop computes the 16-bit rotating checksum of the bytes before the first NUL |
| `LayoutDump.OneByteChanged` | layout-custom.c:43-54 | changing any one byte of a string changes its checksum, unless the new byte is the NUL that then ends it |
| `LayoutDump.ParseDump` | layout-custom.c:57-68 | the 4-wide hexadecimal prefix of a dump always passes the checksum test, and the dump reads back as the tree without panes if no leaf without a pane comes before another cell, and not at all otherwise |
| `LayoutCut.ParseDamaged` | layout-custom.c:117-137 | a dump with one byte of its layout changed is accepted if and only if the new byte is NUL, it stands in or right after the last of the first cell's numbers, and the shorter string has the same checksum |
| `LayoutCut.ConstructCut` | layout-custom.c:204-288 | a text cut short reads as a single leaf if the cut is in the last numbers of its first cell, and not at all elsewhere |
| `LayoutCut.UnluckyAccepted` | layout-custom.c:117-137 | a dump of one pane that is accepted with its last byte set to NUL |
| `LayoutDump.AssignRestores` | layout-custom.c:185-201 | assigning a tree's own panes in order to the tree without them gives the tree |
| `LayoutDump.RestoreDump` | layout-custom.c:117-182 | a window restored from its own dump has the same layout if and only if the layout was exact or minimal on each axis |
| `LayoutDump.DumpShrinks` | layout-custom.c:117-182 | the layout a split, a shrink and a close leave too wide, which does not come back |
| `LayoutFit.BottomRight` | layout-custom.c:33-40 | a path to a leaf; the root itself only if it is a leaf |
| `LayoutFit.TrimStep` | layout-custom.c:148-150 | destroying the bottom-right cell of a tiled tree takes away exactly the last leaf and keeps tiling and size |
| `LayoutFit.TrimKeeps` | layout-custom.c:139-151 | the loop leaves as many leaves as panes, the first ones in order, filling the same area |
| `LayoutFit.AssignKeeps` | layout-custom.c:185-201 | the leaves get the panes in order and nothing else of the tree changes |
| `LayoutFit.FittedKeeps` | layout-custom.c:139-171 | whatever tiled layout with two children or more per container and leaves of one cell or more was parsed, the window ends with a placed tiled layout that covers it, is exact or minimal and holds exactly its own panes in order; with the root at 0,0 it is in the invariant of every run |
| `LayoutFit.DumpLoads` | layout-custom.c:117-182 | the dump of any window in the invariant loads into any window size if and only if there are at most as many panes as leaves, and leaves that window in the invariant |
| `LayoutFitCells.CountCells` | layout.c:223-241 | the recursive loop counts the leaves |
| `LayoutFitCells.FindBottomRight` | layout-custom.c:33-40 | following the last links comes to the bottom-right leaf |
| `LayoutFitCells.TrimToFit` | layout-custom.c:139-151 | the loop on linked cells gives the trimmed tree, or leaves everything alone and fails exactly when there are too many panes |
| `LayoutFitCells.Assign` | layout-custom.c:185-201 | panes and leaves are linked to each other in order; the panes left over are untouched |
| `LayoutSet.Dimensions` | layout-set.c:487-492 | the loop ends with 1 <= columns <= rows <= columns + 1 and just enough rows |
| `LayoutSet.GridUnique` | layout-set.c:487-492 | no other numbers of rows and columns are that square |
| `LayoutSet.EvenDivides` | layout-set.c:123-227 | in a window that holds the panes at size 2 the even layout is tiled and placed, in pane order, all but the last of one size and the last larger by less than the number of panes |
| `LayoutSet.EvenOverruns` | layout-set.c:136-138 | in a smaller window the even layout overruns it by exactly what is missing |
| `LayoutSet.TileFills` | layout-set.c:471-569 | in a window that holds the grid at size 2 every row is as wide as the window and tiled, the rows and separators make up its height, and the leaves are the panes in order |
| `LayoutSet.TileGrid` | layout-set.c:497-567 | the panes fill the grid row by row, as many in each row as there are columns and the rest in the last; all rows but the last, and all panes of a row but its last, are the window divided by rows or columns |
| `LayoutSet.TileDivides` | layout-set.c:471-569 | the placed result keeps this; the root's own size is short of the window by what is left over when size + 1 is divided by the columns or rows; with the window's size it would be tiled, and as it is only if nothing is left over |
| `LayoutTiledResize.TiledRun` | layout.c:396-445 | through any run of resizes the rows of a tiled window stay tiled, placed, in pane order and at least as large as it; on each axis they fill it, or cannot be smaller, or overrun it by exactly what was left over, and once they could not be smaller they never just fill it again |
| `LayoutTiledResize.TiledFillsIff` | layout.c:396-445 | after any run of resizes of a tiled window, one at least as large as the rows is filled exactly if and only if nothing was left over or the rows filled the window before with space to spare |
| `LayoutTiledResize.TwoRowsOverrun` | layout-set.c:471-569 | two panes in a window of 24 rows: the root says 23, and after a resize to 5 rows and back the panes are 25 rows high |
| `LayoutSetCells.SetEven` | layout-set.c:123-227 | in a window with room for the separators the loop builds fresh linked cells of the even layout, panes and leaves linked to each other |
| `LayoutSetCells.SetTiled` | layout-set.c:471-569 | in a window with room for the separators the nested loops build fresh linked cells of the tiled layout, panes and leaves linked to each other |
| `InputTables.EveryByte` | input.c:374-663 | in every state every byte has an entry, and the first one found is what the state does with that byte |
| `InputTables.FindTransition` | input.c:762-772 | the loop over a table finds that entry and never comes to its end |
| `InputSplit.FieldsAreFields` | input.c:797-825 | the fields hold no separator and make up the text |
| `InputSplit.FieldsUnique` | input.c:797-825 | only one list of fields gives a text |
| `InputSplit.SplitBack` | input.c:797-825 | parameters written as decimals with separators, empty for none, split back to the same list if there are fewer than 24 |
| `InputSplit.SplitLeaves` | compat/strsep.c:47-72 | a split overwrites with NUL the separator after each field it takes, so all of them if it succeeds, up to the one after the field it fails at if not, and no other byte |
| `InputParser.NextValid` | input.c:710-794 | every byte keeps interm_len <= 3, param_len <= 63, input_len <= 255, parameters of digits and separators only in the states that collect them, a UTF-8 character as long as its state says, and an empty log exactly in the ground state |
| `InputParser.Chunks` | input.c:728-794 | state and handler calls do not depend on how the input is split into reads |
| `InputParser.BuffersHold` | input.c:797-925 | each buffer holds exactly the bytes collected since the last clear, cut at its size, and INPUT_DISCARD is set if and only if one was cut; parameters that a dispatch has split since hold exactly what the split leaves of them, and no state that reads the buffers comes after a split without a clear |
| `InputParser.Ready` | input.c:1612-1651 | when a UTF-8 byte is appended there is room for it |
| `InputReplay.SameNext` | input.c:710-794 | contexts that agree on state, log and the buffers their state uses make the same handler calls for every byte and agree again |
| `InputReplay.GroundForgets` | input.c:374-390 | any two contexts in the ground state make the same handler calls for ever |
| `InputReplay.LogIsTail` | input.c:717-788 | the log is exactly the input since the parser was last in the ground state |
| `InputReplay.LogReplays` | input.c:717-788 | replaying the log from a fresh parser gives the same state, log and live buffers |
| `InputReplay.Resume` | input.c:717-788 | a parser resumed from the log makes the same handler calls on every continuation |
| `InputSequences.ControlSequence` | input.c:433-496 | from any state but inside device control data or a UTF-8 character, a control sequence of the format of section 5.4 of ECMA-48 is dispatched once, with its marker, parameters and intermediates, or dropped if one is too long, and ends in the ground state |
| `InputSequences.EscapeSequence` | input.c:394-431 | an escape sequence is dispatched once with up to three intermediates in order, and dropped with more |
| `InputSequences.ControlSequenceLimits` | input.c:797-911 | it is dispatched if and only if it has at most 3 marker and intermediate bytes, 63 bytes of parameters, 23 parameters and none above 2147483647 |
| `InputSequences.ControlSequenceIgnored` | input.c:433-496 | a byte out of place makes it ignored up to its final byte |
| `InputSequences.ControlSequenceCut` | input.c:206-210 | a control sequence cut short by CAN or SUB is dropped |
| `InputSequences.ControlsInside` | input.c:433-496 | a control sequence with controls anywhere in it is dispatched as if they were not there, after they have been executed in order |
| `InputSequences.CancelByte` | input.c:206-210 | CAN and SUB are executed and end whatever was going on; a string they end is delivered |
| `InputSequences.ControlByte` | input.c:374-663 | a control inside an escape or control sequence is executed at once and otherwise changes nothing; inside a string it is dropped |
| `InputSequences.GroundByte` | input.c:374-390 | what each byte does in the ground state: controls are executed, DEL dropped, the rest printed or, with the utf8 option, collected |
| `InputSequences.ParametersArrive` | input.c:797-825 | the numbers a program writes into a control sequence are the numbers its handler gets |
| `InputSequences.StringSequence` | input.c:583-619 | OSC, APC and rename strings ended by ST deliver their text once, whole, or not at all if too long |
| `InputSequences.StringIgnored` | input.c:621-630 | the strings opened by ESC X and ESC ^ are dropped |
| `InputSequences.OscBell` | input.c:583-594 | an OSC string may also be ended by BEL |
| `InputSequences.DeviceControl` | input.c:498-569 | a device control string, whatever parameters and intermediates come first, delivers its bytes with every doubled ESC made single in one dispatch, or nothing if there are more than 255 of them or its header is too long |
| `InputSequences.PassThrough` | input.c:1497-1516 | any bytes, ESC included, sent with the "tmux;" prefix come out unchanged |
| `InputSequences.Utf8Character` | input.c:1612-1651 | with the utf8 option a character of 2 to 4 bytes is printed once, whole |
| `InputSequences.EscapeSwallowed` | input.c:636-663 | inside a UTF-8 character ESC only ends the character, and a control sequence it was meant to begin is printed byte by byte |
| `InputSequences.Utf8Off` | input.c:1614-1620 | without it each byte is printed by itself and the state never changes |
| `InputContext.InputCtx.constructor` | input.c:678-699 | input_init gives the fresh context: ground state, empty buffers and log |
| `InputContext.InputCtx.ClearBuffers` | input.c:860-873 | empties the buffers and the flag, terminators in place |
| `InputContext.InputCtx.CollectIntermediate` | input.c:886-897 | appends in place, or sets the flag when full; the terminator stays in place |
| `InputContext.InputCtx.CollectParameter` | input.c:900-911 | likewise |
| `InputContext.InputCtx.CollectInput` | input.c:914-925 | likewise |
| `InputContext.InputCtx.TakeField` | compat/strsep.c:47-72 | the scan from ptr finds the end of the field, and overwrites the separator there if there is one |
| `InputContext.InputCtx.Split` | input.c:797-825 | the loop over the buffer fills param_list with exactly the split parameters, or fails exactly when that does, never past its end, and leaves in the buffer exactly what the split leaves |
| `InputContext.InputCtx.CallHandler` | input.c:774-779 | each handler has its effect on the context and makes its call; only an UTF-8 start with the option off keeps the state |
| `InputContext.InputCtx.ChangeState` | input.c:710-725 | exit, draining the log, the new state and enter, in that order |
| `InputContext.InputCtx.ParseByte` | input.c:758-788 | one turn of the loop takes the specified step and makes the specified calls |
| `InputContext.InputCtx.Parse` | input.c:728-794 | the loop over a buffer gives the specified context and calls |
| `GridLines.MovedInSteps` | grid.c:382-417 | freeing what is replaced, an overlapping copy and wiping what is left give the moved lines, for every overlap |
| `GridLines.ClearedShows` | grid.c:321-354 | truncating or overwriting both read as default cells in the area and change nothing else |
| `GridLines.MovedShows` | grid.c:420-453 | after cells are moved each column shows what the move says, cells and UTF-8 data together |
| `GridLines.RegionSteps` | grid.c:186-217 | moving the screen down and the region up in the array gives history with the region's top line and the screen with the region one up |
| `GridData.Grid.constructor` | grid.c:74-91 | an empty history and blank lines |
| `GridData.Grid.ClearLines` | grid.c:357-379 | blanks exactly the lines asked for, or nothing when they do not fit, also where the sum wraps |
| `GridData.Grid.MoveLines` | grid.c:382-417 | the three loops give the moved lines, or nothing when an end does not fit |
| `GridData.Grid.ExpandLine` | grid.c:220-234 | the line is longer by default cells, everything else is as before |
| `GridData.Grid.PeekCell` | grid.c:251-260 | reads the cell, the default cell past the end of the line or the grid |
| `GridData.Grid.SetCell` | grid.c:274-283 | writes one cell, expanding the line |
| `GridData.Grid.Clear` | grid.c:321-354 | clears the area; nothing where the line or column sum is outside |
| `GridData.Grid.MoveCells` | grid.c:420-453 | moves cells and UTF-8 data and wipes what is left, for every overlap |
| `GridData.Grid.CollectHistory` | grid.c:149-165 | a full history loses its oldest tenth, at least one line, and the screen is untouched; an empty one with a limit of 0 gets the size 2^32 - 1 and the screen loses its top line |
| `GridLines.TrimmedIs` | grid.c:149-165 | a history below its limit is kept whole; of a full one a tenth of the limit, or one line where that is nothing, goes |
| `GridLines.CollectWraps` | grid.c:149-165 | the new size is no larger than the old one if and only if the limit or the old size is at least 1; at 0 and 0 it wraps around to 2^32 - 1 |
| `GridData.Grid.ScrollHistory` | grid.c:171-183 | the top line goes to the history and a blank one comes in; after that wrap the size comes back to 0, so the screen has scrolled and the history is empty |
| `GridData.Grid.ScrollHistoryRegion` | grid.c:186-217 | the region's top line goes to the history, the region one up, lines outside unchanged |
| `GridView.ScrollRegionUp` | grid-view.c:116-135 | both branches with history on meet one equation, a limit of 0 included; without history the top line is lost |
| `GridView.ScrollRegionDown` | grid-view.c:138-147 | the region one down with a blank line on top |
| `GridView.InsertIsMove` | grid-view.c:165-179 | a move and a clear of the rest are the insertion of blank lines, for every number of lines up to the region |
| `GridView.DeleteIsMove` | grid-view.c:198-212 | a move and a clear of the rest are the deletion of lines |
| `GridView.InsertLinesRegion` | grid-view.c:165-179 | inserts blank lines in the region (section 8.3.67 of ECMA-48), the wrapped clear included |
| `GridView.DeleteLinesRegion` | grid-view.c:198-212 | deletes lines in the region (section 8.3.32 of ECMA-48), the wrapped clear included |
| `GridView.DeleteLines` | grid-view.c:182-195 | deletes lines to the end of the screen |
| `GridView.InsertLines` | grid-view.c:150-162 | opens lines by a move only |
| `GridView.OpenedIsInserted` | grid-view.c:150-162 | that inserts blank lines if and only if the lines the move leaves standing were blank already |
| `GridView.InsertLeavesText` | grid-view.c:150-162 | three lines of text for which it does not |
| `GridView.ClearHistory` | grid-view.c:78-101 | all lines down to the last used one go to the history one by one |
| `GridView.ScrolledAwayScreen` | grid-view.c:78-101 | and leave a screen of the other lines on top of blank ones |
| `GridView.DeleteCells` | grid-view.c:234-248 | each column shows the line with those cells gone and default cells at its end (section 8.3.26 of ECMA-48), for short lines and the wrapped clear |
| `ScreenModel.CursorRightLeaves` | screen-write.c:510-524 | a move right stays on the screen if and only if the cursor is not in the column after the last |
| `ScreenHistory.CursorLeaves` | screen-write.c:510-524 | two characters and a move right on a screen of two columns, which leave the cursor past the screen |
| `ScreenModel.MarginsHold` | screen-write.c:462-507 | moving up and down never crosses a margin of the scroll region from inside |
| `ScreenModel.InsertThenDelete` | screen-write.c:640-719 | deleting as many lines as were inserted restores the screen but for the lines pushed out of the region, which are blank |
| `ScreenHistory.StepPushes` | screen-write.c:801-1017 | the history changes only by the lines the step scrolls off, trimmed before each |
| `ScreenText.TextStands` | screen-write.c:895-1139 | lines of text, of characters of width 1 and 2, each ended by a return and a linefeed, written from the top of a blank scroll region, stand in order in history and region, all but some of the oldest once the history has been full; the lines outside the region are untouched |
| `ScreenSteps.StepObeys` | screen-write.c:462-1237 | every operation, said of the lines, the cursor and the region before and after: which row shows what, what goes to the history, where the cursor stops, what a written character covers and clears |
| `ScreenHistory.HistoryIsLog` | grid.c:149-217 | over any run from an empty history, the history is exactly the last lines of all lines scrolled off, at most hlimit and at least the smaller of all and hlimit - max(1, hlimit / 10) + 1 |
| `ScreenHistory.ResizedKeeps` | screen.c:168-250 | a height change keeps the cursor's row counted from the start of history, and all lines are a prefix of the old ones or the old ones and blank lines; the history gains only the lines that must go for the cursor to stay on the screen, and gives back as many as there is room for |
| `ScreenHistory.HeightRun` | screen.c:168-250 | over any run of height changes every line up to the cursor stays, and the cursor stays on its line and on the screen |
| `ScreenHistory.HistoryBound` | screen.c:168-250 | over any run of operations and height changes from an empty history, the history is exactly the last of the lines scrolled off and not taken back, and at most hlimit plus the difference between the largest height so far and the present one |
| `ScreenHistory.BoundReached` | screen.c:200-209 | a full history on a screen with the cursor at the bottom goes that far over its limit when the screen shrinks |
| `ScreenHistory.ResizedWithoutHistory` | screen.c:211-216 | without history the cursor's row is kept if and only if it fits the new height; the lines from the top are kept, or those down to the cursor where it would not fit, and blank ones added |
| `ScreenPadding.WrittenPaired` | screen-write.c:1199-1237 | writing a character of width 1 or 2 over anything keeps padding cells exactly after the starts of wide characters |
| `ScreenPadding.PaddingRun` | screen-write.c:1031-1237 | over any run of the modelled operations from a blank screen a visible cell is padding if and only if the cell to its left starts a wide character |
| `ScreenLines.RunHolds` | screen-write.c:462-1237 | a property of lines that blank lines have and that marking and writing a line keep holds of all lines of history and screen over any run |
| `ScreenLines.Utf8Run` | screen-write.c:1031-1139 | so over any run every UTF-8 cell of history and screen has its data |
| `ScreenObject.Screen.constructor` | screen.c:32-49 | a blank screen with the whole height as scroll region |
| `ScreenObject.Screen.Linefeed` | screen-write.c:895-917 | takes the specified step: mark the line, scroll at the bottom of the region or go down |
| `ScreenObject.Screen.ReverseIndex` | screen-write.c:801-815 | takes the specified step |
| `ScreenObject.Screen.InsertLine` | screen-write.c:640-678 | takes the specified step, in and outside the region |
| `ScreenObject.Screen.DeleteLine` | screen-write.c:681-719 | takes the specified step, in and outside the region |
| `ScreenObject.Screen.SetScrollRegion` | screen-write.c:818-837 | takes the specified step: a region of more than one line, or nothing |
| `ScreenObject.Screen.CursorMove` | screen-write.c:774-786 | takes the specified step |
| `ScreenObject.Screen.CursorUp` | screen-write.c:462-483 | takes the specified step |
| `ScreenObject.Screen.CursorDown` | screen-write.c:486-507 | takes the specified step |
| `ScreenObject.Screen.CursorLeft` | screen-write.c:527-541 | takes the specified step |
| `ScreenObject.Screen.CursorRight` | screen-write.c:510-524 | takes the specified step, the wrapped difference included |
| `ScreenObject.Screen.ClearLine` | screen-write.c:722-733 | takes the specified step |
| `ScreenObject.Screen.ClearScreen` | screen-write.c:1000-1017 | takes the specified step: into the history if it is on |
| `ScreenObject.Screen.Overwrite` | screen-write.c:1199-1237 | the loops clear padding back to its character and ahead of the new one |
| `ScreenObject.Screen.WriteCell` | screen-write.c:1031-1139 | takes the specified step: wrap if it does not fit, overwrite, pad, write |
| `ScreenObject.Screen.DeleteCharacter` | screen-write.c:616-637 | each column of the cursor's line shows the deletion, clipped to the line |
| `ScreenObject.Screen.ResizeY` | screen.c:168-250 | takes the specified height change, with and without history |
| `KeyTree.FindMatches` | tty-keys.c:399-427 | the lookup returns the key and length of the stored string that begins the buffer, no key if the buffer only begins a stored string, and nothing otherwise |
| `KeyTree.InsertStores` | tty-keys.c:307-342 | inserting changes what is stored for that string only |
| `KeyTree.AddStoresIff` | tty-keys.c:289-304 | adding stores the string if and only if no shorter stored string begins it; otherwise that one's key is replaced |
| `KeyTree.ShorterReplaced` | tty-keys.c:289-304 | "a" and then "ab": "ab" is not stored and "a" has its key |
| `KeyTree.AddAllStores` | tty-keys.c:345-368 | adding strings of which none begins another, in any order, stores exactly them |
| `KeyTree.Index` | tty-keys.c:345-427 | so the tree built from them answers every lookup as the plain map does |
| `KeyNodes.Find1` | tty-keys.c:399-427 | the recursive walk over linked nodes finds the specified node and length |
| `KeyNodes.Add1` | tty-keys.c:307-342 | the recursive insertion keeps the nodes a tree, adds only new ones and gives the specified tree |
| `KeyNodes.Tty.FindKey` | tty-keys.c:391-396 | the lookup from the root |
| `KeyNodes.Tty.AddKey` | tty-keys.c:289-304 | finding first, then replacing the key or inserting, gives the specified tree |
| `KeyNodes.Tty.AddKeys` | tty-keys.c:345-368 | the loop over any table of nonempty sequences gives the tree of adding them one by one |

## Left out

- LayoutWindow.EveryRun: sizes are unbounded integers, so the wrap-around of `u_int` sizes beyond 2^32 is not modelled.
- LayoutAdjust.AdjustAdjusts: every container must have a child; only hand-written layout strings could break this, and the parser never builds an empty container.
- LayoutWindow.StepKeeps: closing the last pane of a window, which frees the tree, is not a step.
- LayoutObject.Window.DestroyCell: the root that is the last pane, which the code frees, is excluded.
- LayoutObject.Window.Close: the last pane is excluded.
- LayoutObject.Window.Resize: the sizes given to panes (`layout_fix_panes`, `window_pane_resize`) and the cropping of panes outside the window are not modelled.
- LayoutSet.EvenOverruns: windows with fewer columns than separators, where the share and the offsets wrap around, are excluded.
- LayoutSetCells.SetEven: the same windows are excluded.
- LayoutSet.TileDivides: windows too small for the grid at size 2 are not described beyond `LayoutSetCells.SetTiled`.
- LayoutSetCells.SetTiled: windows without room for the separators are excluded; each row is put into the root's list after it is filled, not before; nothing reads the list in between.
- LayoutText.ConstructReadsIff: numbers in a layout string are unbounded, so what `sscanf` does with numbers beyond `u_int` is not modelled.
- LayoutDump.ParseDump: a sign or `0x` in front of the checksum and strings of fewer than five bytes are not modelled; bytes count as unsigned in the checksum, and a tree is printed only if its numbers fit `u_int`.
- LayoutFit.FittedKeeps: layout strings whose tree is not tiled, has a container of one child or a leaf of size 0 are parsed, but what trimming does to them is not described.
- LayoutFitCells.TrimToFit: the same trees are excluded.
- GridView.ScrollRegionUp: less than the whole screen with an empty history and a limit of 0 is excluded (`GridLines.CanScroll`): the code then addresses lines 2^32 - 1 places into the grid.
- ScreenObject.Screen.Linefeed: the same case is excluded (`ScreenModel.Feeds`).
- ScreenHistory.HistoryIsLog: height changes, with which the limit can be exceeded, are in `HistoryBound`, which has no lower bound for the history.
- GridData.Grid.MoveCells: every UTF-8 cell must have its data, which `ScreenLines.Utf8Run` shows of all lines; data of other cells is not compared.
- ScreenPadding.PaddingRun: widths other than 1 and 2, wrap mode off, insert mode, combining characters and character insertion and deletion are not steps of a run.
- ScreenObject.Screen.WriteCell: the same limits and that of `Linefeed`; the terminal output and the selection marking are left out.
- InputReplay.GroundForgets: the attributes and the saved cursor that handlers keep in the context are not part of it, so this is about handler calls, not about what they draw.
- InputContext.InputCtx.constructor: the same attributes and saved cursor are not modelled.
- InputParser.BuffersHold: each context has one fixed value of the utf8 option for a whole input.
- KeyNodes.Tty.AddKeys: the terminal description is replaced by the list of sequences it yields; characters are compared by value, as signed or unsigned alike.
- Linked lists of layout cells are sequences of cells; memory is never freed.
- The main-horizontal and main-vertical layouts, the layout undo list and mouse handling add cases of the same kind.
- The command tables behind ESC and CSI dispatch, SGR colours, titles, `input_get` defaults and replies are finite lookups.
- Width changes (`screen_resize_x`), tab stops, selection, `screen_reinit`, clearing parts of a line or screen and `grid_view_insert_cells` are easy next to what is modelled.
- Terminal output, redrawing, sockets, processes, options and the notification of clients have no part in these data structures.
