# Queens rule engine in Dafny

A model of the rule engine of a Queens-style placement puzzle. An n by n
board is split into n coloured areas. A solution marks one tile in every
row, every column and every area, and no two marks may touch at a corner.

The model covers these parts:

- **Cell addressing** (`Coordinates`, `LegacyCoordinates`): a raw linear
  index, built from two indices and split back into them.
- **Tiles and the grid** (`Tiles`, `Grids`): a mark flag and a raw colour
  per tile, in a flat list of n * n tiles.
- **Layouts** (`Layouts`, `LayoutTemplates`, `ComplexTemplate`):
  - sections, areas and layouts;
  - `get_area`;
  - the row-band layout and the hand-written ten-area template.
- **The older HashMap layout** (`LegacyLayouts`).
- **The layout generator** (`Generator`, `SeedPicker`, `Growth`,
  `LayoutGenerator`):
  - a seed phase that picks n mutually non-attacking cells from a shuffled
    pool;
  - a growth phase in which areas claim orthogonal neighbours until the
    board is covered.
- **The game** (`InGame`, `WinStatus`):
  - a new game painted from a layout;
  - flipping a tile;
  - the one-pass win and violation checker.
- **The keyboard handling** (`Keyboard`): cursor moves with wrap-around
  and jump-to-edge, Escape, and Space or Enter.
- **The application states** (`GameStates`): the main menu, a game in
  progress and the won screen, and one frame of the game screen.

Randomness is supplied as data. The seed phase gets one shuffled pool per
attempt, and the growth phase gets a list of draws. Generation therefore
returns `None` when the supplied data runs out before the generator
finishes.

Row and column of an index are `index / n` and `index % n` throughout
(`Board.Row`, `Board.Col`). The grid is drawn row by row, and the arrow
keys move one column with + 1, so a row is n consecutive indices.

## Model

| member | source | states |
|---|---|---|
| Coordinates.FromContext | src/model/coordinate.rs:48-56 | Ok exactly when both indices are below n. The raw index is below n * n, and dividing it by n gives back the first index and the remainder the second. |
| Coordinates.FromContextSigned | src/model/coordinate.rs:58-64 | A negative index is refused; otherwise the result is that of `from_context`. |
| Coordinates.ToCoords | src/model/coordinate.rs:70-79 | Ok exactly when raw < n * n. The pair lies on the board and recombines to raw. |
| Coordinates.FromContextCoordinate | src/model/coordinate.rs:88-94 | For an in-range (row, col), `to_coords` splits the result back into (row, col). It equals `from_context` called with the row as its first argument. |
| Coordinates.RoundTrip | src/model/coordinate.rs:48-79 | Building from (a, b) with a, b < n and splitting again gives (a, b). |
| Coordinates.SplitThenBuild | src/model/coordinate.rs:48-79 | Splitting a valid coordinate and rebuilding it gives the same coordinate. |
| LegacyCoordinates.FromContext | src/state/coordinate.rs:23-31 | The same checks and the same arithmetic as the current version. |
| LegacyCoordinates.FromContextSigned | src/state/coordinate.rs:33-39 | Negatives are refused; otherwise it delegates. |
| LegacyCoordinates.ToCoords | src/state/coordinate.rs:45-54 | Ok exactly when raw < n * n. The pair is on the board and recombines to raw. |
| LegacyCoordinates.ToUsize | src/state/coordinate.rs:57-68 | Converting to `usize` inverts `From<usize>`. |
| LegacyCoordinates.RoundTrip | src/state/coordinate.rs:23-54 | Building and splitting gives back the two indices. |
| LegacyCoordinates.AgreesWithModel | src/state/coordinate.rs:23-54 | The older addressing agrees with the current one on every input. |
| Tiles.Default | src/model/tile.rs:6-10 | The default tile is unmarked with colour 0. |
| Tiles.OnClick | src/model/tile.rs:17-22 | A click toggles the mark and keeps the colour. |
| Tiles.OnClickInvolution | src/model/tile.rs:17-22 | Two clicks restore the tile. |
| Tiles.NewAccessors | src/model/tile.rs:13-15 | `is_set` and `get_raw_color` read back what `new` stored. |
| Grids.New | src/model/grid.rs:12-17 | n * n tiles, all default, and the grid's size is n. |
| Grids.GetTile | src/model/grid.rs:18-23 | Ok exactly when the index is below the length, and then the stored tile. |
| Grids.SetTile | src/model/grid.rs:40-42 | The stored tile reads back. Every other index and the length are unchanged. |
| Grids.GetNOfNew | src/model/grid.rs:44-46 | `get_n` reports the size the grid was built with. |
| Grids.CoordFromIndices | src/model/grid.rs:52-54 | Ok exactly when both indices are below n, and the coordinate splits back into them. |
| Grids.GetTileByIndices | src/model/grid.rs:25-38 | Negative or off-board indices are errors. Otherwise the tile at row * n + col, which exists on a grid of n * n tiles. |
| Layouts.Cells | src/model/layout.rs:7-9 | A range lists start, start + 1, ..., end - 1 in order, and nothing else. |
| Layouts.SectionFromIndex | src/model/layout.rs:11-17 | `section(v)` holds v alone. |
| Layouts.SectionFromRange | src/model/layout.rs:19-23 | `section(a..b)` holds exactly the cells from a up to but excluding b. |
| Layouts.SectionFromInclusive | src/model/layout.rs:25-31 | `section(a..=b)` holds exactly the cells from a through b. |
| Layouts.FlattenMembers | src/model/layout.rs:45-58 | A cell is in an area built from sections exactly when one of the sections holds it. |
| Layouts.FlattenAppend | src/model/layout.rs:45-58 | The sections are flattened in order: the flattening of a concatenation is the concatenation of the flattenings. |
| Layouts.AreaFromUsize | src/model/layout.rs:60-62 | A one-cell area with the given colour. |
| Layouts.FromSections | src/model/layout.rs:88-102 | Exactly n lists are demanded. Area i has colour `i as u8`, and holds exactly the cells of list i's sections. |
| Layouts.GetArea | src/model/layout.rs:104-112 | Ok exactly when some area holds the index. The result holds it, and no earlier area does. Otherwise `AreaNotFound(index)`, the error variant the source evidently intends in place of its string. |
| Layouts.GetAreaInPartition | src/model/layout.rs:104-112 | In a partition, `get_area` returns the one area holding the cell. |
| LayoutTemplates.EasyLayoutArea | src/model/layout.rs:131-141 | Row band i lists n*i .. n*i+n-1 in order, with colour i. |
| LayoutTemplates.EasyLayoutMembers | src/model/layout.rs:131-141 | A cell lies in band i exactly when it is on the board and in row i. |
| LayoutTemplates.EasyLayoutPartition | src/model/layout.rs:131-141 | The row bands partition the board. |
| ComplexTemplate.ComplexAreas | src/model/layout.rs:143-208 | The template's ten section lists flatten to the listed cell lists, with colours 0 .. 9. |
| ComplexTemplate.ListedOwned | src/model/layout.rs:143-208 | Each listed cell of area k is on the board, lies in area k of the drawing, and is listed once. |
| ComplexTemplate.ListedCovers | src/model/layout.rs:143-208 | Every cell of the board is listed in the area the drawing gives it. |
| ComplexTemplate.ComplexLayoutPartition | src/model/layout.rs:143-208 | `complex_layout` partitions the 10 x 10 board into ten areas coloured 0 .. 9. Area k holds exactly the cells drawn as area k. |
| LegacyLayouts.FromAreas | src/state/layout.rs:67-75 | The keys are exactly the areas given. Each key's colour is the index of its last occurrence, as `u8`. |
| LegacyLayouts.SameCells | src/state/layout.rs:43-53 | The older `Area::from_sections` gives the same cells as the current one. |
| LegacyLayouts.DistinctAreasKeepIndex | src/state/layout.rs:81-98 | With pairwise different areas, each area keeps its own index as colour and there is one key per area. |
| LegacyLayouts.IdenticalAreasCollapse | src/state/layout.rs:67-75 | Two identical areas collapse into one key. Its colour comes from an entry no earlier than the later of the two, and the map has fewer keys than there are areas. |
| LegacyLayouts.GetColorOfArea | src/state/layout.rs:101-103 | `get_color` of area i is i, for pairwise different areas. |
| LegacyLayouts.GetArea | src/state/layout.rs:105-113 | Ok exactly when some key holds the index, and the result is such a key. Otherwise the error string. |
| LegacyLayouts.GetAreaUnique | src/state/layout.rs:105-113 | With disjoint keys, the area found does not depend on the map's iteration order. |
| LegacyLayouts.Default | src/state/layout.rs:120-124 | `Default` is the row-band layout: ten keys partition cells 0 .. 99, and every cell's key is coloured with the cell's row. |
| LegacyLayouts.FromPartition | src/state/layout.rs:81-98 | The cells of a partition give a layout with one key per area, coloured by its index, that again partitions the board. |
| LegacyLayouts.EasyLayoutPartition | src/state/layout.rs:136-146 | The older row bands partition 0 .. 99 into ten keys, and a key's colour is the row of its cells. |
| LegacyLayouts.ComplexLayoutPartition | src/state/layout.rs:148-213 | The older template partitions 0 .. 99 into ten keys, and a key's colour is the template area of its cells. |
| Generator.MarkUnavailable | src/model/layout.rs:237-258 | After accepting r, a cell is unavailable exactly when it already was or r attacks it. |
| SeedPicker.DiagonalNeighbours | src/model/layout.rs:242-258 | The four guarded stores reach exactly the diagonal neighbours of r. |
| SeedPicker.MarkLines | src/model/layout.rs:237-240 | The loop makes exactly r's row and r's column unavailable. |
| SeedPicker.MarkDiagonals | src/model/layout.rs:242-258 | The four guarded stores make exactly r's diagonal neighbours unavailable. |
| SeedPicker.MarkAround | src/model/layout.rs:237-258 | The stores for one accepted seed, done on an array, give `MarkUnavailable`. |
| SeedPicker.PickSeeds | src/model/layout.rs:221-264 | One attempt run as the source runs it, with pops and the inner loop. It ends as the functional rounds say, and a success gives n non-attacking seeds. |
| Generator.AcceptKeepsValid | src/model/layout.rs:225-260 | Accepting an available cell keeps the seeds pairwise non-attacking, and keeps the flags equal to the cells some seed attacks. |
| Generator.SeedPhaseValid | src/model/layout.rs:221-264 | A successful attempt yields n pairwise non-attacking seeds, which is a solution. |
| Generator.PanicPoolPanics | src/model/layout.rs:221-235 | On PanicPool, a shuffle of 0 .. 99, the attempt as written begins its tenth round with an empty pool: the `unwrap` panics. |
| Generator.Seeds | src/model/layout.rs:221-235 | The corrected seed phase. The result is the seeds of the first attempt that places n seeds; every earlier attempt failed. The seeds are n non-attacking cells. `None` means every supplied attempt failed. |
| Generator.SeedsAgreeUnlessPanic | src/model/layout.rs:221-235 | Where the source does not panic, the corrected phase gives the same seeds. |
| Generator.PanicPoolRestarts | src/model/layout.rs:221-235 | On PanicPool the source panics, where the corrected phase moves on to the next shuffle. |
| Growth.NeighbourIsAdjacent | src/model/layout.rs:277-303 | The four directions reach exactly the orthogonal neighbours of a cell on the board. |
| Growth.ClaimAt | src/model/layout.rs:282-303 | A draw either changes nothing or makes one allowed claim: an unplaced orthogonal neighbour of a member of the chosen area. |
| Growth.GrowStep | src/model/layout.rs:268-303 | One loop pass over any draw either changes nothing or makes one allowed claim by an area other than the last. |
| Growth.GrowStepReaches | src/model/layout.rs:268-303 | Every allowed claim is made by some draw. |
| Growth.ClaimKeeps | src/model/layout.rs:284-303 | A claim keeps the invariant. The flags match the listed cells, no cell is listed twice, `number_placed` counts the flags, and every area stays connected. |
| Growth.GrowStepKeeps | src/model/layout.rs:268-303 | One pass keeps the invariant, leaves the last area alone, and only appends to the others. |
| Growth.Grow | src/model/layout.rs:268-304 | The loop stops once `number_placed` reaches n * n. |
| Growth.GrowKeeps | src/model/layout.rs:266-304 | A finished loop has placed every cell exactly once. Every area is connected and extends its seed, and the last area is its seed alone. |
| LayoutGenerator.InitialShape | src/model/layout.rs:221-266 | After the seed phase, area i is seed i alone and the set flags are the seeds. `number_placed` is n and counts them. |
| LayoutGenerator.InitialInv | src/model/layout.rs:221-266 | n distinct seeds give a state that satisfies the growth invariant. |
| LayoutGenerator.CellSections | src/model/layout.rs:262-306 | One one-cell section per claimed cell flattens back to the claimed cells. |
| LayoutGenerator.ToLayout | src/model/layout.rs:306 | Area i lists the cells area i claimed, in claim order, with colour i. |
| LayoutGenerator.FinishedIsPartition | src/model/layout.rs:266-306 | The areas of a finished growth form a partition of the board. |
| LayoutGenerator.GenerateLayoutAsWritten | src/model/layout.rs:210-307 | `generate_layout` as written panics exactly when its seed phase does: a round begins with an empty pool. Otherwise it builds the same layout as the corrected generator, or runs out where that one does. |
| LayoutGenerator.PanicPoolLayout | src/model/layout.rs:221-235 | With PanicPool first, the program as written panics. The corrected generator builds the layout of the next shuffle instead. |
| LayoutGenerator.GenerateLayoutValid | src/model/layout.rs:210-307 | A generated layout has n areas coloured 0 .. n-1 that partition the board. Each area is connected and starts at its own seed, the seeds are non-attacking, and the last area is its seed alone. |
| LayoutGenerator.DefaultLayout | src/model/layout.rs:115-119 | `Layout::default()` is ten connected areas, coloured 0 .. 9, that partition the hundred cells. |
| InGame.PaintCells | src/model/state.rs:125-127 | The inner loop gives each listed cell an unmarked tile of the area's colour and leaves other cells alone. |
| InGame.PaintAreas | src/model/state.rs:124-128 | Area after area: a cell ends with the colour of the last area listing it, and unlisted cells keep their tile. |
| InGame.NewOnPartition | src/model/state.rs:116-135 | On a partition, every tile is unmarked and carries the colour of the one area holding it. |
| InGame.LayoutOf | src/model/state.rs:118-122 | The layout type picks the layout. The fixed ones always exist; every one has n areas coloured 0 .. n-1 that partition the board. |
| InGame.New | src/model/state.rs:116-135 | A new game has n * n tiles, no cursor and nothing marked. Each cell of area k holds an unmarked tile of colour k. Only a generated layout can be missing. |
| InGame.FlipTile | src/model/state.rs:161-166 | An error exactly when the cell is off the grid. Otherwise only that tile changes, to its click. |
| InGame.FlipTwice | src/model/state.rs:161-166 | Flipping a tile twice gives the state back. |
| InGame.MarkCellsMarks | src/model/state.rs:161-166 | Flipping distinct unmarked cells marks exactly them and leaves the other marks. |
| InGame.SeedsWin | src/model/state.rs:169-233 | On a new game over a partition, marking one cell per area with no two attacking is reported won with no violation by raw colour. By display colour, as written, it is won up to eleven areas and never from twelve. |
| InGame.GeneratedGameWinnable | src/model/state.rs:116-135 | A generated game can be won by marking its seeds, one per area. By raw colour it is always reported won. As written, by display colour, it is reported won up to side 11 and never from side 12. |
| InGame.RowBandsTwelve | src/model/state.rs:169-233 | Twelve marks on the 12 by 12 row bands solve the puzzle. Compared by raw colour they are reported won; as written they are not. |
| WinStatus.ColourKey | src/model/distinct_colors.rs:6-25 | The display comparison sees raw colours 0 .. 9 as themselves and every other colour as one shared GRAY. The raw comparison sees the raw colour. |
| WinStatus.AreaErrors | src/model/state.rs:192-200 | No violation for a new colour. A repeated colour gives one `Area` violation naming an area that holds the tile, or the lookup's error. |
| WinStatus.VisitTally | src/model/state.rs:175-200 | A visit records a new row, column or colour silently and reports one violation of that kind for a repeated one. |
| WinStatus.VisitDiagonals | src/model/state.rs:202-222 | A visit adds diagonal violations exactly for the marked neighbours below-right and below-left, with off-grid and edge cases skipped. |
| WinStatus.ScanInvariant | src/model/state.rs:169-224 | After k tiles, each list holds the values seen once each. Each kind's violation count is the number of repeats, and the diagonal violations are exactly the marked pairs found below. |
| WinStatus.ScanError | src/model/state.rs:192-197 | The pass fails only on a marked tile in no area, with that tile's `AreaNotFound`. |
| WinStatus.BelowIsDiagonal | src/model/state.rs:202-222 | The two cells looked at below a tile are exactly its diagonal neighbours that come later in index order. |
| WinStatus.VisitDiagonalCount | src/model/state.rs:202-222 | A visit adds each diagonal violation it reports exactly once, and none for pairs whose first cell is another tile. |
| WinStatus.Violations | src/model/state.rs:169-233 | Each kind of violation counts the marked tiles whose row, column or colour an earlier marked tile already has. A diagonal violation (c1, c2) is reported exactly when c1 < c2 are marked and touch at a corner, and it appears at most once. |
| WinStatus.WinStatusMeaning | src/model/state.rs:226-232 | No violation exactly when no rule is broken. Won exactly when n tiles are marked and no rule is broken. |
| WinStatus.CoveredNeverFails | src/model/state.rs:169-233 | When every tile lies in an area, the status is always computed. |
| WinStatus.EmptyGrid | src/model/state.rs:169-233 | Nothing marked: no violation and not won. |
| WinStatus.WinningOfCells | src/model/state.rs:169-233 | n non-attacking marks in n different compared colours are a winning marking. |
| WinStatus.WinningReported | src/model/state.rs:169-233 | A winning marking on a covered board is reported won with no violation. |
| WinStatus.DisplayNeverWinsFromTwelve | src/model/state.rs:177-199 | As written, with display colours, a board of side 12 or more is never reported won. |
| Keyboard.StepRight | src/view/in_game/in_game_ui.rs:56-76 | Right stays in the row. Plain moves one column, wrapping from the last column to the first; ctrl jumps to the last column. |
| Keyboard.StepLeft | src/view/in_game/in_game_ui.rs:77-97 | Left stays in the row. Plain moves one column back, wrapping from the first column to the last; ctrl jumps to the first column. |
| Keyboard.StepDown | src/view/in_game/in_game_ui.rs:98-118 | Down stays in the column. Plain moves one row, wrapping from the bottom row to the top; ctrl jumps to the bottom row. |
| Keyboard.StepUp | src/view/in_game/in_game_ui.rs:119-139 | Up stays in the column. Plain moves one row up, wrapping from the top row to the bottom; ctrl jumps to the top row. |
| Keyboard.StepOnBoard | src/view/in_game/in_game_ui.rs:56-139 | Every move keeps the cursor on the board, and no subtraction underflows. |
| Keyboard.RightLeftInverse | src/view/in_game/in_game_ui.rs:56-97 | Left undoes Right, and Right undoes Left. |
| Keyboard.DownUpInverse | src/view/in_game/in_game_ui.rs:98-139 | Up undoes Down, and Down undoes Up. |
| Keyboard.CtrlIdempotent | src/view/in_game/in_game_ui.rs:56-139 | A ctrl jump repeated stays put. |
| Keyboard.Arrows | src/view/in_game/in_game_ui.rs:54-139 | Any arrow gives a cursor. With no cursor, a single arrow sets it to 0, and with Right and Left together Left moves on from that 0. Without an arrow the cursor is unchanged. |
| Keyboard.ArrowsOnBoard | src/view/in_game/in_game_ui.rs:54-139 | A cursor on the board stays on the board. |
| Keyboard.HandleKeyboardEffect | src/view/in_game/in_game_ui.rs:50-153 | An error, `RefreshRequested`, exactly when Escape is pressed and the arrows left no cursor. Otherwise Escape clears the cursor, and Space/Enter clicks only the tile under the cursor. Nothing else changes. |
| GameStates.Default | src/model/state.rs:98-106 | The default state has side 10 and is in the main menu. |
| GameStates.ChooseSettings | src/view/main_menu/main_menu_ui.rs:15-31 | The slider's 6 .. 12 and the complex template's forced 10 always give loadable settings. |
| GameStates.LoadInGame | src/model/state.rs:26-28 | Loading installs a fresh game for the current settings: no cursor, nothing marked, playable. It exists for the fixed layouts. |
| GameStates.SetGameWon | src/model/state.rs:30-32 | Moves to `Won` and keeps the settings. |
| GameStates.FrameEffect | src/view/in_game/in_game_ui.rs:14-48 | A frame fails exactly when the keys ask for a fresh game. Otherwise it becomes `Won` exactly when the grid after the keys holds a winning marking under the compared colours, and else keeps playing that grid. As written, comparing display colours, a board of side 12 or more never becomes `Won`. |
| GameStates.NoWinWithoutClick | src/view/in_game/in_game_ui.rs:14-48 | A freshly loaded game is not won in a frame without a keyboard confirm, whichever way colours are compared. |

## Left out

- Drawing is not modelled: the egui panels, windows, highlight and underlay rendering of the view files. They are pixel geometry and widget calls; `GameStates.Frame` keeps only the keyboard, the win status and the move to `Won`.
- Mouse clicks are not modelled. `GridUi::render` (src/view/in_game/grid_ui.rs:25-27) flips a clicked tile before the frame asks for the win status, and this changes the game state. `GameStates.Frame` models only the keyboard's changes, so `GameStates.NoWinWithoutClick` covers a frame without a keyboard confirm and without a mouse click.
- Layouts.GetArea returns `AreaNotFound(index)` when no area holds the index. The source returns the string "No area found for index" (src/model/layout.rs:104, 111). `get_win_status` applies `?` to that result inside a function returning `QueensError` (src/model/state.rs:196), but src/errors.rs has no conversion from a string. The model uses the `QueensError::AreaNotFound` variant as the reconstructed intent. `WinStatus.ScanError` reports the same value.
- The random number generator is not modelled. Each seed-phase attempt takes a shuffled pool, and the growth loop takes a list of draws. Every pool and draw the generator can produce is one of these inputs.
- `Color32`, hex parsing and the gamma change of checked tiles (src/model/distinct_colors.rs) are not modelled. The display comparison is modelled as the palette index: ten entries and one GRAY. This assumes the ten checked palette colours stay pairwise different and different from checked GRAY.
- `split_coordinate` and `merge_coordinate` are not part of this model. `split_coordinate` is assumed to give `(col, row) = (index % n, index / n)`, and `merge_coordinate(col, row)` to invert it. This is how the grid's drawing and the arrow keys use them. The labels of `Row` and `Column` violations rest on this assumption; whether the game is won does not.
- `LayoutType` is not part of this model. Its three cases are taken from `new`, and its default is a parameter of `GameStates.Default`.
- The layout functions of src/model/layout.rs fix n = 10, while src/model/state.rs calls them with the state's n. The model takes n as a parameter, and the fixed template is only used at n = 10.
- Grids.New requires n * n < 256, because `n.pow(2)` is computed in `u8`. InGame.New takes the same bound, so boards above 15 are outside the model.
- State::in_game and state::in_game_mut panic outside `InGame`. The model requires `InGame` instead (`GameStates.Frame`, `GameStates.Playing`).
- `Layout::from_sections` panics when the number of lists is not n, and grid `set_tile` panics past the end. Both are preconditions (`Layouts.FromSections`, `Grids.SetTile`, `InGame.NewGame`).
- LegacyLayouts.GetColor requires its area to be a key, because the source's map lookup panics otherwise.
- LegacyLayouts.GetArea takes the map's iteration order as a parameter, because a `HashMap` does not fix it. `LegacyLayouts.GetAreaUnique` shows that the order does not matter for disjoint keys.
- Keyboard.HandleKeyboard does not model the `expect` on `flip_tile`. A cursor always lies on the board (`Keyboard.ArrowsOnBoard`), so the flip cannot fail.
- src/view/in_game/queens_ui.rs and src/view/queens_ui.rs are not modelled. They are earlier versions of the game screen, with the same cursor moves; there, Escape always clears the cursor and never asks for a fresh game.
- Termination of the restarting seed phase and of the growth loop is not modelled. It depends on the random draws, so both are bounded by the supplied inputs and give `None` when those run out.
- The `Display` formatting of errors and violations is not modelled.

- LayoutGenerator.GenerateLayout uses the corrected seed phase (`Generator.Seeds`): a round that begins with an empty pool starts a fresh attempt instead of panicking. `InGame.New`, `GameStates.LoadInGame` and `LayoutGenerator.DefaultLayout` build on it. The program as written is `LayoutGenerator.GenerateLayoutAsWritten`, which agrees with it except where it panics.
- InGame.GetWinStatus compares raw colours, the corrected comparison. The program as written compares display colours: that is `InGame.GetWinStatusAsWritten`, and `GameStates.Frame` with `WinStatus.Display`. As written, a board of side 12 or more never reaches `Won`.
- GameStates.Frame takes the compared colours as a parameter. `WinStatus.Display` is the program as written, and `WinStatus.Raw` is the corrected comparison.

## Findings

| source | as written | input that shows it | evidently intended | confidence | as-written member | corrected member |
|---|---|---|---|---|---|---|
| src/model/layout.rs:223 | Every round of the seed phase starts with `numbers.pop().unwrap()`. A pool that the inner loop empties while accepting a seed makes the next round's pop panic. | n = 10 and PanicPool: 22, 10, 45, 3, 87, 91, 69, 38 popped first, then every remaining cell except 74, with 74 at the bottom. The ninth seed empties the pool, and the tenth round panics. | An empty pool starts a fresh attempt, as the inner loop's "try again" does. | not executed; high | Generator.PanicPoolPanics | Generator.PanicPoolRestarts |
| src/model/state.rs:177 | The checker compares display colours (`get_color`). Every raw colour from 10 upwards is the same GRAY (src/model/distinct_colors.rs:18), so with 12 areas two different areas count as one colour. | n = 12 (the main menu's slider allows up to 12), the row-band layout, marks 0, 14, 28, 42, 56, 70, 73, 87, 101, 115, 129, 143: a solution, reported not won. | A game is won by one mark per area, whatever the palette draws. | not executed; medium | WinStatus.DisplayNeverWinsFromTwelve | WinStatus.WinStatusMeaning |
