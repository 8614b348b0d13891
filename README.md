# A match-3 board engine in Dafny

This project models the engine of a match-3 game, which the repository implements twice.

- **The pure engine** is `functional/src/board.ts`. Every step returns a new board.
- **The mutable engine** is `oo/src/board.ts`. A `Board` object changes its tiles in place, keeps the matches of its last scan in a field, and tells listeners about every match it removes and every refill.

A board is a `width × height` grid of tiles addressed by `{row, col}`. It is filled row by row from a generator. Looking up a position off the board gives `undefined`.

A move swaps two tiles. It is allowed when the two positions are not diagonal to each other and the swap lines up three equal tiles in a row or a column. Then the cascade runs, round after round:

1. every matched tile becomes the sentinel `"*"`;
2. tiles fall through the `"*"` below them;
3. the top row is refilled from the generator, and the tiles fall again after each new value;
4. the board is scanned again.

The cascade stops when a scan finds nothing. The pure engine logs each round as one `Match` effect per match and one `Refill` effect that carries the refilled board. The mutable engine fires the matching events.

Modules, one per file:

- `Lines` (`lines.dfy`): tile cells, including the `"*"` sentinel (`Empty`) and JavaScript's `undefined`, and the settled form of a column.
- `Runs` (`runs.dfy`): what a left-to-right scan of one line reports. It reports the maximal runs of three or more equal tiles.
- `Grid` (`grid.dfy`): the pure board. It covers `create`, `piece`, `positions`, `setTile`, `swapTiles` and `removeTiles`.
- `Detection` (`detection.dfy`): `createMatch`, the position builders, and the two scanning loops `getHorisontalMatches2` and `getVerticalMatches`. The loops are methods proved against scan functions, and the scan functions are proved correct against `Runs`.
- `Gravity` (`gravity.dfy`): `handleFloaters` and `shiftDownTiles`. After `shiftDownTiles`, every column is in its settled form.
- `Refill` (`refill.dfy`): the `refill` helper. It takes exactly one generator value per `"*"` and leaves a full board.
- `Cascade` (`cascade.dfy`): `canMove`, `processMove` and `move`. What a cascade logs and where it ends is stated as `IsCascade` and `EndsSettled`.
- `OoBoard` (`oo_board.dfy`): the class `Board` of the mutable engine. Every method is proved to do to the object what the pure engine does to a board value. `Model()` is the board value that the object's tiles spell out.

The generator is a finite sequence of values. A cascade that needs a value the sequence no longer has ends with `SourceExhausted` (in the class, `exhausted`). That is where the repository's test generator, which throws on an empty queue, would throw; the generators the two games use never run dry: the pure engine's game draws at random (`RandGenerator`), and the mutable engine's game cycles through `"ABC"` (`SequenceGenerator`).

## Model

| member | source | states |
|---|---|---|
| Lines.CompactFacts | functional/src/board.ts:283-308 | The settled form of a column has the column's length and is settled. It keeps the non-`"*"` tiles in their top-to-bottom order, the number of `"*"`, and the multiset of tiles. |
| Lines.CompactOfCompact | functional/src/board.ts:297-308 | A settled column is its own settled form. |
| Lines.CompactUnique | functional/src/board.ts:283-308 | A settled column of the same length that has the same tiles in the same order is the settled form. |
| Lines.CompactOfPartlyCompact | functional/src/board.ts:283-295 | Settling the lower part of a column first does not change the settled form of the whole. |
| Lines.MultisetSplit | functional/src/board.ts:283-308 | A column's multiset is its `"*"` tiles plus its other tiles. |
| Runs.RunsFromSound | functional/src/board.ts:191-214 | Every run the scan of a line reports from a position onward is maximal. |
| Runs.RunsFromComplete | functional/src/board.ts:191-214 | The scan reports every maximal run of length 3 or more that starts at or after its start. |
| Runs.RunsFromOrdered | functional/src/board.ts:191-214 | Reported runs come left to right and do not overlap. |
| Runs.LineRunsCorrect | functional/src/board.ts:191-239 | A line reports a run exactly when it is a maximal run of 3 or more equal tiles. The reported runs are ordered and disjoint. |
| Runs.ThreeInLineRuns | functional/src/board.ts:191-239 | Three equal adjacent tiles lie inside some reported run. |
| Runs.LineRunsHaveThree | functional/src/board.ts:191-239 | A line that reports a run has three equal adjacent tiles. |
| Runs.LineRunsEmpty | functional/src/board.ts:191-239 | A line reports nothing exactly when it has no three equal adjacent tiles. |
| Grid.Piece | functional/src/board.ts:38-42 | No ensures of its own. It gives the tile at `p` when `p` is on the board and `undefined` otherwise. Grid.BoardsEqual states that it determines the board, and the ensures of SetTile, SwapTiles and RemoveTiles are stated through it. |
| Grid.IsDiagonalMove | functional/src/board.ts:154 | Predicate, no ensures: both the row and the column differ. Cascade.DiagonalMoveRefused states its effect on a move. |
| Grid.IsFull | functional/src/board.ts:153 | Predicate, no ensures: no tile holds `"*"`. Refill.FullHasNoHoles ties it to the count of `"*"`. |
| Grid.Create | functional/src/board.ts:30-36 | Ensures a well-formed board of the given width and height. Grid.CreateFillsRowMajor states its contents and what the generator keeps. |
| Grid.BoardsEqual | functional/src/board.ts:38-42 | Two boards of the same size that give the same `piece` everywhere are equal. |
| Grid.RowMajorCovers | functional/src/board.ts:135-138 | The row-major listing of an `h × w` rectangle holds exactly its positions. |
| Grid.RowMajorSorted | functional/src/board.ts:135-138 | The row-major listing is strictly ordered, row first. |
| Grid.Positions | functional/src/board.ts:44-46 | There are `width * height` positions, exactly the on-board ones, each once, in row-major order. |
| Grid.GenerateRowsCell | functional/src/board.ts:135-138 | The tile at row `r`, column `c` holds generator value number `r * w + c`. |
| Grid.CreateFillsRowMajor | functional/src/board.ts:30-36 | `create` takes exactly `width * height` values. The tile at `(r, c)` holds value number `r * width + c`, and the generator keeps the rest. |
| Grid.SetTile | functional/src/board.ts:143-151 | Only the tile at `p` changes, and only when `p` is on the board. The size is kept. |
| Grid.SwapTiles | functional/src/board.ts:171-181 | The on-board tile at `first` gets `piece(second)`, which is `undefined` off the board, and vice versa. Every other tile and the size are unchanged. |
| Grid.SwapTwice | functional/src/board.ts:171-181 | Swapping two on-board positions twice gives the board back. |
| Grid.RemoveTiles | functional/src/board.ts:158-169 | Exactly the listed on-board positions hold `"*"`. Every other tile is unchanged. |
| Grid.RemoveTilesAsSet | functional/src/board.ts:158-169 | Only the set of listed positions matters. Order and repetition do not. |
| Grid.RemoveTilesAppend | functional/src/board.ts:158-169 | Removing `ps` and then `qs` is removing `ps + qs`. |
| Grid.BoardsEqualByColumns | functional/src/board.ts:283-295 | Two boards of the same size with equal columns are equal. |
| Detection.CreateHorizontalMatchPositions | functional/src/board.ts:102-106 | Ensures `matchCount` positions. Detection.HorizontalPositionsSorted states that they are sorted by column and are the listed positions reversed. |
| Detection.CreateVerticalMatchPositions | functional/src/board.ts:108-112 | Ensures `matchCount` positions. Detection.VerticalPositionsSorted states that they are sorted by row and are the listed positions reversed. |
| Detection.HorizontalPositionsSorted | functional/src/board.ts:102-106 | The positions are sorted by ascending column. They are the listed positions `colIndex-1, …, colIndex-matchCount` reversed. |
| Detection.VerticalPositionsSorted | functional/src/board.ts:108-112 | The positions are sorted by ascending row. They are the listed positions reversed. |
| Detection.CreateMatch | functional/src/board.ts:114-125 | The match is on `matchOn` and has `matchCount` positions. |
| Detection.MatchOf | functional/src/board.ts:114-125 | The match of a run is on the run's first tile and lists the run's positions in order along the line. |
| Detection.Line | functional/src/board.ts:195-199 | Tile `k` of line `i` is `piece` at `{row: i, col: k}` for a row, or `{row: k, col: i}` for a column. |
| Detection.ResumeSpec | functional/src/board.ts:195-212 | From any point of the loops, the scan returns what it has pushed, then the rest of the current line, then every later line. |
| Detection.ResumeFromStart | functional/src/board.ts:191-214 | The loops from their start compute the scan of all lines. |
| Detection.LineScanAsRunScan | functional/src/board.ts:198-211 | The matches of one line are the matches of its runs. |
| Detection.RunScanAsRunsFrom | functional/src/board.ts:198-211 | The runs the loop closes are the runs `Runs` reports for that line. |
| Detection.LineMatchesAsRuns | functional/src/board.ts:196-211 | A line's matches are the matches of its maximal runs of 3 or more, in order. |
| Detection.ReportedRunTiles | functional/src/board.ts:191-239 | Every position of a reported match is on the board and holds the matched value. |
| Detection.MatchOfReported | functional/src/board.ts:191-239 | The match of a reported run of line `i` is a reported run that starts on line `i`. |
| Detection.ReportedIsMatchOf | functional/src/board.ts:191-239 | A reported run is the match of a maximal run of its own line. |
| Detection.LineMatchesCorrect | functional/src/board.ts:196-211 | A match is found on line `i` exactly when it is a reported run on line `i`. |
| Detection.ScanFromCorrect | functional/src/board.ts:195-212 | From line `i` on, a match is found exactly when it is a reported run on a line `>= i`. |
| Detection.LineMatchesOrdered | functional/src/board.ts:196-211 | A line's matches come in the order of the scan. |
| Detection.ScanFromOrdered | functional/src/board.ts:195-212 | All matches come line by line in the order of the scan. |
| Detection.ScanCorrect | functional/src/board.ts:191-239 | A match is reported exactly when it is a maximal run of 3 or more equal tiles along the scan direction, given as its sorted positions. Matches come in scan order. |
| Detection.ScanFromEmpty | functional/src/board.ts:195-212 | The scan from line `i` finds nothing exactly when no line `>= i` has three equal adjacent tiles. |
| Detection.FindMatches | functional/src/board.ts:127 | No ensures of its own: the row scan followed by the column scan. Detection.ScanCorrect, Detection.FindMatchesEmpty and Cascade.FoundMatchOnBoard state its meaning. |
| Detection.FindMatchesEmpty | functional/src/board.ts:127 | `findMatches` finds nothing exactly when no row and no column holds three equal adjacent tiles. |
| Detection.GetHorisontalMatches2 | functional/src/board.ts:191-214 | The nested loops return exactly the row scan, `HorizontalMatches`. |
| Detection.GetVerticalMatches | functional/src/board.ts:216-239 | The nested loops return exactly the column scan, `VerticalMatches`. |
| Gravity.HandleFloaters | functional/src/board.ts:297-308 | Ensures a well-formed board of the same size. Gravity.HandleFloatersColumn states which column changes and how. |
| Gravity.ShiftDownTiles | functional/src/board.ts:283-295 | Ensures a well-formed board of the same size. Gravity.ShiftDownTilesSettles and Gravity.ShiftDownTilesKeepsTiles state that every column settles and keeps its tiles. |
| Gravity.HandleFloatersColumn | functional/src/board.ts:297-308 | `handleFloaters(b, p)` changes only `p`'s column. That column becomes the column with the tile at `p` fallen through the `"*"` below it. |
| Gravity.FallSettles | functional/src/board.ts:297-308 | A tile falling onto a settled part of its column leaves that part settled, with the tile on top of the non-`"*"` tiles. |
| Gravity.FloatRowColumn | functional/src/board.ts:285-290 | Visiting row `r` from the right lets each tile of that row fall in its own column. |
| Gravity.FloatRowsSettle | functional/src/board.ts:283-295 | Visiting the rows bottom-up settles every column. |
| Gravity.BackwardIsReverse | functional/src/board.ts:292 | The visiting order is the reversed row-major order of the tiles. |
| Gravity.FloatAllAppend | functional/src/board.ts:285-290 | Visiting `xs + ys` is visiting `xs` and then `ys`. |
| Gravity.FloatRowsAsFloatAll | functional/src/board.ts:283-295 | Visiting row by row is the helper's walk over the reversed tile list. |
| Gravity.ShiftDownTilesAsRows | functional/src/board.ts:283-295 | `shiftDownTiles` is the walk of all rows, bottom-up, right to left. |
| Gravity.ShiftDownTilesSettles | functional/src/board.ts:283-295 | After `shiftDownTiles`, every column is its settled form: its `"*"` on top and its other tiles below in their original order. |
| Gravity.ShiftDownTilesKeepsTiles | functional/src/board.ts:283-308 | Every column is settled and keeps its tiles, their order, its number of `"*"` and its multiset of values. |
| Gravity.ShiftDownTilesOfSettled | functional/src/board.ts:283-308 | A board whose columns have settled is left unchanged. |
| Gravity.ShiftDownTilesIdempotent | functional/src/board.ts:283-308 | Applying `shiftDownTiles` twice is the same as applying it once. |
| Refill.RefillFrom | functional/src/board.ts:242-257 | No ensures of its own: the helper at column `col`. Refill.RefillFromSpec states when it fails, how many values it takes and the board it leaves. |
| Refill.Refill | functional/src/board.ts:241-259 | No ensures of its own: the helper from column 0. Refill.RefillFromSpec at column 0 and Cascade.RefillTakes state its meaning. |
| Refill.FullHasNoHoles | functional/src/board.ts:153 | `boardIsFull` holds exactly when the board has no `"*"`. |
| Refill.TopHoleOfSettled | functional/src/board.ts:241-259 | A settled board that is not full has a `"*"` in its top row. |
| Refill.SkipStep | functional/src/board.ts:243-249 | Passing over a filled top tile brings the helper closer to a top-row `"*"`, so the helper cannot recurse forever on a settled board. |
| Refill.FillColumn | functional/src/board.ts:251-254 | Filling a settled column's top `"*"` and letting it fall puts the value on top of the column's tiles, with one `"*"` less. |
| Refill.FillStep | functional/src/board.ts:251-256 | One fill keeps the board settled and removes exactly one `"*"`. It changes only that column, whose tiles gain the value on top. |
| Refill.HolesFromZero | functional/src/board.ts:153 | No `"*"` from column `c` on means no tile there holds `"*"`. |
| Refill.RefillFromSpec | functional/src/board.ts:241-259 | On a settled board, the refill fails exactly when the generator has fewer values than the board has `"*"`. Otherwise it takes exactly that many values from the front, the board is full, and each column keeps its old tiles at the bottom. |
| Cascade.Rounds | functional/src/board.ts:263-279 | No ensures of its own: the `processMove` helper. Cascade.RoundsSpec and Cascade.RoundStep state what it logs and takes. |
| Cascade.ProcessMove | functional/src/board.ts:261-281 | No ensures of its own: the helper with no effects yet. Cascade.RoundsSpec with no prior effects states that it logs a cascade. |
| Cascade.Move | functional/src/board.ts:62-69 | No ensures of its own. Cascade.MoveRefused, Cascade.DiagonalMoveRefused and Cascade.MoveCascades state how a refused and an allowed move end. |
| Cascade.CanMove | functional/src/board.ts:48-60 | A move is allowed exactly when it is not diagonal and the swapped board has three equal tiles side by side in a row or a column. |
| Cascade.AllPositionsHas | functional/src/board.ts:271 | The flattened positions hold exactly the positions of the matches. |
| Cascade.Cleared | functional/src/board.ts:271-273 | Removing and falling gives a settled board of the same size. |
| Cascade.FoundMatchOnBoard | functional/src/board.ts:127 | Every match `findMatches` reports has 3 or more positions, all on the board and all holding the matched value. |
| Cascade.MatchesLeaveHoles | functional/src/board.ts:268-274 | A round with matches leaves `"*"` to refill, so it takes at least one generator value. |
| Cascade.CascadeEnd | functional/src/board.ts:261-281 | A logged cascade ends on a board of the same size with no three equal tiles in a line. After any round, that board is full and is the board of the last effect. |
| Cascade.RefillTakes | functional/src/board.ts:241-259 | A refill of a settled board with `"*"` gives a full board of the same size and takes values from the front of the generator, at least one. |
| Cascade.RoundStep | functional/src/board.ts:263-278 | A round that ends settled is refilled: the matches are logged, then the refill with its full board, and the helper goes on from there with a shorter generator. |
| Cascade.LoggedRound | functional/src/board.ts:276 | A round appends its match effects and then one refill effect after the effects so far. |
| Cascade.RoundsSpec | functional/src/board.ts:261-281 | The helper keeps the effects it was given. Then it logs a cascade from its board, round by round: one `Match` effect per match in `findMatches` order, then one `Refill` effect with a full board. It takes generator values from the front. |
| Cascade.RoundThenCascade | functional/src/board.ts:263-278 | A round followed by a cascade from the refilled board is a cascade from the board. |
| Cascade.MoveRefused | functional/src/board.ts:62-63 | A move `canMove` refuses returns the same board, no effects, and does not touch the generator. |
| Cascade.DiagonalMoveRefused | functional/src/board.ts:48-49 | A diagonal move is refused: same board, no effects. |
| Cascade.MoveCascades | functional/src/board.ts:62-69 | An allowed move that settles logs the cascade from the swapped board, with at least one round. It ends on a full board of the same size where `findMatches` finds nothing. |
| Cascade.CanMoveAsWritten | functional/src/board.ts:48-60 | As written, a diagonal move is refused. |
| Cascade.AsWrittenThrows | functional/src/board.ts:182-189 | As written, `canMove` throws exactly when the move is not diagonal. |
| Cascade.AsWrittenThrowsOnRowMove | functional/src/board.ts:182-189 | On the row `2 1 2 2`, swapping the first two tiles throws as written, although it lines up three 2s. |
| OoBoard.EventsOfAt | oo/src/board.ts:237-264 | Event `i` is the event of effect `i`: a `Match` event for a match effect, a `Refill` event for a refill. |
| OoBoard.EventsOfRound | oo/src/board.ts:224-229 | The events of a round are the events so far, then one `Match` event per match, then one `Refill` event. |
| OoBoard.FiredRound | oo/src/board.ts:224-229 | The events fired in a round extend the log by that round's effects. |
| OoBoard.MatchEventsAppend | oo/src/board.ts:238-245 | Handling one more match appends its `Match` event. |
| OoBoard.AllPositionsAppend | oo/src/board.ts:238-243 | The positions of one more match are appended. |
| OoBoard.AllFoundOnBoard | oo/src/board.ts:237-246 | Every position a scan reports is on the board. |
| OoBoard.HandleStep | oo/src/board.ts:238-245 | Handling match `k` after matches `0..k-1` removes their positions and logs their events in order. |
| OoBoard.AllowedOnDefined | oo/src/board.ts:92-115 | On a board with no `undefined` tile, `canMove` allows a move exactly when both positions are on the board, the move is not diagonal, and the swap lines up three equal tiles. |
| OoBoard.NextColumn | oo/src/board.ts:253 | After column `col` the pass visits column `(col + 1) % width`. |
| OoBoard.RefillVisit | oo/src/board.ts:253-259 | A visit to a top tile does what the pure `refill` helper does there: pass over a value, fill a `"*"` and let tiles fall, or fail with the generator dry. |
| OoBoard.FullOfTopRow | oo/src/board.ts:251-261 | A settled board whose top row has no `"*"` is full, so a pass that finds no `"*"` ends the refill. |
| OoBoard.RoundOnce | oo/src/board.ts:225-228 | One round either runs the generator dry, and so does the move, or gives a board of the same size. It then takes at least one value, and the pure helper goes on from there. |
| OoBoard.Board.constructor | oo/src/board.ts:39-48 | The new board is `create` of the generator: the given size, filled row-major, and the generator keeps the rest. There are no matches and no events. |
| OoBoard.Board.GenerateBoard | oo/src/board.ts:50-59 | The loops fill the tiles row by row from successive generator values, as `create` does. |
| OoBoard.Board.Piece | oo/src/board.ts:85-90 | `piece` is the lookup of the board value: `undefined` off the board. |
| OoBoard.Board.SetTile | oo/src/board.ts:73-75 | Only the tile at `p` changes. The generator, matches and events do not. |
| OoBoard.Board.SwapTiles | oo/src/board.ts:65-71 | The tiles become the pure `swapTiles` of the old tiles: the two values are exchanged and nothing else changes. |
| OoBoard.Board.IsOutOfBounds | oo/src/board.ts:107-111 | It answers true exactly when a position reads `undefined`. On a board with no `undefined` tile, that means a position is off the board. |
| OoBoard.Board.HandleFloaters | oo/src/board.ts:272-281 | The tiles become the pure `handleFloaters` of the old tiles. |
| OoBoard.Board.ShiftDownTiles | oo/src/board.ts:266-271 | The reverse index loop turns the tiles into the pure `shiftDownTiles` of the old tiles, so every column settles. |
| OoBoard.Board.SettleRow | oo/src/board.ts:266-270 | The loop over one row visits its tiles right to left. |
| OoBoard.Board.RemoveTiles | oo/src/board.ts:283-287 | The tiles become the pure `removeTiles` of the old tiles: exactly the listed positions hold `"*"`. |
| OoBoard.Board.UpdateHorisontalMatches | oo/src/board.ts:195-205 | It appends one match on the value at `(r, c-1)`, with positions `(r, c-n) … (r, c-1)` sorted by column. |
| OoBoard.Board.UpdateVerticalMatches | oo/src/board.ts:207-217 | It appends one match on the value at `(r-1, c)`, with positions `(r-n, c) … (r-1, c)` sorted by row. |
| OoBoard.Board.GetHorisontalMatches | oo/src/board.ts:144-169 | The loops return exactly the row scan of the pure engine. |
| OoBoard.Board.ScanRow | oo/src/board.ts:149-166 | One row of the loop advances the scan by that row. |
| OoBoard.Board.CloseRowRun | oo/src/board.ts:157-165 | Closing a run pushes a match exactly when it has 3 or more tiles. |
| OoBoard.Board.GetVerticalMatches | oo/src/board.ts:171-194 | The loops return exactly the column scan of the pure engine. |
| OoBoard.Board.ScanColumn | oo/src/board.ts:176-191 | One column of the loop advances the scan by that column. |
| OoBoard.Board.CloseColumnRun | oo/src/board.ts:183-190 | Closing a run pushes a match exactly when it has 3 or more tiles. |
| OoBoard.Board.UpdateMatches | oo/src/board.ts:231-236 | `matches` becomes `findMatches` of the tiles. Nothing else changes. |
| OoBoard.Board.HandleMatches | oo/src/board.ts:237-246 | Every position of every match holds `"*"`, and one `Match` event per match is fired, in order. The generator and matches are unchanged. |
| OoBoard.Board.HandleMatch | oo/src/board.ts:238-245 | One match's positions hold `"*"` and its `Match` event is fired. |
| OoBoard.Board.ReplaceTiles | oo/src/board.ts:249-264 | On a settled board it does what the pure `refill` does. It fails exactly when that fails. Otherwise the tiles and the generator end as `refill` leaves them and exactly one `Refill` event is fired. |
| OoBoard.Board.RefillPass | oo/src/board.ts:252-260 | A pass over the top row keeps the pure refill's result. When it filled a `"*"`, fewer `"*"` remain. When it filled none, the board is full and unchanged. |
| OoBoard.Board.VisitTop | oo/src/board.ts:254-259 | A top tile holding `"*"` takes the next generator value and the tiles fall. Any other tile, or a dry generator, leaves everything as it was. |
| OoBoard.Board.CanMove | oo/src/board.ts:92-105 | The answer is the pure `canMove` plus the out-of-board check. The tiles, the generator and the events are left as they were. A diagonal move or a position without a tile leaves `matches` as it was. Otherwise `matches` becomes `findMatches` of the swapped board, which is empty exactly when the move is refused. |
| OoBoard.Board.PlayRound | oo/src/board.ts:225-228 | One pass of the loop is one round of the pure helper: the same board, the same generator values, and the round's events. |
| OoBoard.Board.PlayRounds | oo/src/board.ts:224-229 | The loop ends as the pure `processMove` does: the same board, the same generator values, one event per effect, and no matches left. |
| OoBoard.Board.Move | oo/src/board.ts:219-230 | A refused move changes neither the tiles, the generator nor the events. It leaves `matches` as it was when refused before the scan, and empty when the scan found nothing. An allowed move ends as the pure `move` does: the same board, the same generator values, one event per effect, and `matches` empty. |

## Left out

- The generator is a finite sequence consumed from the front. The generators the two games use never run dry: the pure engine's game draws at random (`RandGenerator`), and the mutable engine's game cycles through `"ABC"` (`SequenceGenerator`). The test generator throws on an empty queue. None of these generators is part of this model. A refill that needs a value the sequence lacks ends the move with `SourceExhausted` (`exhausted` in the class). What the board holds after that is not specified.
- Cascade termination: with an endless generator, `processMove` and `move`'s `do … while` can go on forever. In the model, each round takes at least one value from a finite sequence, so every cascade ends, settled or exhausted. No claim is made for an endless generator.
- Grid.Create and OoBoard.Board.constructor require as many generator values as the board has tiles. The generators the two games use never run dry, and the test generator would throw part-way through filling the board.
- Listeners: `addListener` and `fireEvent` are not modelled. The events they would deliver are appended to the `events` log of the class.
- `console.log` and the broken `getHorisontalMatches` stub are not modelled, except as the as-written half of the finding below. The commented-out `getMatches` is not modelled either.
- The order of the tile list is not modelled. The source keeps a list of `{value, position}` tiles and finds each one by its position. Here the tile at `{row: r, col: c}` is `tiles[r][c]`, and `Positions` lists the positions in row-major order. The in-place `reverse()` of the input board's tile list in `shiftDownTiles` only changes that list order. Every lookup finds its tile by position, so no lookup sees it.
- `getTileByPosition`, `createTempBoard`, `createPosition`, `positionsEqual`, `tileHasValue` and `generateTile` are folded into the functions that use them.
- The `kind: T` string cast in `createEffect`: effects are the datatype `MatchEffect(match) | RefillEffect(board)`.
- Refill.Refill, Refill.RefillFrom and OoBoard.Board.ReplaceTiles require a settled board (every column compact). That holds wherever the source calls them. On a board that has not settled, the source's helper can recurse forever.
- OoBoard.Board.ReplaceTiles requires `0 < height` when `width > 0`. On a board with no rows, the source reads `.value` of a missing tile and throws.
- The nested scan loops, the `shiftDownTiles` row loop and the loop bodies of `handleMatches`, `replaceTiles` and `move` are split into helper methods. These are `ScanRow`, `ScanColumn`, `CloseRowRun`, `CloseColumnRun`, `SettleRow`, `HandleMatch`, `RefillPass`, `VisitTop`, `PlayRound` and `PlayRounds`. They run the same statements in the same order.
- The `sort` in the position builders is modelled as its sorted result. A lemma proves it is the builder's list reversed.
- `init.ts` of both engines is not modelled: it is DOM wiring and the generator classes (`SequenceGenerator`, the test generator `GeneratorFake`, `CyclicGenerator` in the pure engine, and `RandGenerator`, built on `Math.random`).

## Findings

| source | as written | input that shows it | evidently intended | confidence | as-written member | corrected member |
|---|---|---|---|---|---|---|
| functional/src/board.ts:182-189 | `canMove` and `findMatches` call the stub `getHorisontalMatches`, which returns `undefined`. The spread `...hMatches` then throws a `TypeError`, so every move along a row or a column throws. | A 4 × 1 board `2 1 2 2`, swapping `{row: 0, col: 0}` and `{row: 0, col: 1}`, which lines up three 2s. | The complete horizontal scan `getHorisontalMatches2` (lines 191-214), which the rest of the model uses. | not executed | Cascade.AsWrittenThrowsOnRowMove | Cascade.CanMove |
