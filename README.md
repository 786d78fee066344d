# 2048 board engine in Dafny

This project models the board engine of a desktop 2048 game written in
Python (`2048.py`). The engine keeps a square board of integer tiles and a
score counter. 0 marks an empty cell. It provides these operations:

- `move` slides every row's tiles to the left.
- `merge` combines equal neighbours to the left and adds to the score.
- `reverse` and `transpose` reorient the board in place.
- `make_move` reduces every direction to "left" with `reverse` and
  `transpose`, runs slide, merge and slide again, undoes the reorientation,
  and spawns a tile when something changed.
- `spawn_tile` turns one empty cell into a 2 or a 4.
- `create_board` builds a fresh board holding two tiles.
- `is_game_over` reports a full board with no equal neighbours.

The project has three modules:

- `Rows` (`rows.dfy`): the specification of one row. `Compact` is what the
  `move` scan computes. `MergeRow` and `MergeGain` are what the `merge`
  pass writes and scores. `Reversed` is row reversal. Lemmas about them
  live here too.
- `Grids` (`grids.dfy`): the specification of a whole board.
  - `SlideAll`, `MergeAll` and `GridGain` lift the row functions to the board.
  - `ReverseAll`, `Transposed`, `Orient` and `Unorient` reorient it.
  - `SlideMerge` is the leftward step; `MoveBoard` is a complete move before
    the spawn.
  - `GameOver` (2048.py:324-339), `SpawnedFrom` (2048.py:265-272) and
    `TwoTiles` (2048.py:367-371) describe game over, spawning and a new
    board. `MergeGain` (2048.py:296-301) is the score one row's merge pass
    adds.
  - `Tiles` is the multiset of cell values.
  - It also proves the properties the game relies on.
- `Engine` (`engine.dfy`): the imperative engine. The board is an
  `array2<nat>` that the methods update with the same nested loops as the
  Python functions. Class `Game` holds the board and the score. Each
  method's postcondition ties the new board (read as a grid through `Cells`)
  to the specification function of the old board.

To keep each proof small, the inner loops of `move`, `merge` and `reverse`
are separate methods: `MoveRow`, `Game.MergeRowAt` and `ReverseRow`. The
body of `merge`'s inner loop is the method `Game.MergeStepAt`, and the two
writes and the score update of one merge are the method `Game.MergePair`.
`make_move` is also split into its three blocks: `ToLeft`,
`Game.SlideMergeLeft` and `FromLeft`. The loops, their variables (`pos`,
`changed`, `temp`) and the order of the writes are those of the source.

## Model

| member | source | states |
|---|---|---|
| `Rows.Compact` | 2048.py:279-287 | The slid row has the row's length, holds no tile to the right of an empty cell, and holds exactly the row's nonzero tiles in their original order |
| `Rows.CompactFixesCompacted` | 2048.py:281-287 | Sliding leaves a row unchanged exactly when no tile stands behind an empty cell |
| `Rows.CompactUnique` | 2048.py:279-287 | A row of the same length that is compacted and has the same tiles in the same order is the slid row, so the slide result is fully determined |
| `Rows.CompactIdempotent` | 2048.py:275-288 | Sliding a slid row changes nothing |
| `Rows.NonZerosAppend` | 2048.py:280-287 | The tiles of a concatenation are the tiles of each part, in order; the scan relies on this one cell at a time |
| `Rows.NonZerosMembers` | 2048.py:281-286 | A value is among a row's tiles exactly when it is a nonzero value of the row |
| `Rows.CompactFrom` | 2048.py:279-287 | Every value of the slid row is 0 or a value the row already held: the scan only moves tiles and writes 0 |
| `Rows.CompactedSnoc` | 2048.py:281-287 | A longer prefix is still compacted unless its new cell is a tile and an empty cell came before it |
| `Rows.MergeRow` | 2048.py:296-301 | The merged row has the row's length; its other properties are the lemmas below |
| `Rows.MergeConservesSum` | 2048.py:297-299 | A merge pass keeps the sum of the row's tiles |
| `Rows.MergeGainPositiveIff` | 2048.py:296-301 | A merge pass scores for a row exactly when the row has two neighbouring equal nonzero tiles; with no such pair the row is unchanged |
| `Rows.MergeLosesTile` | 2048.py:297-299 | A merge pass never adds tiles, and removes at least one when the row has a pair |
| `Rows.MergeRowOrigin` | 2048.py:296-300 | Each cell of the merged row is empty, keeps the value it had, or is the double of an equal nonzero pair that starts at that cell |
| `Rows.LeftStepFrom` | 2048.py:350-355 | After slide, merge and slide on a row, every value is 0, a value of the row, or the double of one |
| `Rows.MergeStarts` | 2048.py:295-296 | Proof step of the pass over a row: the pass state holds before the loop starts, with no cell final, the whole row still to scan and nothing scored |
| `Rows.MergeStepPair` | 2048.py:297-300 | A step whose current cell is a nonzero tile equal to its right neighbour makes the doubled value final, adds it to the gain, and leaves the emptied neighbour first in the part still to scan. The final part plus the merge of the part still to scan is still the merged row |
| `Rows.MergeDone` | 2048.py:296-301 | Proof step of the pass over a row: once one cell is left to scan, the final part followed by that cell is the merged row and the gain is the row's score |
| `Rows.MergeStepSkip` | 2048.py:296-297 | A step that does not merge makes the current cell final as it is and adds nothing to the gain |
| `Rows.MergeRowEmptyFirst` | 2048.py:297 | An emptied cell never merges with its right neighbour in the same pass |
| `Rows.MergeFourTwos` | 2048.py:296-300 | The compacted row [2,2,2,2] merges to [4,0,4,0] and scores 8: a cell emptied by a merge is not merged again |
| `Rows.GapThenMergeRows` | 2048.py:350-355 | [2,0,2,0] slides to [2,2,0,0], merges to [4,0,0,0] for 4 points, and a second slide leaves that row as it is |
| `Rows.EmptyRowStays` | 2048.py:350-355 | The empty row [0,0,0,0] slides, merges and slides to itself and scores nothing |
| `Rows.ReversedTwice` | 2048.py:305-311 | Reversing a row twice gives it back |
| `Rows.ReversedKeepsTiles` | 2048.py:305-311 | Reversing a row keeps its multiset of values |
| `Grids.SlideAllFixesSlid` | 2048.py:275-288 | `move` changes the board exactly when some row has a tile behind an empty cell |
| `Grids.SlideAllIdempotent` | 2048.py:275-288 | After one `move` no row has a tile behind a gap, so a second `move` reports no change and changes nothing |
| `Grids.GridGainPositiveIff` | 2048.py:291-302 | `merge` adds to the score exactly when some row has two neighbouring equal nonzero tiles; without one it changes no cell and adds nothing |
| `Grids.AnyPairPrefix` | 2048.py:295-301 | After row i, `changed` is true exactly when some row up to i had a pair |
| `Grids.GridGainPrefix` | 2048.py:295-300 | After row i, the score has grown by the gains of the rows up to i |
| `Grids.SlideMerge` | 2048.py:350-355 | On a square board, whose rows are scanned across the board's width, the leftward step keeps the board's shape |
| `Grids.SlideMergeNoChange` | 2048.py:350-355 | If neither the slide nor the merge reports a change, the leftward step leaves every cell as it was and scores nothing |
| `Grids.SlideMergeChanged` | 2048.py:350-355 | If the leftward step reports a change, the board differs and has an empty cell |
| `Grids.MoveBoard` | 2048.py:342-360 | A move keeps the board square and of the same size |
| `Grids.MoveBoardChange` | 2048.py:342-363 | A move reports a change exactly when it changes the board; a move without change scores nothing; a move with change leaves room for the spawned tile |
| `Grids.Transposed` | 2048.py:314-320 | The transpose of a square board is square |
| `Grids.Orient` | 2048.py:345-348 | The reorientation before the leftward step keeps the board square |
| `Grids.Unorient` | 2048.py:357-360 | The reorientation after the leftward step keeps the board square |
| `Grids.ReverseAllTwice` | 2048.py:305-311 | `reverse` applied twice restores the board |
| `Grids.TransposedTwice` | 2048.py:314-320 | `transpose` applied twice restores the board |
| `Grids.UnorientOrient` | 2048.py:345-360 | Undoing the reorientation after applying it restores the original orientation for every direction |
| `Grids.OrientUnorient` | 2048.py:345-360 | Applying the reorientation after undoing it also restores the board, so the reorientation is a bijection |
| `Grids.UnorientKeepsEmpty` | 2048.py:357-360 | Undoing the reorientation keeps an empty cell |
| `Grids.SlideMergeFormed` | 2048.py:350-355 | The leftward step brings no new value: each cell is empty, a value the board held, or the double of one |
| `Grids.ReverseAllValues` | 2048.py:305-311 | `reverse` brings no new value onto the board |
| `Grids.TransposedValues` | 2048.py:314-320 | `transpose` brings no new value onto the board |
| `Grids.OrientValues` | 2048.py:345-360 | Neither the reorientation nor its undoing brings a new value onto the board |
| `Grids.MoveFormed` | 2048.py:342-360 | Every cell of a moved board is empty, holds a value the board held before the move, or holds the double of such a value |
| `Grids.SpawnKeepsFormed` | 2048.py:265-272 | On a board whose cells are all formed from a set of values, a spawn keeps the board's shape and fills one cell that was empty with 2 or 4; every other cell keeps its value and so stays formed from that set |
| `Grids.MoveThenSpawnFormed` | 2048.py:342-363 | After a move and its spawn, one cell holds 2 or 4 and every other cell is empty, an old value, or the double of one |
| `Grids.ReverseAllKeepsTiles` | 2048.py:305-311 | `reverse` keeps the multiset of cell values |
| `Grids.TransposedKeepsTiles` | 2048.py:314-320 | `transpose` keeps the multiset of cell values |
| `Grids.BlockByColumns` | 2048.py:314-320 | Counting cells row by row or column by column gives the same multiset |
| `Grids.GameOverBlocksEveryMove` | 2048.py:322-339 | On a board that is over, no direction changes anything: no merge is possible |
| `Grids.GameOverTransposed` | 2048.py:332-337 | The game-over condition is symmetric under transposition, because rows and columns are both checked |
| `Grids.GameOverReverseAll` | 2048.py:332-337 | The game-over condition is symmetric under reversing the rows |
| `Grids.GapThenMergeExample` | 2048.py:342-360 | On the 4x4 board whose top row is [2,0,2,0] and whose other rows are empty, a move left gives top row [4,0,0,0] with the other rows still empty, scores 4 and reports a change |
| `Grids.FullCheckerboardIsOver` | 2048.py:324-339 | The full board [[2,4],[4,2]] is over |
| `Grids.TwoSpawns` | 2048.py:367-371 | Two spawns on an empty board, the second on a cell still empty, leave exactly two tiles, each 2 or 4 |
| `Engine.Move` | 2048.py:275-288 | Every row becomes its slid row; the result is true exactly when some row had a tile behind an empty cell |
| `Engine.MoveRow` | 2048.py:279-287 | The scan with `pos` turns row i into its slid row, touches no other row, and reports whether row i was uncompacted |
| `Engine.Game.Merge` | 2048.py:291-302 | Every row becomes its merged row; the score grows by exactly the doubled values written; the result is true exactly when some row had a pair |
| `Engine.Game.MergeRowAt` | 2048.py:296-301 | The pass over row i merges that row, adds its gain to the score, touches no other row, and reports whether row i had a pair |
| `Engine.Reverse` | 2048.py:305-311 | The swaps leave every row reversed |
| `Engine.ReverseRow` | 2048.py:308-311 | The swaps from both ends leave row i reversed and touch no other row |
| `Engine.Transpose` | 2048.py:314-320 | The swaps below the diagonal leave the board transposed |
| `Engine.IsGameOver` | 2048.py:324-339 | The result is true exactly when no cell is 0 and no two horizontally or vertically neighbouring cells are equal |
| `Engine.SpawnTile` | 2048.py:265-272 | On a board with an empty cell, exactly one empty cell becomes 2 or 4 and every other cell is unchanged |
| `Engine.CreateBoard` | 2048.py:367-371 | For size at least 2, a fresh size x size board with exactly two tiles, each 2 or 4 |
| `Engine.ToLeft` | 2048.py:345-348 | The board becomes its reorientation for direction d |
| `Engine.FromLeft` | 2048.py:357-360 | The board becomes its reorientation undone for direction d |
| `Engine.Game.MergeStepAt` | 2048.py:297-301 | One step at column j: the pass state advances by one cell, the score grows by exactly the step's gain, the result says whether the step merged, and no other row changes |
| `Engine.Game.MergePair` | 2048.py:298-300 | Cell j is doubled, cell j+1 is emptied, the score grows by the doubled value, and no other cell changes |
| `Engine.Game.SlideMergeLeft` | 2048.py:350-355 | The board, score and change flag become those of the leftward step of the old board |
| `Engine.Game.MakeMove` | 2048.py:342-363 | The score grows by the move's gain. A move that changed something leaves the moved board with one empty cell turned into 2 or 4. A move that changed nothing leaves every cell and the score as they were, and spawns no tile |
| `Engine.Game.constructor` | 2048.py:382-383 | A new game, as in the setup before the event loop and in the loop's new-game branch (2048.py:416-417): a fresh board with exactly two tiles of 2 or 4, and score 0 |

## Left out

- The `Layout` class (2048.py:32-259) is not part of this model: window
  geometry in floating point, fonts, colours and pygame surfaces.
- The per-size high-score table is not part of this model. It is updated
  inside a rendering method and keeps the maximum of the old value and the
  current score for each size.
- The pygame setup and event loop (2048.py:373-429) are not part of this
  model: window creation, key dispatch, the game-over check run only on
  mouse clicks, and its `print`. Only the creation of a new game, at
  2048.py:382-383 and in the new-game branch at 2048.py:416-417, is
  modelled, by `Engine.Game.constructor`.
- `layout.update_score_text()` in `make_move` is a display side effect and
  is not modelled.
- Engine.SpawnTile: the random choice is nondeterministic. The cell and the
  2-or-4 value are chosen nondeterministically instead of by the retry loop
  over uniform random cells and the 90/10 odds. Only "some empty cell, 2 or
  4" is captured. The method requires an empty cell because the retry loop
  never ends on a full board.
- Engine.CreateBoard: requires size at least 2. For size 0 the Python
  raises from `random.randint(0, -1)`. For size 1 the second spawn loops
  forever. These paths are not modelled.
- Directions are the datatype `Dir` with four values. A direction string
  other than 'u', 'd' or 'r' behaves as left, so `Dir` has no error case.
  The event loop only ever passes 'u', 'd', 'l' and 'r'.
- Tiles are unbounded naturals, as Python integers are. The invariant that
  every tile is a power of two is not stated.
- The board is an `array2`, so rows cannot alias. In the source every row
  is a distinct list built by the comprehension in `create_board`.
- `make_move` returns nothing, so its `changed` flag is internal here too.
  The board it leaves is what the postcondition describes.
- Grids.MoveFormed: at board level the origin of a value is stated as an
  old value or the double of one. That the doubled value came from two
  neighbouring equal tiles of the same row is stated per row, by
  `Rows.MergeRowOrigin`, and is not carried through the reorientation.
- Grids.SlideMerge: requires a square board, because `move` and `merge`
  scan each row across `len(board)` cells; a non-square board is never
  built by `create_board`.
