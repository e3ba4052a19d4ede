# Tetris 2048: the committed board, the merge pass and the best-score file

A Dafny model of the game logic of a Tetris variant in which every block is a numbered
2048 tile. Three parts of the program are modelled:

- **The committed board** (`game_grid.py`, module `GameGrid`). This is an H×W matrix of
  optional tiles, with row 0 at the bottom, plus the score and a game-over flag that is
  never reset. The module covers:
  - the bounds and occupancy queries;
  - `update_grid`, which locks a landed piece tile by tile at its bottom-left anchor;
  - `clear_tiles`, which removes full rows and credits the numbers on them to the score.
    Module `Settling` gives the board it leaves in closed form (`Settled`). The rows below
    the top row that are not full keep their order at the bottom. Then:
    - if the top row is not full, one empty row per removed row follows, and the top row
      stays on top;
    - if the top row is full and some other row was full too, empty rows fill the rest;
    - if only the top row is full, the empty row goes in just below the highest kept row,
      which ends up on top.

    The scan itself is proved to reach exactly that board.
- **The 2048 pass** (`tile.py`, modules `Tiles` and `TileMerge`). Tiles are modelled by
  their numbers. A tile the program builds carries a power of two from 2 to 2048; the
  model's cells hold any natural number, and the accounts say when tile numbers stay tile
  numbers. `merge_matches` doubles a
  tile that meets an equal partner below 2048. `merge_tiles` makes one pass over the
  board, columns outer and rows bottom to top, and at each cell:
  - collapses an equal vertical pair into the lower cell;
  - shifts the rest of the column down;
  - lets a tile with four empty neighbours fall one row.

  The pass is defined twice:
  - as pure functions (`Visit`, `ColumnSweep`, `Sweep`, `MergePass`), which are the
    reference;
  - as methods whose loops mirror the program (`ShiftColumn`, `VisitCell`, `MergeTiles`),
    proved equal to the reference.
- **The best-score file** (`Tetris_2048.py`, module `BestScore`). `save_best_score` writes
  the score as its binary numeral, zero-padded to at least 32 digits, cut into 8-digit
  chunks and stored one byte per chunk. `read_best_score` expands each byte back into 8
  digits and parses the digits in base 2. The file is modelled as `Option<seq<byte>>`,
  with `None` for a missing file.

  The codec is proved against an independent big-endian definition:
  - every score below 2^32 is stored as exactly its 4-byte big-endian form and reads back
    unchanged;
  - a score whose numeral has more than 32 digits reads back unchanged exactly when the
    numeral is a whole number of bytes long. Otherwise the short last chunk reads back with
    zeros in front of it, so the score reads back larger. Every score from 2^32 to 2^33-1 is
    such a score.

Shared pieces:
- `Options` holds the `Option` and `Result` types.
- `Matrices` holds the tile matrix and the weighted totals that state conservation:
  - `Count`, the number of tiles;
  - `Sum`, the sum of their numbers.

Four behaviours of the program that a reader might not expect are modelled as written:
- After a full row is deleted, `np.insert(.., -1, None, 0)` puts the new empty row second
  from the top, not on top, so the former top row stays on top (`RemoveRow`). When the
  top row is the only full row, the row below it therefore ends up on top, with the empty
  row under it (`FullTopRowLeavesLowerRowOnTop`).
- Two stacked 2048 tiles are not doubled, but the upper one is still deleted, with nothing
  credited (`CappedPairCollapses`).
- At the top row the lookup of the row above raises an `IndexError` that is ignored, so no
  merge is attempted there (`PairAt`).
- The `row -= 1` and `row += 1` statements inside the `for` loop of `merge_tiles` have no
  effect, so each cell is visited exactly once.

## Model

| member | source | states |
|---|---|---|
| Tiles.TileNumbersAreColorKeys | utils.py:3-48 | A number can be carried by a tile (a power of two from 2 to 2048) exactly when it is a key of the colour table, so the colour lookup never misses. |
| Tiles.SpawnNumber | tile.py:17-20 | A new tile carries 2 or 4, both valid tile numbers. |
| Tiles.MergeMatches | tile.py:61-76 | The partner is absorbed exactly when the two numbers are equal and below 2048. Then the tile becomes the sum, and the same value is returned for the score. Otherwise both numbers are untouched and 0 is returned. Tile numbers stay tile numbers. |
| Tiles.DoubledTileNumber | tile.py:63-65 | Doubling a tile number below 2048 gives a tile number. |
| GameGrid.NewGrid | game_grid.py:15-45 | A new board has the requested dimensions, every cell is empty, no tile is counted, the score is 0 and the game is not over. |
| GameGrid.IsInside | game_grid.py:170-175 | True exactly when 0 <= row < height and 0 <= col < width. |
| GameGrid.IsOccupied | game_grid.py:160-166 | False for every cell off the board. On the board it is true exactly when the cell holds a tile. |
| GameGrid.UpdateGrid | game_grid.py:180-199 | Each piece tile (r, c) is written to board cell (blc.y + rows-1-r, blc.x + c) when that cell is on the board, whatever it held before. Every other cell keeps its contents. The flag ends up set exactly when it was set before or some tile landed off the board. In-bounds tiles are locked even then. The returned value is the flag, and score and dimensions are unchanged. |
| GameGrid.RemoveRow | game_grid.py:210-212 | Rows below r stay in place and the rows above r move down one index. An empty row goes in at index H-2, and the old top row stays at H-1 unless r was the top row. The shape is kept. |
| GameGrid.RemoveRowTotal | game_grid.py:210-212 | Removing a row takes exactly that row's weight off the matrix. |
| GameGrid.RemoveRowFullRows | game_grid.py:210-212 | Removing a full row from a board with at least one column leaves exactly one full row fewer, because the inserted row is empty. |
| Matrices.NoFullRows | game_grid.py:206 | A matrix has no full row exactly when none of its rows is full. |
| GameGrid.RemoveFullRow | game_grid.py:206-212 | Removing a full row removes one full row, its sum, and one tile per column. |
| GameGrid.ClearTiles | game_grid.py:202-214 | The loop terminates. The rows removed are exactly the full rows of the input, bottom to top, and the score grows by exactly the sum of their numbers. The board left is the closed form `Settled` of the input. The rows below the top that are not full keep their order at the bottom. If the top row is not full, one empty row per removed row follows and the top row stays on top. If the top row and some other row are full, empty rows fill the rest. If only the top row is full, the empty row goes in just below the highest kept row, which ends up on top. No full row is left and the dimensions are kept. Score plus the numbers on the board is conserved, and one tile per column leaves per removed row. With no full row nothing changes. |
| GameGrid.ClearStep | game_grid.py:205-214 | One turn of the loop: a full row at the index is credited with its numbers, appended to the rows removed, and removed from the board as `RemoveRow` does, while the index stays, and otherwise the board and score are kept and the index moves up. Either way the scan still heads for `Settled` of the input and the rows removed so far lead the input's full rows. |
| Settling.SettledNoFullRow | game_grid.py:206-214 | The board the clearing leaves has no full row, so the loop's exit is where no full row remains. |
| Settling.SettledUnchanged | game_grid.py:206-214 | A board without a full row is its own settled board: clearing it changes nothing. |
| Settling.FullOnesFull | game_grid.py:206 | The rows taken as removed are all full, and the rows kept are all not full. |
| Settling.ClearsBottomRow | game_grid.py:206-214 | On the board 2 2 / 4 _ / _ _ (bottom row first) only the bottom row is removed, the 4 drops to the bottom row, and 4 is credited. |
| Settling.FullTopRowLeavesLowerRowOnTop | game_grid.py:210-212 | When only the top row of a two-row board is full, the empty row goes in at the bottom and the lower row moves to the top. |
| TileMerge.ShiftDown | tile.py:91-94 | The shifting loop from index k keeps the shape and changes nothing outside the column and nothing below row k-1. |
| TileMerge.ShiftDownShifts | tile.py:89-94 | After the upper cell of a pair is emptied, the shifting loop moves every cell above it down one row in the same column, in order, and leaves the top cell empty. Nothing else changes. |
| TileMerge.ShiftDownKeepsTotal | tile.py:91-94 | The shifting loop neither creates nor loses tiles or numbers. |
| TileMerge.PairAt | tile.py:87-96 | A pair is found at (row, col) exactly when the row is not the top row, the cell holds a tile and the cell above holds the same number. At the top row the lookup of the row above fails and is ignored, so no pair is found. |
| TileMerge.MergeAt | tile.py:87-96 | A merge happens at (row, col) exactly when it and the cell above hold equal numbers, which never happens at the top row. The lower cell then gets `merge_matches`' result and the score gains its return value. The column above closes the gap. Without a pair nothing changes. |
| TileMerge.MergeAtAccounts | tile.py:87-94 | A merge takes exactly one tile off the board and keeps the sum of numbers below the cap. At the cap it loses one 2048. |
| TileMerge.CappedPairCollapses | tile.py:61-89 | Two stacked 2048s leave one 2048 below, credit nothing and lose one tile. |
| TileMerge.Falls | tile.py:98-106 | The tile at (row, col) falls exactly when it is not in row 0, the cell below is empty, and each of the other three neighbours is empty or off the board. |
| TileMerge.Drop | tile.py:107-108 | The tile moves to the cell below, its cell is emptied, and no other cell changes. |
| TileMerge.FallAt | tile.py:98-108 | A tile outside row 0 whose four neighbours are empty (off-board counts as empty) moves exactly one row down, and nothing else changes. Otherwise the matrix is unchanged. Tile count and sum are kept. |
| TileMerge.Visit | tile.py:83-110 | Visiting one cell keeps the shape and changes no other column. The score never falls, and the log grows by at most the one pair merged, and by one whenever the score rose. |
| TileMerge.ColumnSweep | tile.py:82-110 | The row loop over the first rows of one column changes no other column and never lowers the score. |
| TileMerge.Sweep | tile.py:81-110 | The column loop over the first columns leaves every later column unchanged and never lowers the score. |
| TileMerge.MergePass | tile.py:79-110 | A whole pass keeps the shape and the tile numbers. The score grows by the sum of `merge_matches`' results, the tile count falls by one per merged pair, and the sum of numbers falls only by pairs merged at the cap. |
| TileMerge.VisitAccounts | tile.py:83-110 | Visiting one cell keeps the shape and the tile numbers. The score grows by what `merge_matches` returns, a merge takes one tile off the board, and the sum of numbers falls only by a merge at the cap. |
| TileMerge.ColumnSweepAccounts | tile.py:82-110 | Visiting any number of cells of a column from the bottom up keeps those accounts. |
| TileMerge.SweepAccounts | tile.py:81-110 | Sweeping any number of columns from the left keeps those accounts. |
| TileMerge.ShiftColumn | tile.py:91-94 | The in-place shifting loop computes the reference shift. |
| TileMerge.VisitCell | tile.py:83-110 | The in-place body of the row loop computes the reference visit of one cell. |
| TileMerge.SweepColumn | tile.py:82-110 | The in-place row loop over one column computes the reference sweep of that column. |
| TileMerge.MergeTiles | tile.py:79-111 | The in-place pass equals the reference pass and keeps the shape. The returned score is the input plus the merge gains. The tile count falls by exactly one per merged pair, the sum falls only by pairs merged at the cap, and tile numbers stay in the colour table. |
| TileMerge.StackedTwosMerge | tile.py:87-94 | Two stacked 2s become one 4 at the bottom and score 4. |
| TileMerge.CascadeFirstPass | tile.py:87-94 | A doubled tile is not compared again within the same pass: 2, 2, 4 becomes 4, 4 after one pass. |
| TileMerge.CascadeSecondPass | tile.py:87-94 | The next pass merges the two 4s into an 8. |
| TileMerge.IsolatedTileFallsOneRow | tile.py:98-108 | A single 2 at the top of an otherwise empty 3×1 column falls one row in a pass, to the middle row, not to the bottom. |
| BestScore.DecodeIsBigEndian | Tetris_2048.py:410-418 | Reading a non-empty file gives the big-endian value of its bytes, each byte contributing 8 zero-padded digits. An empty file fails to parse. |
| BestScore.UnpackBitsValue | Tetris_2048.py:411-417 | The joined digit string has 8 digits per byte and is worth the big-endian value of the bytes. |
| BestScore.PrintParse | Tetris_2048.py:376-377 | Printing a parsed digit string back at its own width restores it, leading zeros included. |
| BestScore.UnpackPack | Tetris_2048.py:386-389 | Cutting a digit string of whole bytes into bytes and expanding them again gives back the digit string. |
| BestScore.RoundTrip | Tetris_2048.py:385-390 | A score below 2^32 is written as exactly 4 bytes and reads back unchanged. |
| BestScore.EncodeIsBigEndian | Tetris_2048.py:385-390 | A score below 2^32 is written as its 4-byte big-endian form. |
| BestScore.ParseBits | Tetris_2048.py:380-389 | `int(bits, 2)`: the value of a digit string is below 2 to the power of its length. |
| BestScore.Binary | Tetris_2048.py:377 | `bin(n)[2:]`: at least one digit, worth n, starting with 1 unless n is 0. |
| BestScore.RJust | Tetris_2048.py:377-385 | `.rjust(width, '0')` and the 32-digit padding: zeros in front of the digits up to the width, and a longer string left as it is. |
| BestScore.Format32 | Tetris_2048.py:385 | The padded numeral is worth the score. It is 32 digits long below 2^32, and from 2^32 on it is the bare numeral, longer than 32 digits. |
| BestScore.PackBytes | Tetris_2048.py:387-389 | The chunking loop gives one byte per 8 digits, rounding up for a short last chunk. |
| BestScore.EncodeScore | Tetris_2048.py:385-389 | The bytes written are at least 4, and exactly 4 when the score is below 2^32. |
| BestScore.ByteBits | Tetris_2048.py:414-415 | Each byte expands to 8 digits worth the byte. |
| BestScore.UnpackBits | Tetris_2048.py:411-416 | The reading loop builds 8 digits per byte. |
| BestScore.DecodeScore | Tetris_2048.py:410-418 | Parsing fails exactly on an empty file. Otherwise the value read is below 2^(8 × the byte count). |
| BestScore.EncodeDecode | Tetris_2048.py:385-389 | Every score reads back as a value at least as large as itself. The value equals the score exactly when the padded numeral is a whole number of bytes long. |
| BestScore.RoundTripExactly | Tetris_2048.py:385-389 | A score reads back unchanged exactly when it is below 2^32 or its numeral is a whole number of bytes long. |
| BestScore.ThirtyThreeDigitScoresGrow | Tetris_2048.py:385-389 | Every score from 2^32 to 2^33-1 has a 33-digit numeral, so its last chunk is one digit long and reads back padded with zeros: the value read back is larger than the score. |
| BestScore.ReadBestScore | Tetris_2048.py:404-421 | Reading gives 0 without a file and the big-endian value of the bytes otherwise. It fails exactly for an empty file. |
| BestScore.SaveBestScore | Tetris_2048.py:367-401 | Saving fails exactly for an empty file. Without a file, or with a smaller stored score, the bytes written are exactly the encoding of the new score. Otherwise the file is left byte for byte as it was. The stored value never decreases and becomes at least the new score. It is exactly the larger of the two when the new score is below 2^32. |

## Left out

- Drawing, menus and screens (`display`, `draw_grid`, `draw_info`, `Tile.draw`, the pause, menu and game-over screens) are presentation only. The mouse hit-tests in `draw_info` that set the game-over flag are input, not logic.
- Piece movement, rotation, hard drop, the ghost piece and the main loop's locking sequence depend on `tetromino.py`, which is not part of this model. `UpdateGrid` takes the trimmed tile matrix and the bottom-left anchor as inputs.
- Randomness is a parameter: the 2-or-4 choice of a new tile (`SpawnNumber`) and the piece type.
- File-system calls (`os.path.exists`, `open`, reads and writes) are not modelled. A file is its optional byte content, and `SaveBestScore` returns the content the file holds afterwards.
- Colour values and display offsets in `utils.py` are presentation data. Only the key set of the colour table is modelled.
- Floating-point arithmetic in the speed slider of `prepare_screen` is left out, as is the restart recursion of `start()`.
- ClearTiles: requires a board with at least one row and one column (`Grid.Valid`), and at least two rows when some row is full (`Scannable`). With zero columns every row counts as full and the loop never ends. On a one-row board a full row leaves `np.insert` nothing to insert into, so it raises.
- UpdateGrid: requires a piece with at least one row, because the program reads the width off `tiles_to_lock[0]`.
- MergeTiles: requires a board with at least one row, because the program reads the width off `tile_matrix[0]`. It also gives a result for boards holding numbers that are not tile numbers, where the program raises: `merge_matches` calls `update_color`, whose colour lookup raises `KeyError` for a number outside the colour table, and `merge_tiles` catches only `IndexError`. Such boards cannot arise, since new tiles carry 2 or 4 and merges keep tile numbers (`MergeTiles` ensures `HoldsTileNumbers` is kept).
- MergeMatches: gives a result for any pair of numbers, while the program raises `KeyError` after a merge whose new number is not in the colour table. For tile numbers the result is always in the table (`DoubledTileNumber`), so the raise is unreachable.
- IsOccupied: requires a well-formed board (`Grid.Valid`), which every board built by `NewGrid` with nonzero dimensions is.
- SaveBestScore: states the exact larger-of-the-two value only for new scores below 2^32. From 2^32 on, it states the proved lower bound, because the stored value can then read back larger (see `EncodeDecode`).
