# Minesweeper board, modelled in Dafny

This project models the game state of a 16x16 Minesweeper program. In the
original, all of it lives in the `Game` class of `Source.cpp`, which an
external 2D engine drives once per frame. The model covers:

- the tile vector: 256 tiles, each with a bomb flag and a state `Hidden`, `Flagged` or `Revealed`;
- the counters `losed`, `won`, `bombCount` and `flagsCount`;
- the constants `bombsLimit = 30` and `flagsLimit = 32`;
- filling the vector and placing the mines at start-up;
- counting the mines around a cell;
- the left-click reveal with its loss sweep;
- the right-click flag and unflag, with the win test and its win sweep;
- the SPACE reset;
- the sprite decision the drawing loop makes for each tile;
- the flags-left number of the HUD.

Files:

- `tiles.dfy` (module `Tiles`): the constants and the `Tile` datatype. It also holds `Count`, the number of tiles satisfying a predicate, with its lemmas. The 3x3 neighbourhood is specified here as a set of cells (`MinedNeighbours`), and so are the two sweeps, as functions (`MinesRevealed`, `HiddenRevealed`).
- `sprites.dfy` (module `Sprites`): the sprite classifier and the 32-bit unsigned flags-left counter.
- `board.dfy` (module `Minesweeper`): class `Board`, the mutable game object. Its field `tiles: seq<Tile>` stands for the `std::vector<Tile>`.
  - The outcomes of the left-button and right-button branches are pure functions (`LeftOutcome`, `RightOutcome`) over a `GameState` value holding `tiles`, `losed`, `won` and `flagsCount`.
  - The click methods and the frame step are proved equal to those functions. The sweeps are proved equal to the functions in `tiles.dfy`.
  - `Board.Valid()` (the predicate `Consistent` on the board's state) requires 256 tiles, exactly 31 of them mined, `flagsCount` equal to the number of Flagged tiles, and `flagsCount <= 33`.
  - The constructor establishes `Valid()`, and `LeftClick`, `RightClick`, `Reset` and `Update` keep it. The building blocks (`FillTiles`, `PlaceMines`, the sweeps) are stated on `tiles` alone.
  - Two parts of the source's functions are separate methods, so that each proof stays small. `CountRow` is the inner loop of `CountNeighbours`, and `FlagTile` is the flagging branch of the right click (`FlagOutcome` is its pure counterpart). The statements they run, and the order they run in, are the source's.

Behaviour of the code that the model keeps as written:

- The placement loop runs `for (i = 0; i <= bombsLimit; i++)`, so 31 mines are placed, not 30.
- `bombCount` is never incremented (it is 0 at start and after reset). The win test `#(mined and flagged) == bombCount && flagsCount == bombCount` runs just after `flagsCount++`, so it never holds. `RightClick` and `Update` prove `bombCount == 0 && !old(won) ==> !won`. The win sweep is still modelled and verified for an arbitrary `bombCount`.
- A Hidden tile can be flagged while `flagsCount <= flagsLimit`, so up to 33 flags can be placed. At 33 the HUD's unsigned `flagsLimit - flagsCount` wraps to 4294967295 (`FlagsLeft`).
- The frame handler copies the pressed tile before handling either button. Suppose both buttons are pressed in one frame on a Hidden tile while `flagsCount <= 32`. The left click reveals the tile. The right click reads the copy, which still says Hidden, and flags the now Revealed tile. The right-button branch also runs in the frame in which the left click lost the game. `Update` passes the copy to `RightClick` and states this outcome.
- Reset is only reached when `losed` holds: the `else if (losed || won)` branch is taken only when `!losed` fails.

Where the code departs from the usual Minesweeper rules, the model follows the code:

- 31 mines rather than 30.
- No win is ever awarded, because the test compares with `bombCount` (always 0) rather than with the number of mines.
- Reset is possible only after a loss, not after a win.
- A right click is still handled in the frame that loses the game.

## Model

| member | source | states |
|---|---|---|
| `Tiles.Index` | Source.cpp:74 | the row-major index `y * nWidth + x` of an in-bounds cell lies in 0..255, and the cell's coordinates are recovered from it by `% 16` and `/ 16` |
| `Tiles.Count` | Source.cpp:151 | the number of tiles satisfying a predicate (the `count_if` of the win test) is at most the number of tiles |
| `Tiles.CountAppend` | Source.cpp:151 | counting a board extended by one tile adds that tile's contribution |
| `Tiles.CountUpdate` | Source.cpp:148-168 | replacing one tile (`SetTile`, `SpawnBomb`) changes a count by exactly the old tile's and the new tile's contributions; this keeps `flagsCount` equal to the number of flagged tiles |
| `Tiles.CountSame` | Source.cpp:135-160 | two boards on which a predicate holds at the same positions have the same count; the sweeps therefore keep the mine count and the flag count |
| `Tiles.CountZero` | Source.cpp:83-84 | a count is 0 exactly when no tile satisfies the predicate (both directions); a freshly filled board has no mine and no flag |
| `Tiles.CountBelowLength` | Source.cpp:90-94 | while fewer than all tiles are mined, some cell is unmined, so the rejection loop has a cell it can accept |
| `Tiles.CountSubset` | Source.cpp:151-152 | if every tile satisfying p also satisfies q, p counts no more than q |
| `Tiles.CountEqualSubset` | Source.cpp:151-152 | if every p-tile is a q-tile and the counts are equal, every q-tile is a p-tile |
| `Tiles.WinTestExact` | Source.cpp:151-152 | when the mined-and-flagged count and the flag count both equal `bombCount`, every flag covers a mine; with `bombCount == 0` no flag may exist at all |
| `Tiles.MinesRevealed` | Source.cpp:134-139 | the loss sweep turns every Hidden mine Revealed and leaves no mine Hidden, moves no mine, leaves every unmined or non-Hidden tile unchanged (flags stay), and keeps the mine and flag counts |
| `Tiles.HiddenRevealed` | Source.cpp:153-160 | the win sweep turns every Hidden tile Revealed and leaves no tile Hidden, moves no mine, leaves every non-Hidden tile unchanged, and keeps the mine and flag counts |
| `Sprites.SpriteOf` | Source.cpp:208-228 | each sprite kind is chosen exactly when its condition holds (Hidden; Revealed and mined; Revealed and unmined; Flagged and wrong iff lost and unmined; Flagged otherwise), and the number is drawn iff the revealed sprite is used and the count is positive |
| `Sprites.LossDrawing` | Source.cpp:213-225 | after the loss sweep every unflagged mine is drawn as a mine, every flag is drawn right or wrong by whether it covers a mine, and an unmined tile is unchanged by the sweep; an unmined tile that is not flagged is drawn as it was while the game was on (an unmined flag turns into the wrong-flag sprite) |
| `Sprites.FlagsLeft` | Source.cpp:245 | `flagsLimit - flagsCount` on 32-bit unsigned integers: the plain difference up to 32 flags, and the difference plus 2^32 beyond |
| `Minesweeper.LeftOutcome` | Source.cpp:124-141 | the left-button branch on tile i. A non-Hidden tile leaves the state unchanged. A Hidden tile ends Revealed, and the game is lost afterwards exactly when it was lost before or the tile is a Hidden mine. Unless the tile is a Hidden mine, no other tile changes. If it is, the board becomes `MinesRevealed` of the old board, so only Hidden mines change. No mine moves and no tile's flagged status changes. `won` and `flagsCount` are kept, and so is the invariant |
| `Minesweeper.FlagOutcome` | Source.cpp:147-162 | the flagging case: the tile ends Flagged and `flagsCount` rises by 1. `won` holds iff the mined-and-flagged count and `flagsCount` both equal `bombCount`. A win makes the board `HiddenRevealed` of the flagged board; without one no other tile changes. No mine moves, `losed` is kept, and `won` is false whenever `bombCount == 0` |
| `Minesweeper.RightOutcome` | Source.cpp:143-170 | the right-button branch on tile i, driven by the copy. Hidden copy with `flagsCount <= 32`: the tile ends Flagged, `flagsCount` rises by 1, and `won` holds iff the mined-and-flagged count and `flagsCount` both equal `bombCount`; a win makes the board `HiddenRevealed` of the flagged board. Flagged copy: the tile ends Hidden, `flagsCount` drops by 1, `won` is kept and no other tile changes. A Revealed copy, or a Hidden copy at 33 flags, changes nothing. Without a win no other tile changes. No mine moves and `losed` is kept. With `bombCount == 0`, `won` never becomes true |
| `Minesweeper.RightOutcomeConsistent` | Source.cpp:146-169 | the right-button branch keeps the invariant (flag count, at most 33 flags, 31 mines) whenever the copy agrees with the current tile on being flagged |
| `Minesweeper.FlagsLeftShown` | Source.cpp:245 | on a consistent board the HUD number is `32 - flagsCount` up to 32 flags, and 4294967295 at 33 flags |
| `Minesweeper.Board.GetTile` | Source.cpp:105-109 | for an in-bounds cell, returns the tile whose column (`% 16`) is x and whose row (`/ 16`) is y; out-of-bounds calls are excluded (undefined behaviour in the source) |
| `Minesweeper.ScannedGrow` | Source.cpp:72-76 | one step of the inner scan loop adds the scanned cell, and no other, to the set of mined cells passed so far exactly when it holds a mine; the cell was not in the set before |
| `Minesweeper.ScannedStep` | Source.cpp:72-76 | one step of the inner scan loop adds the scanned cell to the counted set exactly when it holds a mine |
| `Minesweeper.Board.constructor` | Source.cpp:81-99 | start-up yields a valid board with 31 mines, all tiles Hidden, no flag, `losed == won == false` and `bombCount == 0` |
| `Minesweeper.Board.FillTiles` | Source.cpp:83-84 | the `push_back` loop produces exactly 256 unmined Hidden tiles |
| `Minesweeper.Board.PlaceBomb` | Source.cpp:89-95 | one pass mines one in-bounds cell that held no mine, changes nothing else, and raises the mine count by one |
| `Minesweeper.Board.PlaceMines` | Source.cpp:87-97 | the `i <= bombsLimit` loop mines 31 more distinct cells, keeps every tile's state and every existing mine |
| `Minesweeper.Board.SetTile` | Source.cpp:111-115 | an in-bounds tile gets the new state; any other coordinates leave the board unchanged |
| `Minesweeper.Board.CountNeighbours` | Source.cpp:62-79 | on any board of 256 tiles and for any coordinates, the result equals the number of mined cells in the 3x3 square around (x, y) clipped to the board, centre included, and lies in 0..9; the board is not changed |
| `Minesweeper.Board.CountRow` | Source.cpp:72-76 | the inner loop over one in-bounds row of the clipped square: starting from the count of mined cells scanned before the row, it returns the count including the whole row, at most 3 more; the board is not changed |
| `Minesweeper.Board.RevealMines` | Source.cpp:134-139 | the loop leaves the board equal to `MinesRevealed` of the board before |
| `Minesweeper.Board.RevealHidden` | Source.cpp:156-160 | the loop leaves the board equal to `HiddenRevealed` of the board before |
| `Minesweeper.Board.CountMinedFlagged` | Source.cpp:151 | returns the number of tiles that are both mined and flagged |
| `Minesweeper.Board.LeftClick` | Source.cpp:124-141 | the new state equals `LeftOutcome` of the old state. Flagged or Revealed tile: nothing changes. Hidden unmined tile: only that tile becomes Revealed and `losed` keeps its value. Hidden mined tile: `losed` becomes true and the board becomes `MinesRevealed` of the old board. No tile's flagged status changes, and the invariant is kept |
| `Minesweeper.Board.RightClick` | Source.cpp:143-170 | the new state equals `RightOutcome` of the old state with the given copy. Hidden copy with `flagsCount <= 32`: the tile becomes Flagged, `flagsCount` rises by 1, `won` is the win test and a win applies the win sweep. Flagged copy: the tile becomes Hidden and `flagsCount` drops by 1. Otherwise (a Revealed copy, or a Hidden copy at 33 flags) nothing changes. The invariant is kept, and `won` stays false while `bombCount == 0` |
| `Minesweeper.Board.FlagTile` | Source.cpp:147-162 | flagging, counting, the win test and the win sweep leave the state equal to `FlagOutcome` of the old state |
| `Minesweeper.Board.Reset` | Source.cpp:174-197 | a valid board with a new set of 31 mines, all tiles Hidden, `flagsCount == bombCount == 0` and `losed == won == false` |
| `Minesweeper.Board.Update` | Source.cpp:117-198 | one frame keeps the invariant. While lost, SPACE resets the board and otherwise nothing changes. While not lost, `bombCount` is kept and no reset happens. The new state is `RightOutcome`, driven by the pre-click copy of the tile, applied to `LeftOutcome` of the old state; a button not pressed skips its branch. So a Hidden tile hit by the right button with at most 32 flags ends Flagged, even when the left button revealed it in the same frame. `won` never becomes true while `bombCount == 0` |
| `Minesweeper.Board.TileSprites` | Source.cpp:202-228 | on any board of 256 tiles, for every tile in row-major order, the sprite decision made from the tile, `losed` and the exact neighbour count |

## Left out

- Drawing: `Clear`, `DrawSprite`, `DrawString`, the screen layout (`nTile`, `offsetY`) and the face banner and restart prompt (Source.cpp:200-243). These are calls into the engine. Only the per-tile sprite decision and the flags-left number are modelled.
- Sprite loading (Source.cpp:39-43) and `main`, `Construct`, `Start` (Source.cpp:251-256): file I/O and the engine's lifecycle.
- `srand(time(NULL))` and `rand() % 16` (Source.cpp:86, 92-93, 183, 189-190).
- Minesweeper.Board.PlaceBomb: the `do … while` rejection loop is modelled as a nondeterministic choice of an unmined in-bounds cell. The model does not capture the distribution of `rand`, nor that the loop's termination rests on `rand` eventually hitting an unmined cell.
- Pixel-to-cell conversion (Source.cpp:118, 121-122) goes through floats and truncation toward zero. `Update` takes cell coordinates instead.
- Out-of-bounds cells: `GetTile` returns nothing for them (undefined behaviour, Source.cpp:105-109). `Update` requires in-bounds coordinates whenever the game is not lost, which is the only time the tile is read.
- `std::cout` logging and the unused `fElapsedTime`.
- Integer widths: `bombCount` and `flagsCount` are `unsigned int` in the source and are modelled as `nat`. The invariant bounds `flagsCount` by 33, and the unflag branch only runs when a flagged tile exists, so neither wraps. The one wrap that does happen, in the HUD subtraction, is modelled by `FlagsLeft`.
- The vector is modelled as a sequence value held in a field. In-place mutation through `auto&` references is modelled as replacing that field.
