# MixedFood games — a verified Dafny model

This project models the game logic of four browser games from the MixedFood
collection and proves properties of that logic.

- **Tetris.** The engine in `tetris/main.js` is modelled once. `assets/js/tetris.js`
  is a compacted copy of the same engine.
  - Pieces, rotation states and wall kicks live in `tetris_pieces.dfy`.
  - Scoring, levels and fall speed live in `tetris_progression.dfy`.
  - The 20 x 10 board, collision, drop distance, locking and line clearing live in `tetris_board.dfy`.
  - The 7-bag randomizer lives in `tetris_bag.dfy`.
  - The game object lives in `tetris_game.dfy`. Its state is the board, the piece in play, the five-piece preview queue, the bag, score, lines, level, drop timer and run flags.
  - The game object's methods are spawn, move, rotate, soft drop, hard drop, lock, clear, the frame-loop tick, pause and start.
- **Minesweeper** (`assets/js/minesweeper.js`, file `minesweeper.dfy`).
  - The field is 9 x 9 with 10 mines.
  - Field creation places mines at random and then numbers every other cell.
  - A click reveals a cell. The first click is never a mine.
  - A zero opens its surroundings by flood fill.
  - The game has a reveal win and a flag win. Toggling a flag is modelled.
- **Quantum Attack** (`assets/js/quantum-attack.js`, file `quantum_attack.dfy`).
  - The grid is 8 x 16. A two-wide frame moves along it and can be switched between its top and bottom position.
  - A swap exchanges the two blocks under the frame.
  - Runs of three or more equal blocks in a column are cleared and scored.
  - Gravity packs each column down. New rows push the grid up, and a filled top row ends the game.
  - The game has a title, playing, paused and game-over state, and a timed update.
- **Snake** (`assets/js/snake.js`, file `snake.dfy`).
  - The board is 20 x 20.
  - Arrow keys steer the snake but cannot reverse it.
  - A move ends the game at a wall or on the snake's own body. Otherwise the snake grows when it eats and keeps its length when it does not.
  - Apples are placed on free cells: up to three at the start, and up to ten on the board after eating.

## How the model is shaped

- Objects whose fields the JavaScript updates in place are Dafny classes: the Tetris game, the Minesweeper game, the `QuantumAttack` class and the Snake game.
  - Their methods carry `modifies` frames and state the new value of every field they may change. Where the new value comes from a random choice or from the Minesweeper flood, they state the properties every possible value has instead.
  - Loops in the source are `while`/`for` loops with invariants.
  - Pure rules are functions and predicates with lemmas about them. These rules are collision, kicks, line clearing, run detection, gravity and steering.
- Randomness becomes nondeterministic choice (`:|`). A proved property therefore holds for every random outcome. The random sources are:
  - the bag shuffle;
  - mine placement;
  - block colours;
  - apple cells and apple counts.
- Clocks are parameters: the frame time `now` in Tetris and `deltaTime` in Quantum Attack.
- Integer arithmetic is unbounded. The Tetris drop-speed curve `floor(1000 * 0.85^(level-1))` is modelled exactly as `floor(1000 * 17^k / 20^k)`. Frame timestamps are modelled as whole milliseconds (see "Left out").
- Where the two Tetris copies differ, the model follows `tetris/main.js`:
  - Its `softDrop` ignores the key when no piece is in play.
- In both copies, `hardDrop` locks only when the piece can fall at least one row (`tetris/main.js:318`, `assets/js/tetris.js:241`). A hard drop from a resting position does nothing, whereas a reading of the game's description might expect it to lock. The model keeps this.
- Snake's `randomFoods` computes its count as `min(3, max(1, r, free))`, where `free` is the number of free cells. That count is three whenever three cells are free, and may exceed `free` when fewer are (free = 1 and r = 3 give 3). The pick loop also stops when the free list runs out, so the number of apples returned is `min(3, free)` whatever `r` is drawn, despite the comment promising one to three apples. The model keeps the code's behaviour, and `Snake.PickFoods` states the exact count.

## Model

| member | source | states |
|---|---|---|
| TetrisPieces.Shape | tetris/main.js:41-84 | every piece in every rotation has four cells, each offset within -1..2 of the anchor |
| TetrisPieces.ShapeCellsDistinct | tetris/main.js:41-84 | the four cells of a shape are pairwise different, so a piece always covers four squares |
| TetrisPieces.Turn | tetris/main.js:283 | a positive direction turns clockwise (3 wraps to 0); any other turns anticlockwise (0 wraps to 3) |
| TetrisPieces.FourTurnsIdentity | tetris/main.js:283 | four turns in the same direction return to the starting rotation |
| TetrisPieces.TurnBack | tetris/main.js:283 | a clockwise turn followed by an anticlockwise one, or the reverse, is the identity |
| TetrisProgression.LinePoints | tetris/main.js:32 | one to four cleared lines score a positive amount of at most 800; any other count scores nothing |
| TetrisProgression.LinePointsIncreasing | tetris/main.js:32 | clearing more lines at once scores strictly more, and two or more lines score more than as many singles |
| TetrisProgression.LevelFor | tetris/main.js:336 | the level is at least 1 and is the unique L with 10(L-1) <= lines < 10L |
| TetrisProgression.LevelMonotone | tetris/main.js:336 | the level never decreases as the line total grows |
| TetrisProgression.DropMs | tetris/main.js:37-38 | the drop interval is never below 60 ms and is 1000 ms at level 1 |
| TetrisProgression.Decay | tetris/main.js:38 | the unfloored speed factor 1000 * 0.85^k is 1000 at k = 0 and never above 1000 |
| TetrisProgression.PowBelow | tetris/main.js:38 | helper for Decay: 17^k never exceeds 20^k |
| TetrisProgression.DecayStep | tetris/main.js:38 | each level's unfloored speed factor 1000 * 0.85^k is at most the previous level's |
| TetrisProgression.DropMsNonIncreasing | tetris/main.js:37-38 | a higher level never has a longer drop interval |
| TetrisBoard.EmptyBoard | tetris/main.js:203-207 | a fresh board is 20 rows of 10 cells, all empty |
| TetrisBoard.EmptyBoardClear | tetris/main.js:203-207 | a fresh board has no full row |
| TetrisBoard.CollidesFromMeans | tetris/main.js:259-268 | a set of cells collides exactly when one of them is blocked (off the sides, below the floor, or on an occupied in-field square) |
| TetrisBoard.Collides | tetris/main.js:259-268 | a piece collides iff one of its four cells, moved and rotated, is blocked: off the sides, below the floor, or on an occupied in-field square |
| TetrisBoard.CollisionRule | tetris/main.js:259-268 | a cell left, right or below the field always collides; cells above the field never do; fully in-field cells collide iff one lands on an occupied square |
| TetrisBoard.CellsRule | tetris/main.js:259-268 | the same three collision cases hold for any list of cells, whatever its anchor and offset |
| TetrisBoard.ShiftedCollides | tetris/main.js:270-279 | testing a moved piece equals testing the original at the summed offset, so moves compose |
| TetrisBoard.FreeIsAboveFloor | tetris/main.js:259-268 | a placement that does not collide keeps the anchor at most at the floor row |
| TetrisBoard.FreeCellsAboveFloor | tetris/main.js:259-268 | free cells whose first offset reaches at most one row up keep the anchor at most at the floor row |
| TetrisBoard.FallFromSpec | tetris/main.js:307-313 | counting down from a free depth stops at a depth that is free all the way down and blocked one row lower |
| TetrisBoard.FallOfPiece | tetris/main.js:307-313 | the search over a piece's cells gives a depth where the piece itself is free at every row above and collides one row lower |
| TetrisBoard.DropDistance | tetris/main.js:307-313 | the hard-drop distance d leaves every row 1..d free and row d+1 blocked |
| TetrisBoard.DropDistanceUnique | tetris/main.js:307-313 | any depth with that property is the hard-drop distance |
| TetrisPieces.KicksShape | tetris/main.js:87-89 | six kicks are tried; the first keeps the piece in place; the others move it at most two columns sideways or one row up, never down and never diagonally |
| TetrisBoard.FirstKickFrom | tetris/main.js:285-293 | scanning kicks from k finds the first fitting one at or after k, or reports none |
| TetrisBoard.FirstKick | tetris/main.js:87-89 | the chosen kick fits and every earlier kick in list order does not; |Kicks| means none fits |
| TetrisBoard.FirstKickIs | tetris/main.js:285-293 | a fitting kick after only non-fitting ones is the chosen kick |
| TetrisBoard.FirstKickNone | tetris/main.js:285-295 | rotation fails exactly when no kick of the list fits |
| TetrisBoard.Stamped | tetris/main.js:326-331 | writing the piece into the board keeps a 20 x 10 board; cells above the field are skipped |
| TetrisBoard.KeepRows | tetris/main.js:347-360 | the rows that survive a clear are non-full rows of the original board, no more of them than it had |
| TetrisBoard.KeepCount | tetris/main.js:347-360 | surviving rows plus full rows account for every row |
| TetrisBoard.KeepConcat | tetris/main.js:347-360 | helper for ClearedRowMoves: clearing splits over stacked board parts, so rows keep their relative order |
| TetrisBoard.CountConcat | tetris/main.js:347-360 | helper for ClearedShape: the full-row count of stacked board parts is the sum of their counts |
| TetrisBoard.Cleared | tetris/main.js:347-359 | the cleared board has as many rows as before, each an empty row or a surviving row of the old board |
| TetrisBoard.ClearedShape | tetris/main.js:347-360 | after clearing, the board is still 20 x 10, holds no full row, and one empty row was added for each removed row |
| TetrisBoard.ClearedRowMoves | tetris/main.js:347-360 | a non-full row moves down by exactly the number of full rows beneath it, unchanged |
| TetrisBoard.FullRowRemoved | tetris/main.js:347-360 | no row of a cleared board is full |
| TetrisBoard.CountFullBound | tetris/main.js:325-345 | helper for LockClearsAtMostFour: the full rows of a board are no more than the rows any covering set names |
| TetrisBoard.LockClearsAtMostFour | tetris/main.js:325-345 | locking a piece onto a board without full rows completes at most four rows, so line scores are always defined |
| TetrisBoard.SpawnFitsEmptyBoard | tetris/main.js:239-252 | every piece type fits at the spawn position on an empty board |
| TetrisBag.HasAllTypesMeans | tetris/main.js:225 | a sequence lists all seven types iff each type occurs in it |
| TetrisBag.Shuffle | tetris/main.js:230-237 | the Fisher-Yates shuffle returns a permutation of its input (same length, same multiset) |
| TetrisBag.ShuffledIsFill | tetris/main.js:225 | any permutation of the seven types is a valid bag fill |
| TetrisBag.ElemsBound | tetris/main.js:225 | helper for CoverNeedsSeven: a sequence has at least as many entries as distinct values |
| TetrisBag.CoverNeedsSeven | tetris/main.js:225 | a sequence holding all seven types has at least seven entries |
| TetrisBag.FillHasEachTypeOnce | tetris/main.js:225 | a bag fill holds each of the seven types exactly once |
| TetrisBag.SevenPopsEachTypeOnce | tetris/main.js:223-228 | popping a full bag seven times deals all seven types, none twice |
| TetrisBag.BagDrawNone | tetris/main.js:223-228 | drawing nothing leaves the bag as it was |
| TetrisBag.BagDrawPop | tetris/main.js:226 | popping the bag's last element extends the draw relation by that element |
| TetrisBag.PopFromFill | tetris/main.js:226 | a pop from a refilled bag continues a draw that started from the old bag |
| TetrisBag.BagDrawRefillPop | tetris/main.js:225-226 | refilling an emptied bag with a fresh fill of seven and popping continues the draw |
| TetrisBag.DealFromEmpty | tetris/main.js:223-228 | pieces dealt from an empty bag, in order, reverse-pop a single fresh fill |
| TetrisBag.DrawFromEmpty | tetris/main.js:223-228 | after dealing q from an empty bag, bag plus reversed q is one fill and 7 - |q| pieces remain |
| TetrisBag.DrawOne | tetris/main.js:226 | drawing one piece from a non-empty bag removes its last element |
| TetrisGame.ClearStepFull | tetris/main.js:350-355 | removing a full row and adding an empty row on top keeps the clear loop's invariant one row further up |
| TetrisGame.ClearStepKeep | tetris/main.js:349-356 | passing over a non-full row keeps the clear loop's invariant one row further up |
| TetrisGame.FirstDeal | tetris/main.js:203-221 | the first five queued pieces, the piece in play and the bag together come from one fresh fill |
| TetrisGame.SameCells | tetris/main.js:326-331 | helper for StampCells: two 20 x 10 boards with equal cells are equal, so the stamping loop's board is Stamped |
| TetrisGame.LockedBonus | tetris/main.js:315-323 | drop points added before locking count towards the locked state's score |
| TetrisGame.TopUp | tetris/main.js:223-228 | the queue is topped up to five with its old pieces in front, and the added pieces are popped from the bag in order, through fresh fills whenever it empties |
| TetrisGame.PopBag | tetris/main.js:225-226 | one pop continues the draw from the bag, refilling an empty bag with a fresh fill first |
| TetrisGame.FirstSpawn | tetris/main.js:218-220 | the spawn that ends a reset never ends the game, and the piece in play, the queue and the bag together come from one fill |
| TetrisGame.Game.constructor | tetris/main.js:113-131 | a new game is valid, with an empty board, zero score and lines, level 1, a full queue and a piece from a fresh bag |
| TetrisGame.Game.Reset | tetris/main.js:203-221 | resetting empties the board, zeroes score, lines and timer, sets level 1 and 1000 ms, deals a fresh queue and spawns |
| TetrisGame.Game.ClearState | tetris/main.js:203-217 | the board, queue and bag are empty, no piece is in play, score, lines and timer are zero, level 1 at 1000 ms, neither running nor over |
| TetrisGame.Game.RefillQueue | tetris/main.js:223-228 | the queue is topped up to five, keeps its old pieces in front, and the new pieces are popped from the bag, refilled with shuffled fills when empty |
| TetrisGame.Game.SpawnPiece | tetris/main.js:239-252 | the queue's head becomes the piece in play at column 4, row 1, rotation 0; the queue shifts and refills; the game ends iff that placement collides |
| TetrisGame.Game.TryMove | tetris/main.js:270-279 | the move succeeds iff a piece is in play and the target is free; only then does the piece shift by (dx, dy) |
| TetrisGame.Game.Rotate | tetris/main.js:281-295 | rotation succeeds iff some kick fits; the piece takes the turned rotation shifted by the first fitting kick; otherwise nothing changes |
| TetrisGame.Game.HardDropDistance | tetris/main.js:307-313 | the counted distance is the greatest free depth, equal to DropDistance |
| TetrisGame.Game.LockPiece | tetris/main.js:325-345 | the piece is stamped, full rows cleared, score, lines, level and speed updated as the tables say, and the next piece spawned |
| TetrisGame.Game.SettlePiece | tetris/main.js:325-344 | the piece is written in, full rows are cleared and credited; queue, bag and flags are untouched and the game stays valid |
| TetrisGame.Game.StampCells | tetris/main.js:326-331 | the loop writes exactly the piece's in-field cells, giving Stamped |
| TetrisGame.Game.AwardLines | tetris/main.js:333-341 | score grows by the line table's entry, lines by the count, level follows the total, and the interval changes only with the level |
| TetrisGame.Game.ClearLines | tetris/main.js:347-360 | the board becomes the cleared board and the result is the number of full rows it had |
| TetrisGame.Game.SoftDrop | tetris/main.js:297-305 | without a piece nothing changes; a free row below moves the piece down for one point; otherwise the piece locks |
| TetrisGame.Game.HardDrop | tetris/main.js:315-323 | a piece that can fall d > 0 rows moves down d, gains 2d points and locks; with d = 0 or no piece nothing changes |
| TetrisGame.Game.DropAndLock | tetris/main.js:319-321 | the piece moves down d rows, 2d points are added, and it locks there |
| TetrisGame.Game.Tick | tetris/main.js:362-378 | paused: nothing changes; otherwise the timer accumulates elapsed time and, once it reaches the interval, the piece falls one row or locks and the timer resets |
| TetrisGame.Game.TogglePause | tetris/main.js:191-201 | after game over nothing changes; otherwise running flips and resuming restarts the clock at now |
| TetrisGame.Game.Start | tetris/main.js:181-189 | a running game is untouched; a paused one resumes as it was; a finished one restarts as a new game; in every case the game ends up running |
| Minesweeper.RowCells | assets/js/minesweeper.js:37-38 | the cells of one row are exactly its cols positions |
| Minesweeper.Cells | assets/js/minesweeper.js:26-27 | the field's positions are exactly the rows x cols grid, rows * cols of them |
| Minesweeper.FreeCount | assets/js/minesweeper.js:29-34 | helper for RoomForMine: removing a subset leaves exactly the difference in size |
| Minesweeper.DiffBound | assets/js/minesweeper.js:29-34 | helper for RoomForMine: taking one set away from another removes at most its size |
| Minesweeper.MineSetAdd | assets/js/minesweeper.js:32-33 | mining a safe cell adds exactly that position to the mine set |
| Minesweeper.MinesOnField | assets/js/minesweeper.js:26-35 | every mine lies on the field |
| Minesweeper.MineAt | assets/js/minesweeper.js:44 | a position counts 0 or 1 mines |
| Minesweeper.AdjacentMines | assets/js/minesweeper.js:40-47 | a cell has at most eight neighbouring mines |
| Minesweeper.BlockIsAdjacent | assets/js/minesweeper.js:40-47 | for a safe cell, the 3 x 3 block count equals the number of mined neighbours |
| Minesweeper.StripThree | assets/js/minesweeper.js:41-46 | one row of the block scan counts the three cells left, centre and right |
| Minesweeper.BlockThree | assets/js/minesweeper.js:40-47 | the block scan counts the rows above, at and below the cell |
| Minesweeper.Numbered | assets/js/minesweeper.js:37-49 | a numbered field shows each safe cell its neighbouring-mine count, which is never above eight |
| Minesweeper.SameMinesSameCounts | assets/js/minesweeper.js:37-49 | numbering depends only on where the mines are |
| Minesweeper.CreateMinefield | assets/js/minesweeper.js:26-51 | a new field is rows x cols, holds exactly `mines` mines, and every safe cell shows its neighbouring mines |
| Minesweeper.CreateMinefieldSafeAt | assets/js/minesweeper.js:135-137 | a regenerated field has the same guarantees and no mine on the clicked cell |
| Minesweeper.PlaceMines | assets/js/minesweeper.js:27-35 | placing until `mines` are down yields exactly that many mines, none on an avoided cell |
| Minesweeper.NoMinesYet | assets/js/minesweeper.js:27 | a field of zeros has no mines |
| Minesweeper.PlaceOne | assets/js/minesweeper.js:29-34 | one more mine goes on a cell not yet mined, so the mine count grows by exactly one |
| Minesweeper.RoomForMine | assets/js/minesweeper.js:29-34 | while fewer mines are down than the field has room for, some cell is neither mined nor avoided, so the random retry can succeed |
| Minesweeper.NumberCells | assets/js/minesweeper.js:37-49 | mines stay where they are and every safe cell receives its neighbouring-mine count |
| Minesweeper.CountAround | assets/js/minesweeper.js:40-47 | the nested loop counts the mines in the in-field 3 x 3 block |
| Minesweeper.Blank | assets/js/minesweeper.js:14-15 | a fresh reveal or flag grid is 9 x 9 and all false |
| Minesweeper.SettledGrows | assets/js/minesweeper.js:195-205 | a neighbour settled by the flood stays settled as more cells are revealed |
| Minesweeper.RowSettledGrows | assets/js/minesweeper.js:195-205 | a settled row prefix stays settled as more cells are revealed |
| Minesweeper.OpenedGrows | assets/js/minesweeper.js:195-205 | an opened 3 x 3 block stays opened as more cells are revealed |
| Minesweeper.FloodedNone | assets/js/minesweeper.js:195-205 | revealing nothing is a valid flood step |
| Minesweeper.HiddenNoMore | assets/js/minesweeper.js:195-205 | revealing never increases the number of hidden cells |
| Minesweeper.HiddenShrinks | assets/js/minesweeper.js:199-200 | revealing a hidden cell strictly shrinks the hidden set, which bounds the recursion |
| Minesweeper.FloodCompose | assets/js/minesweeper.js:195-205 | two flood steps make one: only safe cells revealed, every zero opened |
| Minesweeper.RevealThenFlood | assets/js/minesweeper.js:146-152 | revealing a safe clicked cell and then flooding from it is a flood step |
| Minesweeper.RevealOne | assets/js/minesweeper.js:139 | revealing a single numbered (non-zero) safe cell is a flood step |
| Minesweeper.OpenedAround | assets/js/minesweeper.js:196-198 | every cell of an opened zero's 3 x 3 block is settled |
| Minesweeper.ReachedNone | assets/js/minesweeper.js:199 | revealing nothing is reached from any roots |
| Minesweeper.ReachedOne | assets/js/minesweeper.js:199-200 | revealing one hidden cell is reached from that cell |
| Minesweeper.ReachedFromZero | assets/js/minesweeper.js:200-201 | revealing a zero and then a flood reached from its block is reached from that zero |
| Minesweeper.ReachedJoin | assets/js/minesweeper.js:196-204 | a reach from the roots followed by a reach from one root is a reach from the roots |
| Minesweeper.FloodStep | assets/js/minesweeper.js:196-204 | a flood reached from the roots followed by a flood reached from one root is one flood reached from the roots |
| Minesweeper.RowsSettledGrows | assets/js/minesweeper.js:196-204 | settled rows of the block stay settled as more cells are revealed |
| Minesweeper.SpanSettledGrows | assets/js/minesweeper.js:197-203 | a settled stretch of a row stays settled as more cells are revealed |
| Minesweeper.ReachedNext | assets/js/minesweeper.js:195-205 | helper for ReachedWithin: if every earlier cell of the reach order is in a flood that settles the roots, so is the next one |
| Minesweeper.ReachedWithin | assets/js/minesweeper.js:195-205 | a reach from settled roots lies inside any flood that settles those roots: the chain of zeros forces each cell to be revealed |
| Minesweeper.FloodUnique | assets/js/minesweeper.js:195-205 | two floods reached from the same roots, each settling them, reveal exactly the same cells |
| Minesweeper.FloodFillUnique | assets/js/minesweeper.js:195-205 | the reveals of a flood fill from (r, c) are fully determined: any two outcomes that satisfy its contract are equal |
| Minesweeper.FlagsStep | assets/js/minesweeper.js:227-232 | the flag scan adds the current cell exactly when it is flagged |
| Minesweeper.FlagsRowEnd | assets/js/minesweeper.js:227-234 | finishing a row of the flag scan continues at the next row |
| Minesweeper.FlagsAll | assets/js/minesweeper.js:225-237 | the complete scan collects every flag |
| Minesweeper.FlagWonExact | assets/js/minesweeper.js:225-237 | with ten mines on the field, a flag win holds iff the flags are exactly the mines |
| Minesweeper.Toggled | assets/js/minesweeper.js:173 | toggling flips the flag on (r, c) and leaves every other flag alone |
| Minesweeper.ToggleTwice | assets/js/minesweeper.js:173 | toggling the same cell twice restores the flags |
| Minesweeper.Game.constructor | assets/js/minesweeper.js:12-24 | a new game has a valid field, nothing revealed or flagged, not over, awaiting the first click |
| Minesweeper.Game.StartGame | assets/js/minesweeper.js:12-24 | starting creates a valid field and clears reveals, flags and game over |
| Minesweeper.Game.FloodFill | assets/js/minesweeper.js:195-205 | the flood reveals only safe cells, every zero it reveals has its whole block open, and the clicked cell's block ends open; every newly revealed cell is reached from the 3 x 3 block through a chain of newly revealed zeros, so the flood opens nothing beyond the connected zero region and its border |
| Minesweeper.Game.FloodRow | assets/js/minesweeper.js:197-203 | one row of the 3 x 3 block ends settled, the earlier rows stay settled, and the reveals so far remain a flood reached from the block |
| Minesweeper.Game.FloodCell | assets/js/minesweeper.js:198-202 | one neighbour ends settled and the reveals so far remain a flood reached from the block |
| Minesweeper.Game.RevealNeighbour | assets/js/minesweeper.js:198-202 | a neighbour ends settled: off-field, a mine, or revealed with its block open when it shows zero; every newly revealed cell is the neighbour or is reached from it through newly revealed zeros |
| Minesweeper.Game.RevealAll | assets/js/minesweeper.js:207-214 | every cell ends revealed |
| Minesweeper.Game.CheckWin | assets/js/minesweeper.js:216-223 | the answer is true iff every safe cell is revealed |
| Minesweeper.Game.CheckFlagWin | assets/js/minesweeper.js:225-237 | the answer is true iff all flags are on mines and there are exactly ten of them |
| Minesweeper.Game.SecureFirstClick | assets/js/minesweeper.js:134-138 | after the first click the clicked cell is safe, the field is unchanged if it already was, and the field stays valid |
| Minesweeper.Game.HandleCellClick | assets/js/minesweeper.js:131-169 | a blocked click changes nothing; the first click never hits a mine; a mine ends the game with all revealed; a zero floods, revealing only cells reached from the click through newly revealed zeros; the game is won iff all safe cells are revealed |
| Minesweeper.Game.OpenCell | assets/js/minesweeper.js:140-166 | a mine ends the game with everything revealed; a safe cell is revealed, a zero floods its surroundings and every newly revealed cell is reached from the clicked cell through newly revealed zeros; the game ends iff every safe cell is revealed |
| Minesweeper.Game.HandleFlag | assets/js/minesweeper.js:171-193 | on a hidden cell of a live game the flag toggles; the game ends iff the flags now form a flag win, and then everything is revealed |
| QuantumAttack.Col | assets/js/quantum-attack.js:255-273 | a column of the grid, read top to bottom, has the grid's 16 cells |
| QuantumAttack.Clamp | assets/js/quantum-attack.js:210-212 | the frame position is kept within 0..6 and unchanged when already inside |
| QuantumAttack.Flip | assets/js/quantum-attack.js:214-216 | switching yields frame 1 from frame 0 and frame 0 otherwise |
| QuantumAttack.FlipTwice | assets/js/quantum-attack.js:214-216 | switching twice restores the frame |
| QuantumAttack.FirstFilled | assets/js/quantum-attack.js:242-247 | the scan finds the topmost row where one of the two frame columns is filled, or 15 if none is |
| QuantumAttack.FirstFilledAt | assets/js/quantum-attack.js:242-245 | a filled row with only empty rows above it is what the scan finds |
| QuantumAttack.FrameRow | assets/js/quantum-attack.js:240-248 | the frame's row is always within 0..14, so the row below it exists |
| QuantumAttack.FrameRowSame | assets/js/quantum-attack.js:240-248 | grids that agree on where the frame columns are filled give the same frame row |
| QuantumAttack.SwapRow | assets/js/quantum-attack.js:224-226 | the two blocks under the frame trade places and nothing else changes |
| QuantumAttack.SwapAt | assets/js/quantum-attack.js:218-234 | a swap keeps the grid 16 x 8 |
| QuantumAttack.SwapAtKeepsRows | assets/js/quantum-attack.js:218-234 | a swap leaves the frame row unchanged and touches no column outside the frame |
| QuantumAttack.SwapAtValues | assets/js/quantum-attack.js:218-238 | a swap keeps every cell a block value 0..5 |
| QuantumAttack.SwapAtTwice | assets/js/quantum-attack.js:218-234 | swapping twice at the same frame restores the grid |
| QuantumAttack.CloseRun | assets/js/quantum-attack.js:259-281 | a maximal stretch of equal blocks is marked iff it is non-empty and at least three long, and adds its length to the match count |
| QuantumAttack.MatchedSpan | assets/js/quantum-attack.js:259-281 | a stretch wholly in or wholly out of runs adds its length or nothing to the match count |
| QuantumAttack.InRun | assets/js/quantum-attack.js:259-281 | a cell in a run is a block with an equal block directly above or below it |
| QuantumAttack.RunsCleared | assets/js/quantum-attack.js:250-291 | after clearing runs every cell is empty or holds the block it held before |
| QuantumAttack.ClearColumn | assets/js/quantum-attack.js:285-288 | clearing matched cells keeps the column's length |
| QuantumAttack.ClearedHasNoRuns | assets/js/quantum-attack.js:250-291 | a column with its runs cleared has no run of three left |
| QuantumAttack.ClearedGridHasNoRuns | assets/js/quantum-attack.js:250-291 | after a match check, no column of the grid holds a run |
| QuantumAttack.Gathered | assets/js/quantum-attack.js:305-310 | collecting a column's blocks bottom to top yields only non-empty blocks, no more than the column holds |
| QuantumAttack.Settle | assets/js/quantum-attack.js:302-321 | a settled column has the same height and holds the collected blocks stacked from the bottom |
| QuantumAttack.GatheredStacked | assets/js/quantum-attack.js:305-320 | collecting from a stacked column returns the stacked blocks |
| QuantumAttack.SettleKeepsBlocks | assets/js/quantum-attack.js:302-321 | gravity keeps every block and the blocks' bottom-to-top order |
| QuantumAttack.SettlePacked | assets/js/quantum-attack.js:302-321 | after gravity no block floats above an empty cell |
| QuantumAttack.SettleIdempotent | assets/js/quantum-attack.js:302-321 | settling a settled column changes nothing |
| QuantumAttack.SettleValues | assets/js/quantum-attack.js:302-321 | gravity keeps every cell within the block values 0..5 |
| QuantumAttack.GatheredValues | assets/js/quantum-attack.js:305-310 | collected blocks are colours 1..5 |
| QuantumAttack.Game.constructor | assets/js/quantum-attack.js:5-41 | a new game is on the title screen, not running, with score 0, level 1, frame at 3 and top, 1000 ms interval, the stored best score, and a 16 x 8 grid whose top twelve rows are empty and whose cells all hold block values 0..5 |
| QuantumAttack.Game.InitGrid | assets/js/quantum-attack.js:53-70 | the grid is 16 x 8 with only the bottom four rows holding blocks, each colour 0..5 |
| QuantumAttack.Game.Start | assets/js/quantum-attack.js:177-188 | the game plays, counters reset, the frame returns to 3 and top, the grid is re-initialised, and the drop interval is kept |
| QuantumAttack.Game.Pause | assets/js/quantum-attack.js:190-198 | playing becomes paused and paused becomes playing; other states are unchanged |
| QuantumAttack.Game.Stop | assets/js/quantum-attack.js:200-208 | the game is over and the best score becomes the larger of itself and the score |
| QuantumAttack.Game.MoveFrame | assets/js/quantum-attack.js:210-212 | the frame moves by direction, clamped to 0..6 |
| QuantumAttack.Game.SwitchFrame | assets/js/quantum-attack.js:214-216 | the active frame flips between top and bottom |
| QuantumAttack.Game.GetFrameY | assets/js/quantum-attack.js:240-248 | the scan's answer equals the frame-row function |
| QuantumAttack.Game.SwapBlocks | assets/js/quantum-attack.js:218-238 | the grid becomes the swapped grid for the current frame |
| QuantumAttack.Game.ScanColumn | assets/js/quantum-attack.js:255-282 | the marked cells of a column are exactly those in runs of three or more, and found is true iff any are marked |
| QuantumAttack.Game.CloseStretch | assets/js/quantum-attack.js:263-281 | closing a maximal stretch extends the marks so that they are exactly the cells in runs from the stretch's top down |
| QuantumAttack.Game.CollectMatches | assets/js/quantum-attack.js:251-282 | the collected positions are exactly the grid cells lying in runs, as many as the runs hold, and hasMatches is true iff there are any |
| QuantumAttack.Game.ClearCells | assets/js/quantum-attack.js:285-288 | every listed cell becomes empty and every other cell keeps its block |
| QuantumAttack.Game.MarkRun | assets/js/quantum-attack.js:265-267 | marking adds the count cells of a run to the marks |
| QuantumAttack.Game.CheckMatches | assets/js/quantum-attack.js:250-291 | every run is cleared and nothing else; score grows by 100 per cleared block and lines by a third of them |
| QuantumAttack.Game.DropColumn | assets/js/quantum-attack.js:303-321 | one column becomes its settled form and the other columns stay as they were |
| QuantumAttack.Game.GatherColumn | assets/js/quantum-attack.js:305-310 | the loop collects the column's blocks from the bottom up, as Gathered says |
| QuantumAttack.Game.StackColumn | assets/js/quantum-attack.js:313-320 | the column is cleared and the collected blocks are placed from the bottom; other columns stay as they were |
| QuantumAttack.Game.DropBlocks | assets/js/quantum-attack.js:302-322 | every column becomes its settled form |
| QuantumAttack.PushedUp | assets/js/quantum-attack.js:324-347 | pushing the grid up keeps every cell a block value 0..5 |
| QuantumAttack.Game.AddNewRow | assets/js/quantum-attack.js:324-348 | a filled top row stops the game and leaves the grid; otherwise every row moves up one and a random bottom row enters |
| QuantumAttack.Game.Update | assets/js/quantum-attack.js:350-367 | when running, time accumulates; at the interval a row is added and the timer resets; a filled top row ends the game with the grid kept and the best score raised to the score if it was higher, otherwise the grid is pushed up and the best score is unchanged; the level rises with a 50 ms faster interval (not below 500) once lines reach ten per level |
| Snake.Opposite | assets/js/snake.js:244-247 | a direction's opposite is never itself |
| Snake.Step | assets/js/snake.js:80-84 | one step moves the head to an adjacent cell |
| Snake.StepBack | assets/js/snake.js:80-84 | stepping in the opposite direction returns to the start |
| Snake.Steer | assets/js/snake.js:243-247 | an arrow key sets the next direction unless it reverses the current one; other keys do nothing; the snake is never turned back on itself |
| Snake.DistinctCard | assets/js/snake.js:35-44 | helper for FreeCells and StartHasRoom: a list of distinct cells is as long as the set it enumerates |
| Snake.Splice | assets/js/snake.js:53-55 | removing one index from a distinct list removes exactly that cell |
| Snake.Remove | assets/js/snake.js:99-106 | removing an eaten apple keeps only listed apples, shortens the list by one when present and changes nothing when absent |
| Snake.RemoveDistinct | assets/js/snake.js:99-106 | removing from distinct apples leaves distinct apples without the eaten cell |
| Snake.Blocked | assets/js/snake.js:86-94 | a head that is neither blocked nor off the board extends a valid snake to a valid snake |
| Snake.DistinctCons | assets/js/snake.js:96 | a new head not on the body keeps the snake's cells distinct |
| Snake.DistinctSnoc | assets/js/snake.js:72 | appending a new free cell keeps the apples distinct |
| Snake.RemoveFirstMatch | assets/js/snake.js:99-104 | splicing out the first matching apple is the removal |
| Snake.AddCount | assets/js/snake.js:70-74 | the number of apples added never exceeds the free cells or the request, never takes the board past ten, and is positive whenever room remains |
| Snake.FreeCells | assets/js/snake.js:35-44 | the free-cell list is distinct and holds exactly the board cells not on the snake |
| Snake.PickFoods | assets/js/snake.js:50-57 | picks min(3, free) distinct cells from the free list, whatever the random draw |
| Snake.StartHasRoom | assets/js/snake.js:21-24 | the starting snake leaves at least three free cells |
| Snake.Game.constructor | assets/js/snake.js:20-31 | a new game has the one-cell snake at (9, 9), heading right with right queued, three apples, zero score and is running |
| Snake.Game.StartSnake | assets/js/snake.js:20-31 | restarting gives the one-cell snake at (9, 9) heading right with three apples off the snake and zero score |
| Snake.Game.RandomFoods | assets/js/snake.js:33-58 | with no free cell the game ends with no apples; otherwise min(3, free) distinct apples off the snake |
| Snake.Game.AddRandomFoods | assets/js/snake.js:60-75 | apples are appended on distinct free cells, as many as AddCount allows, keeping the old ones in front |
| Snake.Game.Eat | assets/js/snake.js:98-106 | the snake eats iff the head is on an apple; that apple is removed and the score rises by one |
| Snake.Game.EndSnake | assets/js/snake.js:224-230 | the game is over |
| Snake.Game.KeyDown | assets/js/snake.js:241-248 | once over, keys are ignored; otherwise the next direction follows the steering rule |
| Snake.Game.MoveSnake | assets/js/snake.js:77-115 | the snake turns to the queued direction (never a reversal); a wall or its own body ends the game with nothing moved; eating grows it by the head, removes the eaten apple and adds AddCount(n) new apples for some requested n in 1..3; otherwise it moves keeping its length |
| Snake.Game.Advance | assets/js/snake.js:96-113 | the head enters a free cell: on an apple the snake grows by it, scores one, the apple is removed and AddCount(n) new apples are added for some requested n in 1..3; otherwise it drops its tail; the snake stays a valid chain with apples off it |
| Snake.Game.Shorten | assets/js/snake.js:96-112 | a moving snake that drops its tail stays a connected, distinct, in-bounds chain |

## Left out

- Rendering, canvas drawing, DOM updates, overlays and the colour helper `shade` are left out: they do not affect game state.
- Event wiring is modelled only through the operations it calls. This covers key handlers, buttons, `setup`/`bindUI` and the Quantum Attack event listeners.
- Timers are left out; their callbacks are the modelled operations. This covers `requestAnimationFrame`, `setInterval(moveSnake, 100)` and the `setTimeout` chain that runs checkMatches, then dropBlocks, then checkMatches again.
- Persistence is left out: `localStorage` high scores and Minesweeper's best time. Snake's `updateSnakeHighScore` is not modelled, and Quantum Attack's `highScore` is kept only in memory.
- `Date.now()` and game timing for Minesweeper's elapsed time are left out because they are clock I/O.
- Languages and status text are left out because they are display only.
- The probability distributions are left out; randomness is modelled as nondeterministic choice. The properties hold for every outcome but say nothing about fairness, for example that the shuffle is uniform.
- The plane and whack-a-mole games (`assets/js/plane.js`, `assets/js/mole.js`) are not part of this model.
- Minesweeper.PlaceMines: the random retry loop of `createMinefield` is collapsed into one choice among the cells not yet mined. The retry loop ends only with probability one.
- Minesweeper.Game.SecureFirstClick: the loop that regenerates the field until the clicked cell is safe is modelled by its outcome, a fresh field with that cell safe. The loop itself is not modelled because it ends only with probability one.
- Minesweeper.Game.HandleCellClick: requires the clicked cell to be on the field. The page only calls it for rendered cells.
- Minesweeper.Game.HandleFlag: requires the cell to be on the field, for the same reason: the page only calls it for rendered cells.
- QuantumAttack.Game.constructor: also sets up the grid, which the source does in `init` right after construction.
- QuantumAttack.Game.InitGrid: states only that each initial block is a colour 0..5. The 70% and 80% fill rates are probabilities.
- TetrisProgression.DropMs: the floating-point `Math.pow(0.85, level - 1)` is replaced by the exact rational 17^k/20^k. Float rounding at high levels could differ by one millisecond.
- TetrisGame.Game.Tick, TetrisGame.Game.TogglePause and QuantumAttack.Game.Update: frame timestamps are floating-point milliseconds in the source (`performance.now()` at `tetris/main.js:186`, the `requestAnimationFrame` timestamp at `tetris/main.js:364`, `currentTime` at `assets/js/quantum-attack.js:492`). The model takes the timestamps and their differences as whole milliseconds, so fractional parts and their rounding are not modelled.
- Hold-piece state is not modelled because the source never uses it.
