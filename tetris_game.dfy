/**
  The falling-block game state and its operations: the playfield, the piece
  in play, the five-deep preview queue fed by the 7-bag, score, cleared
  lines, level and gravity timing, and the running and game-over flags.
 */
module TetrisGame {
  import opened TetrisPieces
  import opened TetrisProgression
  import opened TetrisBoard
  import opened TetrisBag

  datatype Option<T> = None | Some(value: T)

  /** Number of upcoming pieces kept in the preview queue. */
  const QueueDepth: nat := 5

  /** Where a new piece appears: pivot at column 4, row 1, rotation 0. */
  function SpawnOf(t: PieceType): Piece
  {
    Piece(t, 0, 4, 1)
  }

  /** One gravity step removes at most the rows a piece can complete. */
  lemma ClearStepFull(b0: Board, c: nat, k: nat)
    requires 0 < k <= |b0| && Full(b0[k - 1])
    ensures KeepRows(b0[k - 1..]) == KeepRows(b0[k..])
    ensures CountFull(b0[k - 1..]) == 1 + CountFull(b0[k..])
    ensures var board := EmptyRows(c) + b0[..k] + KeepRows(b0[k..]);
            [EmptyRow()] + board[..c + k - 1] + board[c + k..]
            == EmptyRows(c + 1) + b0[..k - 1] + KeepRows(b0[k - 1..])
  {
    assert b0[k - 1..][0] == b0[k - 1];
    assert b0[k - 1..][1..] == b0[k..];
    var board := EmptyRows(c) + b0[..k] + KeepRows(b0[k..]);
    assert board[..c + k - 1] == EmptyRows(c) + b0[..k - 1];
    assert board[c + k..] == KeepRows(b0[k..]);
    assert [EmptyRow()] + EmptyRows(c) == EmptyRows(c + 1);
  }

  lemma ClearStepKeep(b0: Board, c: nat, k: nat)
    requires 0 < k <= |b0| && !Full(b0[k - 1])
    ensures KeepRows(b0[k - 1..]) == [b0[k - 1]] + KeepRows(b0[k..])
    ensures CountFull(b0[k - 1..]) == CountFull(b0[k..])
    ensures EmptyRows(c) + b0[..k] + KeepRows(b0[k..])
            == EmptyRows(c) + b0[..k - 1] + KeepRows(b0[k - 1..])
  {
    assert b0[k - 1..][0] == b0[k - 1];
    assert b0[k - 1..][1..] == b0[k..];
    assert b0[..k] == b0[..k - 1] + [b0[k - 1]];
  }

  /** The deal of a new game: a fill drawn into the empty queue, then one spawn. */
  lemma FirstDeal(q: seq<PieceType>, b1: seq<PieceType>, nq: seq<PieceType>, b2: seq<PieceType>)
    requires |q| == QueueDepth && |nq| == QueueDepth && BagDraw([], q, b1)
    requires nq[..QueueDepth - 1] == q[1..] && BagDraw(b1, nq[QueueDepth - 1..], b2)
    ensures IsBagFill(b2 + Reverse([q[0]] + nq))
  {
    var x := nq[QueueDepth - 1];
    assert nq[QueueDepth - 1..] == [x];
    DealFromEmpty(q, b1, x, b2);
    assert [q[0]] + nq == q + [x] by {
      assert nq == nq[..QueueDepth - 1] + [x];
      assert q == [q[0]] + q[1..];
      Assoc([q[0]], q[1..], [x]);
    }
  }

  /** The spawn that ends a reset: on the empty board it always fits, and it completes the first deal. */
  lemma FirstSpawn(s0: Snapshot, s: Snapshot, active: Option<Piece>)
    requires s0.board == EmptyBoard() && !s0.isRunning && !s0.isGameOver
    requires |s0.nextQueue| == QueueDepth && BagDraw([], s0.nextQueue[0..], s0.bag)
    requires Spawned(s0, s, active) && s.board == s0.board
    ensures !s.isRunning && !s.isGameOver && |s.nextQueue| == QueueDepth
    ensures active.Some? && active.value == SpawnOf(active.value.kind)
    ensures IsBagFill(s.bag + Reverse([active.value.kind] + s.nextQueue))
  {
    assert s0.nextQueue[0..] == s0.nextQueue;
    SpawnFitsEmptyBoard(s0.nextQueue[0]);
    FirstDeal(s0.nextQueue, s0.bag, s.nextQueue, s.bag);
  }

  /** Two well-formed boards with the same cells are equal. */
  lemma SameCells(a: Board, b: Board)
    requires WellFormed(a) && WellFormed(b)
    requires forall y, x :: 0 <= y < Rows && 0 <= x < Cols ==> a[y][x] == b[y][x]
    ensures a == b
  {
    forall y | 0 <= y < Rows
      ensures a[y] == b[y]
    {
    }
  }

  /**
    Tops queue `q` up to the preview depth by popping pieces off bag `b`,
    refilling the bag with a fresh shuffle whenever it runs empty.
   */
  method TopUp(q: seq<PieceType>, b: seq<PieceType>) returns (q': seq<PieceType>, b': seq<PieceType>)
    ensures |q'| == if |q| < QueueDepth then QueueDepth else |q|
    ensures q'[..|q|] == q
    ensures BagDraw(b, q'[|q|..], b')
  {
    q', b' := q, b;
    ghost var drawn: seq<PieceType> := [];
    BagDrawNone(b);
    while |q'| < QueueDepth
      invariant q' == q + drawn
      invariant |q'| <= if |q| < QueueDepth then QueueDepth else |q|
      invariant BagDraw(b, drawn, b')
      invariant |drawn| > |b| ==> |b'| + (|drawn| - |b|) == 7
    {
      var top;
      top, b' := PopBag(b, drawn, b');
      q' := q' + [top];
      drawn := drawn + [top];
    }
    assert q'[..|q|] == q;
    assert q'[|q|..] == drawn;
  }

  /**
    Pops the last piece of `bag`, first refilling an empty bag with a fresh
    shuffle; `drawn` is what was popped since the bag held `b0`.
   */
  method PopBag(ghost b0: seq<PieceType>, ghost drawn: seq<PieceType>, bag: seq<PieceType>)
    returns (top: PieceType, bag': seq<PieceType>)
    requires |drawn| < 7 && BagDraw(b0, drawn, bag)
    requires |drawn| > |b0| ==> |bag| + (|drawn| - |b0|) == 7
    ensures BagDraw(b0, drawn + [top], bag')
    ensures |drawn| + 1 > |b0| ==> |bag'| + (|drawn| + 1 - |b0|) == 7
  {
    bag' := bag;
    if |bag'| == 0 {
      var filled := Shuffle(AllTypes);
      ShuffledIsFill(filled);
      BagDrawRefillPop(b0, drawn, filled);
      bag' := filled;
    } else {
      BagDrawPop(b0, drawn, bag');
    }
    top := bag'[|bag'| - 1];
    bag' := bag'[..|bag'| - 1];
  }

  /** The part of the game state that play changes, apart from the piece in play and the timing. */
  datatype Snapshot = Snapshot(
    board: Board, nextQueue: seq<PieceType>, bag: seq<PieceType>,
    score: nat, lines: nat, level: nat, dropIntervalMs: nat,
    isRunning: bool, isGameOver: bool)

  /**
    From s0 to s with `active` in play: the queue front became the piece in
    play at the spawn position, the queue was topped up from the bag, and the
    game ended exactly when the new piece overlaps the board.
   */
  ghost predicate Spawned(s0: Snapshot, s: Snapshot, active: Option<Piece>)
  {
    |s0.nextQueue| == QueueDepth && |s.nextQueue| == QueueDepth && WellFormed(s.board)
    && s.nextQueue[..QueueDepth - 1] == s0.nextQueue[1..]
    && BagDraw(s0.bag, s.nextQueue[QueueDepth - 1..], s.bag)
    && active == Some(SpawnOf(s0.nextQueue[0]))
    && var hit := Collides(s.board, SpawnOf(s0.nextQueue[0]), 0, 0, 0);
       s.isGameOver == (s0.isGameOver || hit) && s.isRunning == (s0.isRunning && !hit)
  }

  /**
    From s0 to s, piece p was locked: its cells were written into the board,
    full rows were cleared, `bonus` drop points plus the line award were added,
    lines and level advanced, the gravity interval was recomputed only on a
    level change, and the next piece was spawned.
   */
  ghost predicate Locked(s0: Snapshot, p: Piece, bonus: nat, s: Snapshot, active: Option<Piece>)
  {
    WellFormed(s0.board) &&
    var c := CountFull(Stamped(s0.board, p));
    s.board == Cleared(Stamped(s0.board, p))
    && s.score == s0.score + bonus + LinePoints(c)
    && s.lines == s0.lines + c
    && s.level == (if c > 0 then LevelFor(s.lines) else s0.level)
    && s.level >= 1
    && s.dropIntervalMs == (if s.level != s0.level then DropMs(s.level) else s0.dropIntervalMs)
    && Spawned(s0, s, active)
  }

  /** Shifting the queue, topping it up, placing its front piece and testing that piece: a spawn. */
  lemma SpawnedFromSteps(s0: Snapshot, queue: seq<PieceType>, rest: seq<PieceType>, piece: Piece, hit: bool)
    requires |s0.nextQueue| == QueueDepth && WellFormed(s0.board)
    requires |queue| == QueueDepth && queue[..QueueDepth - 1] == s0.nextQueue[1..]
    requires BagDraw(s0.bag, queue[QueueDepth - 1..], rest)
    requires piece == SpawnOf(s0.nextQueue[0]) && hit == Collides(s0.board, piece, 0, 0, 0)
    ensures Spawned(s0, s0.(nextQueue := queue, bag := rest, isRunning := s0.isRunning && !hit,
                            isGameOver := s0.isGameOver || hit), Some(piece))
  {
  }

  /**
    From s0 to s1, piece p was written into the board, full rows were
    cleared and credited; the queue, the bag and the flags are untouched.
   */
  ghost predicate Settled(s0: Snapshot, p: Piece, s1: Snapshot)
  {
    WellFormed(s0.board) && s0.level >= 1 &&
    var c := CountFull(Stamped(s0.board, p));
    s1.board == Cleared(Stamped(s0.board, p))
    && s1.score == s0.score + (if c > 0 then LinePoints(c) else 0)
    && s1.lines == s0.lines + c
    && s1.level == (if c > 0 then LevelFor(s1.lines) else s0.level)
    && s1.dropIntervalMs == (if s1.level != s0.level then DropMs(s1.level) else s0.dropIntervalMs)
    && s1.nextQueue == s0.nextQueue && s1.bag == s0.bag
    && s1.isRunning == s0.isRunning && s1.isGameOver == s0.isGameOver
  }

  /** Settling gives s1, and spawning from s1 gives s: together, a lock. */
  lemma LockedFromSteps(s0: Snapshot, p: Piece, s1: Snapshot, s: Snapshot, active: Option<Piece>)
    requires Settled(s0, p, s1) && Spawned(s1, s, active)
    requires s.board == s1.board && s.score == s1.score && s.lines == s1.lines
    requires s.level == s1.level && s.dropIntervalMs == s1.dropIntervalMs
    ensures Locked(s0, p, 0, s, active)
  {
  }

  /** Drop points added before the lock count as the lock's bonus. */
  lemma LockedBonus(s0: Snapshot, p: Piece, bonus: nat, s: Snapshot, active: Option<Piece>)
    requires Locked(s0.(score := s0.score + bonus), p, 0, s, active)
    ensures Locked(s0, p, bonus, s, active)
  {
  }

  class Game {
    var board: Board
    var active: Option<Piece>
    var nextQueue: seq<PieceType>
    var bag: seq<PieceType>
    var score: nat
    var lines: nat
    var level: nat
    var dropTimerMs: int
    var dropIntervalMs: nat
    var lastTime: int
    var isRunning: bool
    var isGameOver: bool

    /**
      What every operation keeps: a 10 x 20 board with no full row, a full
      preview queue, the level and gravity interval that match the cleared
      lines, and a finished game is never running.
     */
    ghost predicate Valid()
      reads this
    {
      WellFormed(board) && NoFullRows(board) && |nextQueue| == QueueDepth
      && level == LevelFor(lines) && dropIntervalMs == DropMs(level)
      && (isGameOver ==> !isRunning)
    }

    /** The state right after a reset. */
    ghost predicate IsNewGame()
      reads this
    {
      board == EmptyBoard() && score == 0 && lines == 0 && level == 1
      && dropTimerMs == 0 && dropIntervalMs == 1000
      && !isRunning && !isGameOver
      && |nextQueue| == QueueDepth
      && active.Some? && active.value == SpawnOf(active.value.kind)
    }

    /**
      The first six pieces dealt (the piece in play, then the queue) and the
      piece left in the bag are, in pop order, one fresh fill.
     */
    ghost predicate FreshDeal()
      reads this
    {
      active.Some? && IsBagFill(bag + Reverse([active.value.kind] + nextQueue))
    }

    /** The part of the state that play changes, apart from the piece in play and the timing. */
    function Snap(): Snapshot
      reads this
    {
      Snapshot(board, nextQueue, bag, score, lines, level, dropIntervalMs, isRunning, isGameOver)
    }

    /** A new game: the setup path, which resets the state. */
    constructor ()
      ensures Valid() && IsNewGame() && FreshDeal()
    {
      new;
      Reset();
    }

    /** Starts a new game: empty board, zeroed counters, a fresh bag, queue and piece. */
    method Reset()
      modifies this
      ensures Valid() && IsNewGame() && FreshDeal()
    {
      ClearState();
      RefillQueue();
      EmptyBoardClear();
      ghost var s0 := Snap();
      SpawnPiece();
      FirstSpawn(s0, Snap(), active);
    }

    /** Empties the board, the queue and the bag, and zeroes the score, the lines, the level and the timers. */
    method ClearState()
      modifies this
      ensures board == EmptyBoard() && active.None? && nextQueue == [] && bag == []
      ensures score == 0 && lines == 0 && level == 1 && dropTimerMs == 0 && dropIntervalMs == 1000
      ensures !isGameOver && !isRunning
    {
      board := EmptyBoard();
      active := None;
      nextQueue := [];
      bag := [];
      score := 0;
      lines := 0;
      level := 1;
      dropTimerMs := 0;
      dropIntervalMs := DropMs(1);
      isGameOver := false;
      isRunning := false;
    }

    /**
      Tops the preview queue up to five pieces, popping from the end of the
      bag and refilling the bag with a shuffled set of all seven types
      whenever it is empty.
     */
    method RefillQueue()
      modifies this`nextQueue, this`bag
      ensures |nextQueue| == if |old(nextQueue)| < QueueDepth then QueueDepth else |old(nextQueue)|
      ensures nextQueue[..|old(nextQueue)|] == old(nextQueue)
      ensures BagDraw(old(bag), nextQueue[|old(nextQueue)|..], bag)
    {
      nextQueue, bag := TopUp(nextQueue, bag);
    }

    /**
      Takes the front of the queue as the new piece in play at the spawn
      position, tops the queue up, and ends the game if the piece overlaps.
     */
    method SpawnPiece()
      requires Valid()
      modifies this`nextQueue, this`bag, this`active, this`isRunning, this`isGameOver
      ensures Valid()
      ensures Spawned(old(Snap()), Snap(), active)
    {
      var kind := nextQueue[0];
      var queue, rest := TopUp(nextQueue[1..], bag);
      var piece := SpawnOf(kind);
      var hit := Collides(board, piece, 0, 0, 0);
      SpawnedFromSteps(Snap(), queue, rest, piece, hit);
      nextQueue, bag, active := queue, rest, Some(piece);
      if hit {
        isGameOver := true;
        isRunning := false;
      }
    }

    /**
      Moves the piece in play by (dx, dy) when the target placement is free;
      otherwise, or with no piece in play, nothing changes.
     */
    method TryMove(dx: int, dy: int) returns (moved: bool)
      requires WellFormed(board)
      modifies this`active
      ensures moved <==> old(active).Some? && !Collides(board, old(active).value, dx, dy, old(active).value.rotation)
      ensures active == if moved then Some(Shifted(old(active).value, dx, dy)) else old(active)
    {
      if active.None? {
        return false;
      }
      var p := active.value;
      if !Collides(board, p, dx, dy, p.rotation) {
        active := Some(Shifted(p, dx, dy));
        return true;
      }
      return false;
    }

    /**
      Turns the piece in play one step (clockwise for a positive direction),
      committing the first kick in list order whose placement is free; if none
      is, or no piece is in play, nothing changes.
     */
    method Rotate(dir: int) returns (turned: bool)
      requires WellFormed(board)
      modifies this`active
      ensures old(active).None? ==> !turned && active == old(active)
      ensures old(active).Some? ==>
                var p := old(active).value;
                (turned <==> FirstKick(board, p, Turn(p.rotation, dir)) < |Kicks|)
      ensures old(active).Some? && turned ==>
                var p := old(active).value;
                var r := Turn(p.rotation, dir);
                active == Some(Kicked(p, r, FirstKick(board, p, r)))
      ensures !turned ==> active == old(active)
    {
      if active.None? {
        return false;
      }
      var p := active.value;
      var newRotation := Turn(p.rotation, dir);
      var i := 0;
      while i < |Kicks|
        invariant 0 <= i <= |Kicks|
        invariant active == old(active)
        invariant forall j :: 0 <= j < i ==> !KickFits(board, p, newRotation, j)
      {
        var kick := Kicks[i];
        if !Collides(board, p, kick.dx, kick.dy, newRotation) {
          active := Some(Piece(p.kind, newRotation, p.x + kick.dx, p.y + kick.dy));
          FirstKickIs(board, p, newRotation, i);
          assert active.value == Kicked(p, newRotation, FirstKick(board, p, newRotation));
          return true;
        }
        i := i + 1;
      }
      FirstKickNone(board, p, newRotation);
      return false;
    }

    /**
      The largest number of rows the piece in play can fall: every offset up
      to it is free and the next one collides.
     */
    method HardDropDistance() returns (d: nat)
      requires WellFormed(board) && active.Some?
      ensures forall k :: 1 <= k <= d ==> !Collides(board, active.value, 0, k, active.value.rotation)
      ensures Collides(board, active.value, 0, d + 1, active.value.rotation)
      ensures d == DropDistance(board, active.value)
    {
      var p := active.value;
      ghost var deepest := DropDistance(board, p);
      d := 0;
      while !Collides(board, p, 0, d + 1, p.rotation)
        invariant d <= deepest
        decreases deepest - d
      {
        FreeBeforeDrop(board, p, d);
        d := d + 1;
      }
      StopsAtDrop(board, p, d);
    }

    /**
      Writes the piece's in-field cells into the board, clears full rows,
      awards points, lines and level, and spawns the next piece.
     */
    method LockPiece()
      requires Valid() && active.Some?
      modifies this`board, this`score, this`lines, this`level, this`dropIntervalMs
      modifies this`nextQueue, this`bag, this`active, this`isRunning, this`isGameOver
      ensures Valid() && active.Some?
      ensures Locked(old(Snap()), old(active).value, 0, Snap(), active)
    {
      ghost var s0 := Snap();
      var p := active.value;
      SettlePiece(p);
      ghost var s1 := Snap();
      SpawnPiece();
      LockedFromSteps(s0, p, s1, Snap(), active);
    }

    /**
      Writes `p` into the board, clears the full rows and credits them: the
      part of a lock that comes before the next spawn.
     */
    method SettlePiece(p: Piece)
      requires Valid()
      modifies this`board, this`score, this`lines, this`level, this`dropIntervalMs
      ensures Valid()
      ensures Settled(old(Snap()), p, Snap())
    {
      board := StampCells(board, p);
      ghost var stamped := board;
      var cleared := ClearLines();
      ClearedShape(stamped);
      if cleared > 0 {
        AwardLines(cleared);
      }
    }

    /** The board with the piece's cells inside the field written in, one cell at a time. */
    static method StampCells(b: Board, p: Piece) returns (grid: Board)
      requires WellFormed(b)
      ensures grid == Stamped(b, p)
    {
      grid := b;
      for i := 0 to 4
        invariant WellFormed(grid)
        invariant forall y, x :: 0 <= y < Rows && 0 <= x < Cols ==>
                    grid[y][x] == if CoversFirst(p, i, x, y) then Block(p.kind) else b[y][x]
      {
        var cell := Shape(p.kind, p.rotation)[i];
        var x, y := p.x + cell.dx, p.y + cell.dy;
        if y < 0 {
          continue;
        }
        if 0 <= x < Cols && y < Rows {
          grid := grid[y := grid[y][x := Block(p.kind)]];
        }
      }
      SameCells(grid, Stamped(b, p));
    }

    /**
      Credits `cleared` rows: the line award, the line count, and on a level
      change the new level with its gravity interval.
     */
    method AwardLines(cleared: nat)
      requires cleared > 0
      modifies this`score, this`lines, this`level, this`dropIntervalMs
      ensures score == old(score) + LinePoints(cleared)
      ensures lines == old(lines) + cleared
      ensures level == LevelFor(lines)
      ensures dropIntervalMs == if level != old(level) then DropMs(level) else old(dropIntervalMs)
    {
      score := score + LinePoints(cleared);
      lines := lines + cleared;
      var newLevel := lines / 10 + 1;
      if newLevel != level {
        level := newLevel;
        dropIntervalMs := DropMs(level);
      }
    }

    /**
      Removes every full row, scanning from the bottom and re-examining the
      same index after each removal, and inserts an empty row at the top for
      each; returns how many rows were removed.
     */
    method ClearLines() returns (cleared: nat)
      requires WellFormed(board)
      modifies this`board
      ensures board == Cleared(old(board))
      ensures cleared == CountFull(old(board))
    {
      ghost var b0 := board;
      ghost var k := Rows;
      cleared := 0;
      var y := Rows - 1;
      while y >= 0
        invariant 0 <= k <= Rows
        invariant board == EmptyRows(cleared) + b0[..k] + KeepRows(b0[k..])
        invariant cleared == CountFull(b0[k..])
        invariant k > 0 ==> y == cleared + k - 1
        invariant k == 0 ==> -1 <= y < cleared
        decreases y + 1 + k
      {
        KeepCount(b0[k..]);
        if k == 0 {
          assert board[y] == EmptyRow();
          assert board[y][0] == Empty;
        }
        if Full(board[y]) {
          assert k > 0 && board[y] == b0[k - 1];
          ClearStepFull(b0, cleared, k);
          board := [EmptyRow()] + board[..y] + board[y + 1..];
          cleared := cleared + 1;
          k := k - 1;
        } else {
          if k > 0 {
            assert board[y] == b0[k - 1];
            ClearStepKeep(b0, cleared, k);
            k := k - 1;
          }
          y := y - 1;
        }
      }
      assert b0[k..] == b0;
      KeepCount(b0);
    }

    /**
      Moves the piece in play down one row for one point, or locks it where it
      is when the row below is blocked; without a piece in play nothing happens.
     */
    method SoftDrop()
      requires Valid()
      modifies this`board, this`score, this`lines, this`level, this`dropIntervalMs
      modifies this`nextQueue, this`bag, this`active, this`isRunning, this`isGameOver
      ensures Valid()
      ensures old(active).None? ==> Snap() == old(Snap()) && active == old(active)
      ensures old(active).Some? ==>
                var p := old(active).value;
                if !Collides(old(board), p, 0, 1, p.rotation) then
                  active == Some(Shifted(p, 0, 1)) && score == old(score) + SoftDropPoints
                  && board == old(board) && lines == old(lines) && level == old(level)
                  && nextQueue == old(nextQueue) && bag == old(bag)
                  && isRunning == old(isRunning) && isGameOver == old(isGameOver)
                else
                  Locked(old(Snap()), p, 0, Snap(), active)
    {
      if active.None? {
        return;
      }
      var moved := TryMove(0, 1);
      if moved {
        score := score + SoftDropPoints;
      } else {
        LockPiece();
      }
    }

    /**
      Drops the piece in play as far as it can fall, for two points per row,
      and locks it there; a piece that cannot fall at all stays where it is
      and nothing changes.
     */
    method HardDrop()
      requires Valid()
      modifies this`board, this`score, this`lines, this`level, this`dropIntervalMs
      modifies this`nextQueue, this`bag, this`active, this`isRunning, this`isGameOver
      ensures Valid()
      ensures old(active).None? ==> Snap() == old(Snap()) && active == old(active)
      ensures old(active).Some? ==>
                var p := old(active).value;
                var d := DropDistance(old(board), p);
                if d == 0 then Snap() == old(Snap()) && active == old(active)
                else Locked(old(Snap()), Shifted(p, 0, d), HardDropPoints * d, Snap(), active)
    {
      if active.None? {
        return;
      }
      var d := HardDropDistance();
      if d > 0 {
        DropAndLock(d);
      }
    }

    /** Moves the piece in play down d rows, adds two points per row, and locks it. */
    method DropAndLock(d: nat)
      requires Valid() && active.Some?
      modifies this`board, this`score, this`lines, this`level, this`dropIntervalMs
      modifies this`nextQueue, this`bag, this`active, this`isRunning, this`isGameOver
      ensures Valid()
      ensures Locked(old(Snap()), Shifted(old(active).value, 0, d), HardDropPoints * d, Snap(), active)
    {
      ghost var s0 := Snap();
      var dropped := Shifted(active.value, 0, d);
      active := Some(dropped);
      score := score + d * HardDropPoints;
      LockPiece();
      LockedBonus(s0, dropped, HardDropPoints * d, Snap(), active);
    }

    /**
      One animation frame at time `now`: while running, the elapsed time is
      added to the gravity timer; once the timer reaches the interval the piece
      falls one row or locks, and the timer restarts from zero.
     */
    method Tick(now: int)
      requires Valid() && active.Some?
      modifies this
      ensures Valid() && active.Some?
      ensures !old(isRunning) ==> Snap() == old(Snap()) && active == old(active) && dropTimerMs == old(dropTimerMs) && lastTime == old(lastTime)
      ensures old(isRunning) ==> lastTime == now
      ensures old(isRunning) && old(dropTimerMs) + (now - old(lastTime)) < old(dropIntervalMs) ==>
                Snap() == old(Snap()) && active == old(active) && dropTimerMs == old(dropTimerMs) + (now - old(lastTime))
      ensures old(isRunning) && old(dropTimerMs) + (now - old(lastTime)) >= old(dropIntervalMs) ==>
                dropTimerMs == 0 &&
                var p := old(active).value;
                if !Collides(old(board), p, 0, 1, p.rotation) then
                  active == Some(Shifted(p, 0, 1)) && board == old(board) && score == old(score)
                  && nextQueue == old(nextQueue) && bag == old(bag)
                  && lines == old(lines) && level == old(level)
                  && isRunning == old(isRunning) && isGameOver == old(isGameOver)
                else
                  Locked(old(Snap()), p, 0, Snap(), active)
    {
      if !isRunning {
        return;
      }
      var delta := now - lastTime;
      lastTime := now;
      dropTimerMs := dropTimerMs + delta;
      if dropTimerMs >= dropIntervalMs {
        var moved := TryMove(0, 1);
        if !moved {
          LockPiece();
        }
        dropTimerMs := 0;
      }
    }

    /**
      Pauses or resumes; resuming restarts frame timing at `now`. A finished
      game is left as it is.
     */
    method TogglePause(now: int)
      requires Valid()
      modifies this`isRunning, this`lastTime
      ensures Valid()
      ensures old(isGameOver) ==> isRunning == old(isRunning) && lastTime == old(lastTime)
      ensures !old(isGameOver) ==> isRunning == !old(isRunning)
      ensures !old(isGameOver) && isRunning ==> lastTime == now
      ensures !old(isGameOver) && !isRunning ==> lastTime == old(lastTime)
    {
      if isGameOver {
        return;
      }
      isRunning := !isRunning;
      if isRunning {
        lastTime := now;
      }
    }

    /**
      Starts play at time `now`, first resetting a finished game; a game that
      is already running is left as it is.
     */
    method Start(now: int)
      requires Valid()
      modifies this
      ensures Valid() && isRunning && !isGameOver
      ensures old(isRunning) ==> Snap() == old(Snap()) && active == old(active) && lastTime == old(lastTime) && dropTimerMs == old(dropTimerMs)
      ensures !old(isRunning) && !old(isGameOver) ==>
                lastTime == now && dropTimerMs == old(dropTimerMs)
                && board == old(board) && active == old(active) && nextQueue == old(nextQueue)
                && bag == old(bag) && score == old(score) && lines == old(lines)
      ensures old(isGameOver) ==>
                lastTime == now && board == EmptyBoard() && score == 0 && lines == 0
                && level == 1 && dropTimerMs == 0 && active.Some? && FreshDeal()
    {
      if isGameOver {
        Reset();
      }
      if !isRunning {
        isRunning := true;
        lastTime := now;
      }
    }
  }
}
