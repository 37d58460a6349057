/**
  The block-swapping puzzle: an 8-wide, 16-high grid of blocks (0 is empty,
  1..5 are the five block kinds), a two-column frame the player moves and
  swaps with, vertical runs of three or more equal blocks that are removed,
  gravity that packs each column to the bottom, and a new row pushed in from
  below at every tick of the level's interval.
 */
module QuantumAttack {

  const Width: nat := 8
  const Height: nat := 16
  const BlockKinds: nat := 5

  datatype GameState = Title | Playing | Paused | GameOver

  predicate IsGrid(g: seq<seq<int>>)
  {
    |g| == Height && forall y :: 0 <= y < Height ==> |g[y]| == Width
  }

  /** Every cell is empty or one of the block kinds. */
  predicate BlockValues(g: seq<seq<int>>)
    requires IsGrid(g)
  {
    forall y, x :: 0 <= y < Height && 0 <= x < Width ==> 0 <= g[y][x] <= BlockKinds
  }

  /** Column x, top to bottom. */
  function Col(g: seq<seq<int>>, x: int): (s: seq<int>)
    requires IsGrid(g) && 0 <= x < Width
    ensures |s| == Height
  {
    seq(Height, y requires 0 <= y < Height => g[y][x])
  }

  // ---------------------------------------------------------------- the frame

  /** The frame position reached from p: p itself, or the nearer end of 0..Width - 2. */
  function Clamp(p: int): (q: int)
    ensures 0 <= q <= Width - 2
    ensures 0 <= p <= Width - 2 ==> q == p
    ensures p < 0 ==> q == 0
    ensures p > Width - 2 ==> q == Width - 2
  {
    var m := if Width - 2 < p then Width - 2 else p;
    if 0 > m then 0 else m
  }

  /** The other frame: 1 after 0, 0 after anything else. */
  function Flip(f: int): (g: int)
    ensures g == 0 || g == 1
    ensures f == 0 <==> g == 1
  {
    if f == 0 then 1 else 0
  }

  /** Switching twice returns to the frame one started from. */
  lemma FlipTwice(f: int)
    requires f == 0 || f == 1
    ensures Flip(Flip(f)) == f
  {
  }

  /** Row y holds a block in column x or x + 1. */
  predicate PairFilled(g: seq<seq<int>>, x: int, y: int)
    requires IsGrid(g) && 0 <= x < Width - 1 && 0 <= y < Height
  {
    g[y][x] != 0 || g[y][x + 1] != 0
  }

  /**
    The first row at or after `from`, above the bottom row, holding a block in
    the frame's columns; Height - 1 when there is none.
   */
  function FirstFilled(g: seq<seq<int>>, x: int, from: nat): (t: nat)
    requires IsGrid(g) && 0 <= x < Width - 1 && from <= Height - 1
    ensures from <= t <= Height - 1
    ensures t < Height - 1 ==> PairFilled(g, x, t)
    ensures forall k :: from <= k < t ==> !PairFilled(g, x, k)
    decreases Height - 1 - from
  {
    if from == Height - 1 then Height - 1
    else if PairFilled(g, x, from) then from
    else FirstFilled(g, x, from + 1)
  }

  /** The first filled row is the one after a stretch of empty rows. */
  lemma {:induction false} FirstFilledAt(g: seq<seq<int>>, x: int, from: nat, t: nat)
    requires IsGrid(g) && 0 <= x < Width - 1 && from <= t < Height - 1
    requires forall k :: from <= k < t ==> !PairFilled(g, x, k)
    requires PairFilled(g, x, t)
    ensures FirstFilled(g, x, from) == t
    decreases t - from
  {
    if from < t {
      FirstFilledAt(g, x, from + 1, t);
    }
  }

  /** The row the frame works on: the first filled row, one higher for the lower frame, or Height - 2. */
  function FrameRow(g: seq<seq<int>>, x: int, frame: int): (y: int)
    requires IsGrid(g) && 0 <= x < Width - 1
    ensures 0 <= y <= Height - 2
  {
    var t := FirstFilled(g, x, 0);
    if t < Height - 1 then
      var r := t - (if frame == 0 then 0 else 1);
      if 0 > r then 0 else r
    else Height - 2
  }

  /** Grids with the same filled rows in the frame's columns give the frame the same row. */
  lemma FrameRowSame(g: seq<seq<int>>, h: seq<seq<int>>, x: int, frame: int)
    requires IsGrid(g) && IsGrid(h) && 0 <= x < Width - 1
    requires forall y :: 0 <= y < Height ==> (PairFilled(g, x, y) <==> PairFilled(h, x, y))
    ensures FrameRow(g, x, frame) == FrameRow(h, x, frame)
  {
    var a, b := FirstFilled(g, x, 0), FirstFilled(h, x, 0);
  }

  /** Cells (y, x) and (y, x + 1) exchanged. */
  function SwapRow(g: seq<seq<int>>, y: int, x: int): (h: seq<seq<int>>)
    requires IsGrid(g) && 0 <= y < Height && 0 <= x < Width - 1
    ensures IsGrid(h)
    ensures h[y][x] == g[y][x + 1] && h[y][x + 1] == g[y][x]
    ensures forall i, j :: 0 <= i < Height && 0 <= j < Width && (i, j) != (y, x) && (i, j) != (y, x + 1) ==>
              h[i][j] == g[i][j]
  {
    g[y := g[y][x := g[y][x + 1]][x + 1 := g[y][x]]]
  }

  /** What a swap with the frame at column x does: one row, or two rows for the lower frame. */
  function SwapAt(g: seq<seq<int>>, x: int, frame: int): (h: seq<seq<int>>)
    requires IsGrid(g) && 0 <= x < Width - 1
    ensures IsGrid(h)
  {
    var y := FrameRow(g, x, frame);
    var h := SwapRow(g, y, x);
    if frame == 1 then SwapRow(h, y + 1, x) else h
  }

  /** A swap moves blocks only within rows and only between the frame's columns. */
  lemma SwapAtKeepsRows(g: seq<seq<int>>, x: int, frame: int)
    requires IsGrid(g) && 0 <= x < Width - 1
    ensures forall y :: 0 <= y < Height ==> (PairFilled(g, x, y) <==> PairFilled(SwapAt(g, x, frame), x, y))
    ensures forall i, j :: 0 <= i < Height && 0 <= j < Width && j != x && j != x + 1 ==>
              SwapAt(g, x, frame)[i][j] == g[i][j]
  {
  }

  /** Swapping twice at the same frame restores the grid. */
  lemma SwapAtTwice(g: seq<seq<int>>, x: int, frame: int)
    requires IsGrid(g) && 0 <= x < Width - 1
    ensures SwapAt(SwapAt(g, x, frame), x, frame) == g
  {
    var h := SwapAt(g, x, frame);
    SwapAtKeepsRows(g, x, frame);
    FrameRowSame(g, h, x, frame);
    var k := SwapAt(h, x, frame);
    forall i | 0 <= i < Height
      ensures k[i] == g[i]
    {
    }
  }

  /** A swap only moves blocks, so every cell still holds a block value. */
  lemma SwapAtValues(g: seq<seq<int>>, x: int, frame: int)
    requires IsGrid(g) && BlockValues(g) && 0 <= x < Width - 1
    ensures BlockValues(SwapAt(g, x, frame))
  {
    var y := FrameRow(g, x, frame);
    var h := SwapRow(g, y, x);
    assert BlockValues(h);
  }

  // ---------------------------------------------------------------- matches

  /** s[a..b] (inclusive) holds v throughout. */
  predicate Uniform(s: seq<int>, a: int, b: int, v: int)
    requires 0 <= a && b < |s|
  {
    forall i :: a <= i <= b ==> s[i] == v
  }

  /** s[k] is a block lying in a vertical window of three or more equal blocks. */
  ghost predicate InRun(s: seq<int>, k: int)
    ensures InRun(s, k) ==>
              0 <= k < |s| && s[k] != 0 &&
              ((0 < k && s[k - 1] == s[k]) || (k + 1 < |s| && s[k + 1] == s[k]))
  {
    0 <= k < |s| && s[k] != 0
    && exists a, b :: 0 <= a <= k <= b < |s| && b - a >= 2 && Uniform(s, a, b, s[k])
  }

  /** How many of s[lo..] are in runs. */
  ghost function Matched(s: seq<int>, lo: nat): nat
    decreases |s| - lo
  {
    if lo >= |s| then 0 else (if InRun(s, lo) then 1 else 0) + Matched(s, lo + 1)
  }

  /** A maximal stretch s[lo..hi] of one value: all in runs if it is three or more blocks long, none otherwise. */
  lemma {:induction false} CloseRun(s: seq<int>, lo: nat, hi: nat, v: int)
    requires lo <= hi < |s| && Uniform(s, lo, hi, v)
    requires v != 0 ==> lo == 0 || s[lo - 1] != v
    requires v != 0 ==> hi == |s| - 1 || s[hi + 1] != v
    ensures hi - lo >= 2 && v != 0 ==>
              (forall k :: lo <= k <= hi ==> InRun(s, k)) && Matched(s, lo) == hi - lo + 1 + Matched(s, hi + 1)
    ensures !(hi - lo >= 2 && v != 0) ==>
              (forall k :: lo <= k <= hi ==> !InRun(s, k)) && Matched(s, lo) == Matched(s, hi + 1)
    decreases hi - lo
  {
    if hi - lo >= 2 && v != 0 {
      assert InRun(s, lo) by {
        assert Uniform(s, lo, hi, s[lo]);
      }
      forall k | lo <= k <= hi
        ensures InRun(s, k)
      {
        assert Uniform(s, lo, hi, s[k]);
      }
    } else {
      forall k | lo <= k <= hi
        ensures !InRun(s, k)
      {
        if v != 0 {
          ShortStretch(s, lo, hi, v, k);
        }
      }
    }
    MatchedSpan(s, lo, hi);
  }

  /** A cell of a maximal stretch shorter than three lies in no window of three equal blocks. */
  lemma ShortStretch(s: seq<int>, lo: nat, hi: nat, v: int, k: int)
    requires lo <= k <= hi < |s| && hi - lo < 2 && Uniform(s, lo, hi, v)
    requires lo == 0 || s[lo - 1] != v
    requires hi == |s| - 1 || s[hi + 1] != v
    ensures !InRun(s, k)
  {
    forall a, b | 0 <= a <= k <= b < |s| && Uniform(s, a, b, s[k])
      ensures a < lo ==> s[lo - 1] == v
      ensures b > hi ==> s[hi + 1] == v
    {
    }
  }

  /** Matched adds up over a stretch whose cells are all in runs or all out of them. */
  lemma {:induction false} MatchedSpan(s: seq<int>, lo: nat, hi: nat)
    requires lo <= hi < |s|
    requires (forall k :: lo <= k <= hi ==> InRun(s, k)) || (forall k :: lo <= k <= hi ==> !InRun(s, k))
    ensures (forall k :: lo <= k <= hi ==> InRun(s, k)) ==> Matched(s, lo) == hi - lo + 1 + Matched(s, hi + 1)
    ensures (forall k :: lo <= k <= hi ==> !InRun(s, k)) ==> Matched(s, lo) == Matched(s, hi + 1)
    decreases hi - lo
  {
    if lo < hi {
      MatchedSpan(s, lo + 1, hi);
    }
  }

  /** Column s with the cells in runs emptied. */
  ghost function ClearColumn(s: seq<int>): (t: seq<int>)
    ensures |t| == |s|
  {
    seq(|s|, k requires 0 <= k < |s| => if InRun(s, k) then 0 else s[k])
  }

  /** After the runs are emptied no run is left: a second pass removes nothing. */
  lemma ClearedHasNoRuns(s: seq<int>)
    ensures forall k :: !InRun(ClearColumn(s), k)
  {
    var t := ClearColumn(s);
    forall k | InRun(t, k)
      ensures false
    {
      var a, b :| 0 <= a <= k <= b < |t| && b - a >= 2 && Uniform(t, a, b, t[k]);
      assert t[k] != 0 && t[k] == s[k];
      forall i | a <= i <= b
        ensures s[i] == s[k]
      {
        assert t[i] == t[k];
      }
      assert Uniform(s, a, b, s[k]);
      assert InRun(s, k);
    }
  }

  /** The number of cells in runs, over columns 0..x - 1. */
  ghost function Total(g: seq<seq<int>>, x: nat): nat
    requires IsGrid(g) && x <= Width
  {
    if x == 0 then 0 else Total(g, x - 1) + Matched(Col(g, x - 1), 0)
  }

  /** h is g with exactly the cells in runs emptied. */
  ghost predicate RunsCleared(g: seq<seq<int>>, h: seq<seq<int>>)
    ensures RunsCleared(g, h) ==>
              IsGrid(g) && IsGrid(h) &&
              forall y, x :: 0 <= y < Height && 0 <= x < Width ==> h[y][x] == 0 || h[y][x] == g[y][x]
  {
    IsGrid(g) && IsGrid(h)
    && forall y, x {:trigger h[y][x]} :: 0 <= y < Height && 0 <= x < Width ==>
         h[y][x] == if InRun(Col(g, x), y) then 0 else g[y][x]
  }

  /** Clearing leaves no runs anywhere in the grid. */
  lemma ClearedGridHasNoRuns(g: seq<seq<int>>, h: seq<seq<int>>)
    requires RunsCleared(g, h)
    ensures forall x, y :: 0 <= x < Width && 0 <= y < Height ==> !InRun(Col(h, x), y)
  {
    forall x | 0 <= x < Width
      ensures forall y :: !InRun(Col(h, x), y)
    {
      assert Col(h, x) == ClearColumn(Col(g, x));
      ClearedHasNoRuns(Col(g, x));
    }
  }

  // ---------------------------------------------------------------- gravity

  /** The blocks of s in bottom-to-top order. */
  function Gathered(s: seq<int>): (r: seq<int>)
    ensures |r| <= |s|
    ensures forall i :: 0 <= i < |r| ==> r[i] != 0
  {
    if s == [] then [] else Gathered(s[1..]) + (if s[0] != 0 then [s[0]] else [])
  }

  /** s holds the blocks `blocks` stacked from its bottom, bottom-first, and empty cells above. */
  predicate Stacked(s: seq<int>, blocks: seq<int>)
  {
    |blocks| <= |s|
    && forall k :: 0 <= k < |s| ==> s[k] == if |s| - 1 - k < |blocks| then blocks[|s| - 1 - k] else 0
  }

  /** A column after gravity: its blocks in the same bottom-to-top order, packed at the bottom. */
  function Settle(s: seq<int>): (t: seq<int>)
    ensures |t| == |s| && Stacked(t, Gathered(s))
  {
    var blocks := Gathered(s);
    seq(|s|, k requires 0 <= k < |s| => if |s| - 1 - k < |blocks| then blocks[|s| - 1 - k] else 0)
  }

  /** Gathering a stacked column gives back the stacked blocks. */
  lemma {:induction false} GatheredStacked(s: seq<int>, blocks: seq<int>)
    requires Stacked(s, blocks) && forall i :: 0 <= i < |blocks| ==> blocks[i] != 0
    ensures Gathered(s) == blocks
    decreases |s|
  {
    if s != [] {
      var n := |s|;
      if |blocks| == n {
        var rest := blocks[..n - 1];
        assert Stacked(s[1..], rest);
        GatheredStacked(s[1..], rest);
        assert s[0] == blocks[n - 1];
        assert blocks == rest + [blocks[n - 1]];
      } else {
        assert Stacked(s[1..], blocks);
        GatheredStacked(s[1..], blocks);
      }
    }
  }

  /** Gravity keeps every block, in the same bottom-to-top order. */
  lemma SettleKeepsBlocks(s: seq<int>)
    ensures Gathered(Settle(s)) == Gathered(s)
  {
    GatheredStacked(Settle(s), Gathered(s));
  }

  /** After gravity no block sits above an empty cell. */
  lemma SettlePacked(s: seq<int>)
    ensures forall i, j :: 0 <= i < j < |s| && Settle(s)[i] != 0 ==> Settle(s)[j] != 0
  {
  }

  /** Gravity applied twice is gravity applied once. */
  lemma SettleIdempotent(s: seq<int>)
    ensures Settle(Settle(s)) == Settle(s)
  {
    SettleKeepsBlocks(s);
  }

  // ---------------------------------------------------------------- the game

  /** The top row holds a block. */
  predicate TopRowFilled(g: seq<seq<int>>)
    requires IsGrid(g)
  {
    exists x :: 0 <= x < Width && g[0][x] != 0
  }

  /** g is g0 pushed up one row with a new bottom row of block values. */
  predicate PushedUp(g0: seq<seq<int>>, g: seq<seq<int>>)
    requires IsGrid(g0) && IsGrid(g)
    ensures PushedUp(g0, g) && BlockValues(g0) ==> BlockValues(g)
  {
    (forall y, x :: 0 <= y < Height - 1 && 0 <= x < Width ==> g[y][x] == g0[y + 1][x])
    && var bottom := g[Height - 1];
       forall x :: 0 <= x < Width ==> 0 <= bottom[x] <= BlockKinds
  }

  class Game {
    var grid: seq<seq<int>>
    var state: GameState
    var gameRunning: bool
    var score: nat
    var level: nat
    var lines: nat
    var highScore: nat
    var framePosition: int
    var activeFrame: int
    var dropTimer: int
    var dropInterval: int

    /**
      A 16 x 8 grid of block values, the frame inside the grid, the level at
      least 1, the new-row interval never below 500 ms, and the game running
      exactly while it is being played.
     */
    ghost predicate Valid()
      reads this
    {
      IsGrid(grid) && BlockValues(grid)
      && 0 <= framePosition <= Width - 2 && (activeFrame == 0 || activeFrame == 1)
      && level >= 1 && dropInterval >= 500
      && (gameRunning <==> state == Playing)
    }

    /** The title screen, with the best score so far and a freshly seeded grid. */
    constructor (best: nat)
      ensures Valid() && state == Title && !gameRunning
      ensures score == 0 && level == 1 && lines == 0 && highScore == best
      ensures framePosition == 3 && activeFrame == 0 && dropTimer == 0 && dropInterval == 1000
      ensures forall y, x :: 0 <= y < Height - 4 && 0 <= x < Width ==> grid[y][x] == 0
    {
      state := Title;
      gameRunning := false;
      score := 0;
      level := 1;
      lines := 0;
      highScore := best;
      framePosition := 3;
      activeFrame := 0;
      dropTimer := 0;
      dropInterval := 1000;
      new;
      InitGrid();
    }

    /** An empty grid with blocks of arbitrary kinds, or gaps, in its bottom four rows. */
    method InitGrid()
      modifies this`grid
      ensures IsGrid(grid) && BlockValues(grid)
      ensures forall y, x :: 0 <= y < Height - 4 && 0 <= x < Width ==> grid[y][x] == 0
    {
      grid := seq(Height, _ => seq(Width, _ => 0));
      for y := Height - 4 to Height
        invariant IsGrid(grid) && BlockValues(grid)
        invariant forall i, x :: 0 <= i < Height - 4 && 0 <= x < Width ==> grid[i][x] == 0
      {
        for x := 0 to Width
          invariant IsGrid(grid) && BlockValues(grid)
          invariant forall i, j :: 0 <= i < Height - 4 && 0 <= j < Width ==> grid[i][j] == 0
        {
          var v :| 0 <= v <= BlockKinds;
          grid := grid[y := grid[y][x := v]];
        }
      }
    }

    /** Starts play: counters, frame and timer reset and a new grid; the interval is kept. */
    method Start()
      requires Valid()
      modifies this
      ensures Valid() && state == Playing && gameRunning
      ensures score == 0 && level == 1 && lines == 0 && highScore == old(highScore)
      ensures framePosition == 3 && activeFrame == 0 && dropTimer == 0 && dropInterval == old(dropInterval)
      ensures forall y, x :: 0 <= y < Height - 4 && 0 <= x < Width ==> grid[y][x] == 0
    {
      state := Playing;
      gameRunning := true;
      score := 0;
      level := 1;
      lines := 0;
      framePosition := 3;
      activeFrame := 0;
      dropTimer := 0;
      InitGrid();
    }

    /** Playing and paused swap; the title screen and a finished game are left as they are. */
    method Pause()
      requires Valid()
      modifies this`state, this`gameRunning
      ensures Valid()
      ensures old(state) == Playing ==> state == Paused
      ensures old(state) == Paused ==> state == Playing
      ensures old(state) != Playing && old(state) != Paused ==> state == old(state)
    {
      if state == Playing {
        state := Paused;
        gameRunning := false;
      } else if state == Paused {
        state := Playing;
        gameRunning := true;
      }
    }

    /** Ends the game, keeping the better of the score and the best score. */
    method Stop()
      requires Valid()
      modifies this`state, this`gameRunning, this`highScore
      ensures Valid() && state == GameOver && !gameRunning
      ensures highScore == if old(score) > old(highScore) then old(score) else old(highScore)
      ensures highScore >= old(highScore) && highScore >= score
    {
      state := GameOver;
      gameRunning := false;
      if score > highScore {
        highScore := score;
      }
    }

    /** Moves the frame one column, never past either edge. */
    method MoveFrame(direction: int)
      requires Valid()
      modifies this`framePosition
      ensures Valid()
      ensures framePosition == Clamp(old(framePosition) + direction)
    {
      var m := if Width - 2 < framePosition + direction then Width - 2 else framePosition + direction;
      framePosition := if 0 > m then 0 else m;
    }

    /** Switches between the upper and the lower frame, whatever the direction. */
    method SwitchFrame(direction: int)
      requires Valid()
      modifies this`activeFrame
      ensures Valid()
      ensures activeFrame == Flip(old(activeFrame))
    {
      activeFrame := if activeFrame == 0 then 1 else 0;
    }

    /** The frame's row: scans down the frame's two columns for the first block. */
    method GetFrameY() returns (y: int)
      requires Valid()
      ensures y == FrameRow(grid, framePosition, activeFrame)
    {
      for row := 0 to Height - 1
        invariant forall k :: 0 <= k < row ==> !PairFilled(grid, framePosition, k)
      {
        if grid[row][framePosition] != 0 || grid[row][framePosition + 1] != 0 {
          FirstFilledAt(grid, framePosition, 0, row);
          var r := row - (if activeFrame == 0 then 0 else 1);
          return if 0 > r then 0 else r;
        }
      }
      return Height - 2;
    }

    /** Exchanges the frame's two blocks in its row, and in the row below for the lower frame. */
    method SwapBlocks()
      requires Valid()
      modifies this`grid
      ensures Valid()
      ensures grid == SwapAt(old(grid), framePosition, activeFrame)
    {
      var x := framePosition;
      var y := GetFrameY();
      ghost var g0 := grid;
      if y >= 0 && y + 1 < Height {
        var temp := grid[y][x];
        grid := grid[y := grid[y][x := grid[y][x + 1]]];
        grid := grid[y := grid[y][x + 1 := temp]];
        assert grid == SwapRow(g0, y, x);
        if activeFrame == 1 && y + 1 < Height {
          ghost var g1 := grid;
          var temp2 := grid[y + 1][x];
          grid := grid[y + 1 := grid[y + 1][x := grid[y + 1][x + 1]]];
          grid := grid[y + 1 := grid[y + 1][x + 1 := temp2]];
          assert grid == SwapRow(g1, y + 1, x);
        }
      }
      SwapAtValues(g0, x, activeFrame);
    }

    /**
      Scans column x upwards from the bottom, tracking the current stretch of
      equal cells, and lists every cell of each stretch of three or more
      blocks; `found` tells whether any was listed.
     */
    static method ScanColumn(grid: seq<seq<int>>, x: int) returns (marks: seq<(int, int)>, found: bool)
      requires IsGrid(grid) && 0 <= x < Width
      ensures forall p :: p in marks ==> p.0 == x && 0 <= p.1 < Height
      ensures forall k :: 0 <= k < Height ==> ((x, k) in marks <==> InRun(Col(grid, x), k))
      ensures |marks| == Matched(Col(grid, x), 0)
      ensures found <==> |marks| > 0
    {
      ghost var s := Col(grid, x);
      marks := [];
      found := false;
      var count := 1;
      var currentType := grid[Height - 1][x];
      var y := Height - 2;
      while y >= 0
        invariant -1 <= y <= Height - 2
        invariant 1 <= count && y + count < Height
        invariant currentType == s[y + 1] && Uniform(s, y + 1, y + count, currentType)
        invariant currentType != 0 ==> y + count == Height - 1 || s[y + count + 1] != currentType
        invariant currentType == 0 ==> count == 1
        invariant forall p :: p in marks ==> p.0 == x && y + count < p.1 < Height
        invariant forall k :: 0 <= k < Height ==> ((x, k) in marks <==> y + count < k && InRun(s, k))
        invariant |marks| == Matched(s, y + count + 1)
        invariant found <==> |marks| > 0
      {
        if grid[y][x] == currentType && currentType != 0 {
          count := count + 1;
        } else {
          marks, found := CloseStretch(s, marks, found, x, y + 1, count, currentType);
          count := 1;
          currentType := grid[y][x];
        }
        y := y - 1;
      }
      marks, found := CloseStretch(s, marks, found, x, 0, count, currentType);
    }

    /**
      Ends the stretch of `count` cells of value v starting at row `top`:
      its cells are listed when it holds three or more blocks.
     */
    static method CloseStretch(ghost s: seq<int>, marks: seq<(int, int)>, found: bool, x: int, top: nat, count: nat, v: int)
      returns (marks': seq<(int, int)>, found': bool)
      requires 1 <= count && top + count <= |s| == Height && Uniform(s, top, top + count - 1, v)
      requires v != 0 ==> top == 0 || s[top - 1] != v
      requires v != 0 ==> top + count == |s| || s[top + count] != v
      requires forall p :: p in marks ==> p.0 == x && top + count <= p.1 < Height
      requires forall k :: 0 <= k < Height ==> ((x, k) in marks <==> top + count <= k && InRun(s, k))
      requires |marks| == Matched(s, top + count)
      requires found <==> |marks| > 0
      ensures forall p :: p in marks' ==> p.0 == x && top <= p.1 < Height
      ensures forall k :: 0 <= k < Height ==> ((x, k) in marks' <==> top <= k && InRun(s, k))
      ensures |marks'| == Matched(s, top)
      ensures found' <==> |marks'| > 0
    {
      CloseRun(s, top, top + count - 1, v);
      marks', found' := marks, found;
      if count >= 3 && v != 0 {
        marks' := MarkRun(marks, x, top, count);
        found' := true;
      }
    }

    /** Appends the cells of column x from row `top` down, `count` of them. */
    static method MarkRun(marks: seq<(int, int)>, x: int, top: int, count: nat) returns (r: seq<(int, int)>)
      ensures |r| == |marks| + count
      ensures forall p :: p in r <==> p in marks || (p.0 == x && top <= p.1 < top + count)
    {
      r := marks;
      for i := 0 to count
        invariant |r| == |marks| + i
        invariant forall p :: p in r <==> p in marks || (p.0 == x && top <= p.1 < top + i)
      {
        r := r + [(x, top + i)];
      }
    }

    /**
      Removes every vertical run of three or more equal blocks: lists the
      cells column by column, empties them, adds 100 points per cell and a
      line per three cells.
     */
    method CheckMatches()
      requires Valid()
      modifies this`grid, this`score, this`lines
      ensures Valid()
      ensures RunsCleared(old(grid), grid)
      ensures score == old(score) + Total(old(grid), Width) * 100
      ensures lines == old(lines) + Total(old(grid), Width) / 3
    {
      ghost var g0 := grid;
      var toRemove, hasMatches := CollectMatches();
      if hasMatches {
        grid := ClearCells(grid, toRemove);
        score := score + |toRemove| * 100;
        lines := lines + |toRemove| / 3;
      }
    }

    /** Lists, column by column, every cell lying in a vertical run of three or more blocks. */
    method CollectMatches() returns (toRemove: seq<(int, int)>, hasMatches: bool)
      requires Valid()
      ensures forall p :: p in toRemove ==> 0 <= p.0 < Width && 0 <= p.1 < Height
      ensures forall x, y :: 0 <= x < Width && 0 <= y < Height ==> ((x, y) in toRemove <==> InRun(Col(grid, x), y))
      ensures |toRemove| == Total(grid, Width)
      ensures hasMatches <==> |toRemove| > 0
    {
      hasMatches := false;
      toRemove := [];
      for x := 0 to Width
        invariant forall p :: p in toRemove ==> 0 <= p.0 < x && 0 <= p.1 < Height && InRun(Col(grid, p.0), p.1)
        invariant forall i, k :: 0 <= i < x && 0 <= k < Height && InRun(Col(grid, i), k) ==> (i, k) in toRemove
        invariant |toRemove| == Total(grid, x)
        invariant hasMatches <==> |toRemove| > 0
      {
        var marks, found := ScanColumn(grid, x);
        toRemove := toRemove + marks;
        hasMatches := hasMatches || found;
      }
    }

    /** Empties the listed cells (column, row) and nothing else. */
    static method ClearCells(g: seq<seq<int>>, cells: seq<(int, int)>) returns (h: seq<seq<int>>)
      requires IsGrid(g) && forall p :: p in cells ==> 0 <= p.0 < Width && 0 <= p.1 < Height
      ensures IsGrid(h)
      ensures forall y, x :: 0 <= y < Height && 0 <= x < Width ==> h[y][x] == if (x, y) in cells then 0 else g[y][x]
    {
      h := g;
      for i := 0 to |cells|
        invariant IsGrid(h)
        invariant forall y, x :: 0 <= y < Height && 0 <= x < Width ==>
                    h[y][x] == if (x, y) in cells[..i] then 0 else g[y][x]
      {
        var pos := cells[i];
        assert cells[..i + 1] == cells[..i] + [pos];
        h := h[pos.1 := h[pos.1][pos.0 := 0]];
      }
      assert cells[..|cells|] == cells;
    }

    /** Column x after gravity; the other columns are untouched. */
    static method DropColumn(g: seq<seq<int>>, x: int) returns (h: seq<seq<int>>)
      requires IsGrid(g) && 0 <= x < Width
      ensures IsGrid(h)
      ensures Col(h, x) == Settle(Col(g, x))
      ensures forall y, j :: 0 <= y < Height && 0 <= j < Width && j != x ==> h[y][j] == g[y][j]
    {
      var column := GatherColumn(g, x);
      h := StackColumn(g, x, column);
      ghost var s := Col(g, x);
      forall k | 0 <= k < Height
        ensures Col(h, x)[k] == Settle(s)[k]
      {
      }
    }

    /** The blocks of column x, collected from the bottom row upwards. */
    static method GatherColumn(g: seq<seq<int>>, x: int) returns (column: seq<int>)
      requires IsGrid(g) && 0 <= x < Width
      ensures column == Gathered(Col(g, x))
    {
      ghost var s := Col(g, x);
      column := [];
      var y: int := Height - 1;
      while y >= 0
        invariant -1 <= y < Height
        invariant column == Gathered(s[y + 1..])
      {
        GatherStep(s, y);
        if g[y][x] != 0 {
          column := column + [g[y][x]];
        }
        y := y - 1;
      }
    }

    /** Gathering from row y on adds s[y], if it is a block, after the blocks below it. */
    static lemma GatherStep(s: seq<int>, y: nat)
      requires y < |s|
      ensures Gathered(s[y..]) == Gathered(s[y + 1..]) + (if s[y] != 0 then [s[y]] else [])
    {
      assert s[y..][1..] == s[y + 1..];
    }

    /** Column x emptied, then refilled from the bottom row upwards with `column`. */
    static method StackColumn(g: seq<seq<int>>, x: int, column: seq<int>) returns (h: seq<seq<int>>)
      requires IsGrid(g) && 0 <= x < Width && |column| <= Height
      ensures IsGrid(h)
      ensures forall k :: 0 <= k < Height ==> h[k][x] == if Height - 1 - k < |column| then column[Height - 1 - k] else 0
      ensures forall k, j :: 0 <= k < Height && 0 <= j < Width && j != x ==> h[k][j] == g[k][j]
    {
      h := g;
      for k := 0 to Height
        invariant IsGrid(h)
        invariant forall i :: 0 <= i < k ==> h[i][x] == 0
        invariant forall i, j :: 0 <= i < Height && 0 <= j < Width && j != x ==> h[i][j] == g[i][j]
      {
        h := h[k := h[k][x := 0]];
      }
      for i := 0 to |column|
        invariant IsGrid(h)
        invariant forall k :: 0 <= k < Height ==> h[k][x] == if Height - 1 - k < i then column[Height - 1 - k] else 0
        invariant forall k, j :: 0 <= k < Height && 0 <= j < Width && j != x ==> h[k][j] == g[k][j]
      {
        h := h[Height - 1 - i := h[Height - 1 - i][x := column[i]]];
      }
    }

    /** Gravity in every column. */
    method DropBlocks()
      requires Valid()
      modifies this`grid
      ensures Valid()
      ensures forall x :: 0 <= x < Width ==> Col(grid, x) == Settle(Col(old(grid), x))
    {
      for x := 0 to Width
        invariant IsGrid(grid)
        invariant forall i :: 0 <= i < x ==> Col(grid, i) == Settle(Col(old(grid), i))
        invariant forall i :: x <= i < Width ==> Col(grid, i) == Col(old(grid), i)
      {
        ghost var before := grid;
        grid := DropColumn(grid, x);
        forall i | 0 <= i < Width && i != x
          ensures Col(grid, i) == Col(before, i)
        {
        }
      }
      forall y, x | 0 <= y < Height && 0 <= x < Width
        ensures 0 <= grid[y][x] <= BlockKinds
      {
        SettleValues(Col(old(grid), x));
        assert grid[y][x] == Col(grid, x)[y];
        assert Col(old(grid), x)[y] == old(grid)[y][x];
      }
    }

    /**
      Pushes every row up one and adds a bottom row of arbitrary blocks or
      gaps; if the top row already holds a block the game ends instead and
      the grid is left as it is.
     */
    method AddNewRow()
      requires Valid()
      modifies this`grid, this`state, this`gameRunning, this`highScore
      ensures Valid()
      ensures TopRowFilled(old(grid)) ==>
                grid == old(grid) && state == GameOver && !gameRunning
                && highScore == if score > old(highScore) then score else old(highScore)
      ensures !TopRowFilled(old(grid)) ==>
                PushedUp(old(grid), grid) && state == old(state) && gameRunning == old(gameRunning)
                && highScore == old(highScore)
    {
      for x := 0 to Width
        invariant grid == old(grid) && state == old(state) && gameRunning == old(gameRunning)
        invariant highScore == old(highScore)
        invariant forall j :: 0 <= j < x ==> grid[0][j] == 0
      {
        if grid[0][x] != 0 {
          Stop();
          return;
        }
      }
      ghost var g0 := grid;
      for y := 0 to Height - 1
        invariant IsGrid(grid) && BlockValues(grid)
        invariant state == old(state) && gameRunning == old(gameRunning) && highScore == old(highScore)
        invariant forall i, j :: 0 <= i < y && 0 <= j < Width ==> grid[i][j] == g0[i + 1][j]
        invariant forall i, j :: y <= i < Height && 0 <= j < Width ==> grid[i][j] == g0[i][j]
      {
        for x := 0 to Width
          invariant IsGrid(grid) && BlockValues(grid)
          invariant state == old(state) && gameRunning == old(gameRunning) && highScore == old(highScore)
          invariant forall i, j :: 0 <= i < y && 0 <= j < Width ==> grid[i][j] == g0[i + 1][j]
          invariant forall j :: 0 <= j < x ==> grid[y][j] == g0[y + 1][j]
          invariant forall j :: x <= j < Width ==> grid[y][j] == g0[y][j]
          invariant forall i, j :: y < i < Height && 0 <= j < Width ==> grid[i][j] == g0[i][j]
        {
          grid := grid[y := grid[y][x := grid[y + 1][x]]];
        }
      }
      for x := 0 to Width
        invariant IsGrid(grid) && BlockValues(grid)
        invariant state == old(state) && gameRunning == old(gameRunning) && highScore == old(highScore)
        invariant forall i, j :: 0 <= i < Height - 1 && 0 <= j < Width ==> grid[i][j] == g0[i + 1][j]
      {
        var v :| 0 <= v <= BlockKinds;
        grid := grid[Height - 1 := grid[Height - 1][x := v]];
      }
    }

    /**
      One frame with `deltaTime` elapsed: while running, the timer advances;
      when it reaches the interval a row is pushed in, the timer restarts,
      and once the lines reach ten per level the level rises and the interval
      shrinks by 50 ms, never below 500 ms.
     */
    method Update(deltaTime: int)
      requires Valid()
      modifies this
      ensures Valid()
      ensures !old(gameRunning) ==>
                grid == old(grid) && dropTimer == old(dropTimer) && level == old(level)
                && dropInterval == old(dropInterval) && state == old(state)
                && !gameRunning && highScore == old(highScore)
      ensures old(gameRunning) && old(dropTimer) + deltaTime < old(dropInterval) ==>
                grid == old(grid) && dropTimer == old(dropTimer) + deltaTime
                && level == old(level) && dropInterval == old(dropInterval) && state == old(state)
                && gameRunning && highScore == old(highScore)
      ensures old(gameRunning) && old(dropTimer) + deltaTime >= old(dropInterval) ==>
                dropTimer == 0
                && (TopRowFilled(old(grid)) ==>
                      grid == old(grid) && state == GameOver && !gameRunning
                      && highScore == if old(score) > old(highScore) then old(score) else old(highScore))
                && (!TopRowFilled(old(grid)) ==>
                      PushedUp(old(grid), grid) && state == old(state) && gameRunning
                      && highScore == old(highScore))
                && level == (if old(lines) >= old(level) * 10 then old(level) + 1 else old(level))
                && dropInterval == (if old(lines) >= old(level) * 10 then
                                      (if old(dropInterval) - 50 < 500 then 500 else old(dropInterval) - 50)
                                    else old(dropInterval))
      ensures score == old(score) && lines == old(lines)
      ensures framePosition == old(framePosition) && activeFrame == old(activeFrame)
    {
      if !gameRunning {
        return;
      }
      dropTimer := dropTimer + deltaTime;
      if dropTimer >= dropInterval {
        AddNewRow();
        dropTimer := 0;
        if lines >= level * 10 {
          level := level + 1;
          dropInterval := if 500 > dropInterval - 50 then 500 else dropInterval - 50;
        }
      }
    }
  }

  /** Gravity only moves values: a column of block values stays one. */
  lemma SettleValues(s: seq<int>)
    requires forall k :: 0 <= k < |s| ==> 0 <= s[k] <= BlockKinds
    ensures forall k :: 0 <= k < |s| ==> 0 <= Settle(s)[k] <= BlockKinds
  {
    GatheredValues(s);
  }

  lemma {:induction false} GatheredValues(s: seq<int>)
    requires forall k :: 0 <= k < |s| ==> 0 <= s[k] <= BlockKinds
    ensures forall i :: 0 <= i < |Gathered(s)| ==> 0 < Gathered(s)[i] <= BlockKinds
  {
    if s != [] {
      GatheredValues(s[1..]);
    }
  }
}
