/**
  The mine-clearing game: a 9 x 9 field holding 10 mines, where every other
  cell shows the number of mines among its neighbours; clicking reveals a
  cell (and floods open the area around a zero), flags mark suspected mines,
  and the game is won by revealing every safe cell or by flagging exactly
  the mines.
 */
module Minesweeper {

  const Rows: nat := 9
  const Cols: nat := 9
  const MineTotal: nat := 10

  /** A field cell: a mine, or the number shown on a safe cell. */
  datatype Cell = Mine | Count(n: nat)

  /** g has `rows` rows of `cols` entries each. */
  predicate IsGrid<X>(g: seq<seq<X>>, rows: nat, cols: nat)
  {
    |g| == rows && forall i :: 0 <= i < rows ==> |g[i]| == cols
  }

  /** The positions of row i of a grid `cols` wide. */
  function RowCells(i: int, cols: nat): (s: set<(int, int)>)
    ensures forall p :: p in s <==> p.0 == i && 0 <= p.1 < cols
    ensures |s| == cols
  {
    if cols == 0 then {} else RowCells(i, cols - 1) + {(i, cols - 1)}
  }

  /** Every position of a rows x cols grid; there are rows * cols of them. */
  function Cells(rows: nat, cols: nat): (s: set<(int, int)>)
    ensures forall p :: p in s <==> 0 <= p.0 < rows && 0 <= p.1 < cols
    ensures |s| == rows * cols
  {
    if rows == 0 then {}
    else
      var a, b := Cells(rows - 1, cols), RowCells(rows - 1, cols);
      assert a * b == {};
      a + b
  }

  /** The positions of the mines. */
  function MineSet(f: seq<seq<Cell>>, rows: nat, cols: nat): set<(int, int)>
    requires IsGrid(f, rows, cols)
  {
    set i, j | 0 <= i < rows && 0 <= j < cols && f[i][j] == Mine :: (i, j)
  }

  /** Removing a subset leaves the difference in size. */
  lemma FreeCount<T>(a: set<T>, b: set<T>)
    requires a <= b
    ensures |b - a| == |b| - |a|
  {
    assert b == a + (b - a);
  }

  /** Mining a safe cell adds exactly that position to the mines. */
  lemma MineSetAdd(f: seq<seq<Cell>>, rows: nat, cols: nat, r: int, c: int)
    requires IsGrid(f, rows, cols) && 0 <= r < rows && 0 <= c < cols && f[r][c] != Mine
    ensures IsGrid(f[r := f[r][c := Mine]], rows, cols)
    ensures MineSet(f[r := f[r][c := Mine]], rows, cols) == MineSet(f, rows, cols) + {(r, c)}
    ensures (r, c) !in MineSet(f, rows, cols)
  {
  }

  /** Mines lie on the field. */
  lemma MinesOnField(f: seq<seq<Cell>>, rows: nat, cols: nat)
    requires IsGrid(f, rows, cols)
    ensures MineSet(f, rows, cols) <= Cells(rows, cols)
  {
  }

  /** 1 when (r, c) lies inside f and holds a mine, else 0. */
  function MineAt(f: seq<seq<Cell>>, r: int, c: int): (n: nat)
    ensures n <= 1
  {
    if 0 <= r < |f| && 0 <= c < |f[r]| && f[r][c] == Mine then 1 else 0
  }

  /** The number of mines among the in-bounds 8-neighbours of (r, c). */
  function AdjacentMines(f: seq<seq<Cell>>, r: int, c: int): (n: nat)
    ensures n <= 8
  {
    MineAt(f, r - 1, c - 1) + MineAt(f, r - 1, c) + MineAt(f, r - 1, c + 1)
    + MineAt(f, r, c - 1) + MineAt(f, r, c + 1)
    + MineAt(f, r + 1, c - 1) + MineAt(f, r + 1, c) + MineAt(f, r + 1, c + 1)
  }

  /** Mines among the first k cells (k <= 3) of row r of the 3 x 3 block around column c. */
  function Strip(f: seq<seq<Cell>>, r: int, c: int, k: nat): nat
    requires k <= 3
  {
    if k == 0 then 0 else Strip(f, r, c, k - 1) + MineAt(f, r, c - 2 + k)
  }

  /** Mines among the first k rows (k <= 3) of the 3 x 3 block around (r, c). */
  function Block(f: seq<seq<Cell>>, r: int, c: int, k: nat): nat
    requires k <= 3
  {
    if k == 0 then 0 else Block(f, r, c, k - 1) + Strip(f, r - 2 + k, c, 3)
  }

  /** Around a safe cell, the whole 3 x 3 block counts exactly the neighbouring mines. */
  lemma BlockIsAdjacent(f: seq<seq<Cell>>, r: int, c: int)
    requires MineAt(f, r, c) == 0
    ensures Block(f, r, c, 3) == AdjacentMines(f, r, c)
  {
    BlockThree(f, r, c);
    StripThree(f, r - 1, c);
    StripThree(f, r, c);
    StripThree(f, r + 1, c);
  }

  lemma StripThree(f: seq<seq<Cell>>, r: int, c: int)
    ensures Strip(f, r, c, 3) == MineAt(f, r, c - 1) + MineAt(f, r, c) + MineAt(f, r, c + 1)
  {
    assert Strip(f, r, c, 1) == MineAt(f, r, c - 1);
    assert Strip(f, r, c, 2) == Strip(f, r, c, 1) + MineAt(f, r, c);
  }

  lemma BlockThree(f: seq<seq<Cell>>, r: int, c: int)
    ensures Block(f, r, c, 3) == Strip(f, r - 1, c, 3) + Strip(f, r, c, 3) + Strip(f, r + 1, c, 3)
  {
    assert Block(f, r, c, 1) == Strip(f, r - 1, c, 3);
    assert Block(f, r, c, 2) == Block(f, r, c, 1) + Strip(f, r, c, 3);
  }

  /** Every safe cell shows the number of its neighbouring mines. */
  predicate Numbered(f: seq<seq<Cell>>, rows: nat, cols: nat)
    requires IsGrid(f, rows, cols)
    ensures Numbered(f, rows, cols) ==>
              forall i, j :: 0 <= i < rows && 0 <= j < cols && f[i][j] != Mine ==> f[i][j].n <= 8
  {
    forall i, j :: 0 <= i < rows && 0 <= j < cols && f[i][j] != Mine ==>
      f[i][j] == Count(AdjacentMines(f, i, j))
  }

  /** Two fields with mines in the same places count the same neighbours. */
  lemma SameMinesSameCounts(f: seq<seq<Cell>>, g: seq<seq<Cell>>, rows: nat, cols: nat, r: int, c: int)
    requires IsGrid(f, rows, cols) && IsGrid(g, rows, cols)
    requires forall i, j :: 0 <= i < rows && 0 <= j < cols ==> (f[i][j] == Mine <==> g[i][j] == Mine)
    ensures AdjacentMines(f, r, c) == AdjacentMines(g, r, c)
  {
  }

  /** Taking y away from x removes at most |y| elements. */
  lemma DiffBound<T>(x: set<T>, y: set<T>)
    ensures |x - y| >= |x| - |y|
  {
    assert x == (x - y) + (x * y);
    assert y == (x * y) + (y - x);
  }

  /**
    A fresh field: `mines` mines on distinct cells, every other cell numbered
    with its neighbouring mines.
   */
  method CreateMinefield(rows: nat, cols: nat, mines: nat) returns (field: seq<seq<Cell>>)
    requires mines <= rows * cols
    ensures IsGrid(field, rows, cols)
    ensures |MineSet(field, rows, cols)| == mines
    ensures Numbered(field, rows, cols)
  {
    var layout := PlaceMines(rows, cols, mines, {});
    field := NumberCells(layout, rows, cols);
    assert MineSet(field, rows, cols) == MineSet(layout, rows, cols);
  }

  /**
    What regenerating the field until (r, c) is safe can end with: a fresh
    numbered field with `mines` mines, none of them on (r, c).
   */
  method CreateMinefieldSafeAt(rows: nat, cols: nat, mines: nat, r: int, c: int) returns (field: seq<seq<Cell>>)
    requires mines < rows * cols && 0 <= r < rows && 0 <= c < cols
    ensures IsGrid(field, rows, cols)
    ensures |MineSet(field, rows, cols)| == mines
    ensures Numbered(field, rows, cols)
    ensures field[r][c] != Mine
  {
    var layout := PlaceMines(rows, cols, mines, {(r, c)});
    field := NumberCells(layout, rows, cols);
    assert MineSet(field, rows, cols) == MineSet(layout, rows, cols);
  }

  /**
    A field of zeros with `mines` mines added one at a time, each on a cell
    chosen arbitrarily among those not yet mined and not in `avoid`.
   */
  method PlaceMines(rows: nat, cols: nat, mines: nat, avoid: set<(int, int)>) returns (field: seq<seq<Cell>>)
    requires mines + |avoid| <= rows * cols
    ensures IsGrid(field, rows, cols)
    ensures |MineSet(field, rows, cols)| == mines
    ensures MineSet(field, rows, cols) !! avoid
  {
    field := seq(rows, _ => seq(cols, _ => Count(0)));
    NoMinesYet(field, rows, cols);
    var placed := 0;
    while placed < mines
      invariant IsGrid(field, rows, cols)
      invariant placed <= mines
      invariant |MineSet(field, rows, cols)| == placed
      invariant MineSet(field, rows, cols) !! avoid
    {
      field := PlaceOne(field, rows, cols, avoid);
      placed := placed + 1;
    }
  }

  lemma NoMinesYet(f: seq<seq<Cell>>, rows: nat, cols: nat)
    requires IsGrid(f, rows, cols)
    requires forall i, j :: 0 <= i < rows && 0 <= j < cols ==> f[i][j] == Count(0)
    ensures MineSet(f, rows, cols) == {}
  {
  }

  /** Puts one more mine on a cell chosen arbitrarily among those neither mined nor in `avoid`. */
  method PlaceOne(f: seq<seq<Cell>>, rows: nat, cols: nat, avoid: set<(int, int)>) returns (g: seq<seq<Cell>>)
    requires IsGrid(f, rows, cols) && |MineSet(f, rows, cols)| + |avoid| < rows * cols
    ensures IsGrid(g, rows, cols)
    ensures exists r, c :: 0 <= r < rows && 0 <= c < cols && f[r][c] != Mine && (r, c) !in avoid
                           && g == f[r := f[r][c := Mine]]
    ensures |MineSet(g, rows, cols)| == |MineSet(f, rows, cols)| + 1
    ensures MineSet(g, rows, cols) - MineSet(f, rows, cols) !! avoid
  {
    RoomForMine(f, rows, cols, avoid);
    var r, c :| 0 <= r < rows && 0 <= c < cols && f[r][c] != Mine && (r, c) !in avoid;
    MineSetAdd(f, rows, cols, r, c);
    g := f[r := f[r][c := Mine]];
  }

  /** While fewer cells are mined or avoided than the field has, some cell is neither. */
  lemma RoomForMine(f: seq<seq<Cell>>, rows: nat, cols: nat, avoid: set<(int, int)>)
    requires IsGrid(f, rows, cols) && |MineSet(f, rows, cols)| + |avoid| < rows * cols
    ensures exists r, c :: 0 <= r < rows && 0 <= c < cols && f[r][c] != Mine && (r, c) !in avoid
  {
    MinesOnField(f, rows, cols);
    FreeCount(MineSet(f, rows, cols), Cells(rows, cols));
    DiffBound(Cells(rows, cols) - MineSet(f, rows, cols), avoid);
    var p :| p in Cells(rows, cols) - MineSet(f, rows, cols) - avoid;
    assert f[p.0][p.1] != Mine;
  }

  /** Writes into every safe cell the number of mines in the 3 x 3 block around it, row by row. */
  method NumberCells(layout: seq<seq<Cell>>, rows: nat, cols: nat) returns (field: seq<seq<Cell>>)
    requires IsGrid(layout, rows, cols)
    ensures IsGrid(field, rows, cols)
    ensures forall i, j :: 0 <= i < rows && 0 <= j < cols ==> (field[i][j] == Mine <==> layout[i][j] == Mine)
    ensures MineSet(field, rows, cols) == MineSet(layout, rows, cols)
    ensures Numbered(field, rows, cols)
  {
    field := layout;
    for r := 0 to rows
      invariant IsGrid(field, rows, cols)
      invariant forall i, j :: 0 <= i < rows && 0 <= j < cols ==> (field[i][j] == Mine <==> layout[i][j] == Mine)
      invariant forall i, j :: 0 <= i < r && 0 <= j < cols && field[i][j] != Mine ==>
                  field[i][j] == Count(AdjacentMines(layout, i, j))
    {
      for c := 0 to cols
        invariant IsGrid(field, rows, cols)
        invariant forall i, j :: 0 <= i < rows && 0 <= j < cols ==> (field[i][j] == Mine <==> layout[i][j] == Mine)
        invariant forall i, j :: 0 <= i < rows && 0 <= j < cols && (i < r || (i == r && j < c)) && field[i][j] != Mine ==>
                    field[i][j] == Count(AdjacentMines(layout, i, j))
      {
        if field[r][c] == Mine {
          continue;
        }
        var count := CountAround(layout, rows, cols, r, c);
        BlockIsAdjacent(layout, r, c);
        field := field[r := field[r][c := Count(count)]];
      }
    }
    assert MineSet(field, rows, cols) == MineSet(layout, rows, cols);
    forall i, j | 0 <= i < rows && 0 <= j < cols
      ensures AdjacentMines(layout, i, j) == AdjacentMines(field, i, j)
    {
      SameMinesSameCounts(layout, field, rows, cols, i, j);
    }
  }

  /** The mines in the 3 x 3 block around (r, c), the cell itself included. */
  method CountAround(field: seq<seq<Cell>>, rows: nat, cols: nat, r: int, c: int) returns (count: nat)
    requires IsGrid(field, rows, cols)
    ensures count == Block(field, r, c, 3)
  {
    count := 0;
    for dr := -1 to 2
      invariant count == Block(field, r, c, dr + 1)
    {
      for dc := -1 to 2
        invariant count == Block(field, r, c, dr + 1) + Strip(field, r + dr, c, dc + 1)
      {
        var nr, nc := r + dr, c + dc;
        if 0 <= nr < rows && 0 <= nc < cols && field[nr][nc] == Mine {
          count := count + 1;
        }
      }
    }
  }

  /** A grid of `false`. */
  function Blank(): (g: seq<seq<bool>>)
    ensures IsGrid(g, Rows, Cols)
    ensures forall i, j :: 0 <= i < Rows && 0 <= j < Cols ==> !g[i][j]
  {
    seq(Rows, _ => seq(Cols, _ => false))
  }

  /** Nothing revealed in `a` is hidden in `b`. */
  predicate Grows(a: seq<seq<bool>>, b: seq<seq<bool>>)
  {
    IsGrid(a, Rows, Cols) && IsGrid(b, Rows, Cols)
    && forall i, j :: 0 <= i < Rows && 0 <= j < Cols && a[i][j] ==> b[i][j]
  }

  /** Every cell revealed between `a` and `b` is safe. */
  predicate SafeReveal(f: seq<seq<Cell>>, a: seq<seq<bool>>, b: seq<seq<bool>>)
    requires IsGrid(f, Rows, Cols) && Grows(a, b)
  {
    forall i, j :: 0 <= i < Rows && 0 <= j < Cols && b[i][j] && !a[i][j] ==> f[i][j] != Mine
  }

  /** (i, j) is off the field, a mine, or revealed: nothing a flood could still open. */
  predicate Settled(f: seq<seq<Cell>>, b: seq<seq<bool>>, i: int, j: int)
    requires IsGrid(f, Rows, Cols) && IsGrid(b, Rows, Cols)
  {
    !(0 <= i < Rows && 0 <= j < Cols) || f[i][j] == Mine || b[i][j]
  }

  /** The three cells (i, c - 1), (i, c), (i, c + 1) are settled. */
  predicate RowSettled(f: seq<seq<Cell>>, b: seq<seq<bool>>, i: int, c: int)
    requires IsGrid(f, Rows, Cols) && IsGrid(b, Rows, Cols)
  {
    Settled(f, b, i, c - 1) && Settled(f, b, i, c) && Settled(f, b, i, c + 1)
  }

  /** Every safe cell in the 3 x 3 block around (r, c) is revealed. */
  predicate Opened(f: seq<seq<Cell>>, b: seq<seq<bool>>, r: int, c: int)
    requires IsGrid(f, Rows, Cols) && IsGrid(b, Rows, Cols)
  {
    RowSettled(f, b, r - 1, c) && RowSettled(f, b, r, c) && RowSettled(f, b, r + 1, c)
  }

  /** Revealing more keeps a settled cell settled. */
  lemma SettledGrows(f: seq<seq<Cell>>, a: seq<seq<bool>>, b: seq<seq<bool>>, i: int, j: int)
    requires IsGrid(f, Rows, Cols) && Grows(a, b) && Settled(f, a, i, j)
    ensures Settled(f, b, i, j)
  {
  }

  lemma RowSettledGrows(f: seq<seq<Cell>>, a: seq<seq<bool>>, b: seq<seq<bool>>, i: int, c: int)
    requires IsGrid(f, Rows, Cols) && Grows(a, b) && RowSettled(f, a, i, c)
    ensures RowSettled(f, b, i, c)
  {
    SettledGrows(f, a, b, i, c - 1);
    SettledGrows(f, a, b, i, c);
    SettledGrows(f, a, b, i, c + 1);
  }

  lemma OpenedGrows(f: seq<seq<Cell>>, a: seq<seq<bool>>, b: seq<seq<bool>>, r: int, c: int)
    requires IsGrid(f, Rows, Cols) && Grows(a, b) && Opened(f, a, r, c)
    ensures Opened(f, b, r, c)
  {
    RowSettledGrows(f, a, b, r - 1, c);
    RowSettledGrows(f, a, b, r, c);
    RowSettledGrows(f, a, b, r + 1, c);
  }

  /** Rows lo .. hi - 1 of the block around column c are settled. */
  predicate RowsSettled(f: seq<seq<Cell>>, b: seq<seq<bool>>, lo: int, hi: int, c: int)
    requires IsGrid(f, Rows, Cols) && IsGrid(b, Rows, Cols)
  {
    forall i :: lo <= i < hi ==> RowSettled(f, b, i, c)
  }

  /** Cells (row, lo) .. (row, hi - 1) are settled. */
  predicate SpanSettled(f: seq<seq<Cell>>, b: seq<seq<bool>>, row: int, lo: int, hi: int)
    requires IsGrid(f, Rows, Cols) && IsGrid(b, Rows, Cols)
  {
    forall j :: lo <= j < hi ==> Settled(f, b, row, j)
  }

  lemma RowsSettledGrows(f: seq<seq<Cell>>, a: seq<seq<bool>>, b: seq<seq<bool>>, lo: int, hi: int, c: int)
    requires IsGrid(f, Rows, Cols) && Grows(a, b) && RowsSettled(f, a, lo, hi, c)
    ensures RowsSettled(f, b, lo, hi, c)
  {
    forall i | lo <= i < hi
      ensures RowSettled(f, b, i, c)
    {
      RowSettledGrows(f, a, b, i, c);
    }
  }

  lemma SpanSettledGrows(f: seq<seq<Cell>>, a: seq<seq<bool>>, b: seq<seq<bool>>, row: int, lo: int, hi: int)
    requires IsGrid(f, Rows, Cols) && Grows(a, b) && SpanSettled(f, a, row, lo, hi)
    ensures SpanSettled(f, b, row, lo, hi)
  {
    forall j | lo <= j < hi
      ensures Settled(f, b, row, j)
    {
      SettledGrows(f, a, b, row, j);
    }
  }

  /** Every zero revealed between `a` and `b` has its whole safe surrounding revealed. */
  predicate ZerosOpened(f: seq<seq<Cell>>, a: seq<seq<bool>>, b: seq<seq<bool>>)
    requires IsGrid(f, Rows, Cols) && Grows(a, b)
  {
    forall i, j {:trigger Opened(f, b, i, j)} ::
      0 <= i < Rows && 0 <= j < Cols && b[i][j] && !a[i][j] && f[i][j] == Count(0) ==> Opened(f, b, i, j)
  }

  /** What a flood from `a` to `b` guarantees. */
  predicate Flooded(f: seq<seq<Cell>>, a: seq<seq<bool>>, b: seq<seq<bool>>)
    requires IsGrid(f, Rows, Cols)
  {
    Grows(a, b) && SafeReveal(f, a, b) && ZerosOpened(f, a, b)
  }

  /** Revealing nothing is a flood. */
  lemma FloodedNone(f: seq<seq<Cell>>, a: seq<seq<bool>>)
    requires IsGrid(f, Rows, Cols) && IsGrid(a, Rows, Cols)
    ensures Flooded(f, a, a)
  {
  }

  /** The hidden cells. */
  function Hidden(b: seq<seq<bool>>): set<(int, int)>
    requires IsGrid(b, Rows, Cols)
  {
    set i, j | 0 <= i < Rows && 0 <= j < Cols && !b[i][j] :: (i, j)
  }

  /** Revealing more never adds hidden cells. */
  lemma HiddenNoMore(a: seq<seq<bool>>, b: seq<seq<bool>>)
    requires Grows(a, b)
    ensures |Hidden(b)| <= |Hidden(a)|
  {
    assert Hidden(a) == Hidden(b) + (Hidden(a) - Hidden(b));
  }

  /** Revealing at least one more cell leaves fewer hidden cells. */
  lemma HiddenShrinks(a: seq<seq<bool>>, b: seq<seq<bool>>, r: int, c: int)
    requires Grows(a, b) && 0 <= r < Rows && 0 <= c < Cols && !a[r][c] && b[r][c]
    ensures |Hidden(b)| < |Hidden(a)|
  {
    var d := Hidden(a) - {(r, c)};
    assert Hidden(b) <= d;
    assert d == Hidden(b) + (d - Hidden(b));
  }

  /** Two floods one after the other are one flood. */
  lemma FloodCompose(f: seq<seq<Cell>>, a: seq<seq<bool>>, m: seq<seq<bool>>, b: seq<seq<bool>>)
    requires IsGrid(f, Rows, Cols) && Flooded(f, a, m) && Flooded(f, m, b)
    ensures Flooded(f, a, b)
  {
    forall i, j | 0 <= i < Rows && 0 <= j < Cols && b[i][j] && !a[i][j] && f[i][j] == Count(0)
      ensures Opened(f, b, i, j)
    {
      if m[i][j] {
        OpenedGrows(f, m, b, i, j);
      }
    }
  }

  /** Revealing one more safe cell, then a flood that opens its surrounding, is a flood. */
  lemma RevealThenFlood(f: seq<seq<Cell>>, a: seq<seq<bool>>, m: seq<seq<bool>>, b: seq<seq<bool>>, r: int, c: int)
    requires IsGrid(f, Rows, Cols) && IsGrid(a, Rows, Cols) && 0 <= r < Rows && 0 <= c < Cols
    requires f[r][c] != Mine && m == a[r := a[r][c := true]]
    requires Flooded(f, m, b) && Opened(f, b, r, c)
    ensures Flooded(f, a, b)
  {
    forall i, j | 0 <= i < Rows && 0 <= j < Cols && b[i][j] && !a[i][j]
      ensures f[i][j] != Mine && (f[i][j] == Count(0) ==> Opened(f, b, i, j))
    {
      if (i, j) != (r, c) {
        assert !m[i][j];
      }
    }
  }

  /** Revealing one more cell that is safe and not a zero is a flood. */
  lemma RevealOne(f: seq<seq<Cell>>, a: seq<seq<bool>>, r: int, c: int)
    requires IsGrid(f, Rows, Cols) && IsGrid(a, Rows, Cols) && 0 <= r < Rows && 0 <= c < Cols
    requires f[r][c] != Mine && f[r][c] != Count(0)
    ensures Flooded(f, a, a[r := a[r][c := true]])
  {
    var b := a[r := a[r][c := true]];
    forall i, j | 0 <= i < Rows && 0 <= j < Cols && b[i][j] && !a[i][j]
      ensures (i, j) == (r, c)
    {
    }
  }

  /** The positions of the 3 x 3 block around (r, c). */
  function Around(r: int, c: int): set<(int, int)>
  {
    set i, j | r - 1 <= i <= r + 1 && c - 1 <= j <= c + 1 :: (i, j)
  }

  /** A settled block leaves every position of it settled. */
  lemma OpenedAround(f: seq<seq<Cell>>, b: seq<seq<bool>>, r: int, c: int, p: (int, int))
    requires IsGrid(f, Rows, Cols) && IsGrid(b, Rows, Cols) && Opened(f, b, r, c) && p in Around(r, c)
    ensures Settled(f, b, p.0, p.1)
  {
  }

  /** (i, j) is on the field, hidden in `a` and revealed in `b`. */
  predicate Fresh(a: seq<seq<bool>>, b: seq<seq<bool>>, p: (int, int))
    requires Grows(a, b)
  {
    0 <= p.0 < Rows && 0 <= p.1 < Cols && b[p.0][p.1] && !a[p.0][p.1]
  }

  /** p is on the field and shows zero. */
  predicate ZeroAt(f: seq<seq<Cell>>, p: (int, int))
    requires IsGrid(f, Rows, Cols)
  {
    0 <= p.0 < Rows && 0 <= p.1 < Cols && f[p.0][p.1] == Count(0)
  }

  /** order[k] lies in the block of a zero listed before it. */
  predicate Spread(f: seq<seq<Cell>>, order: seq<(int, int)>, k: int)
    requires IsGrid(f, Rows, Cols) && 0 <= k < |order|
  {
    exists m :: 0 <= m < k && ZeroAt(f, order[m]) && order[k] in Around(order[m].0, order[m].1)
  }

  /**
    The cells revealed between `a` and `b`, listed in `order` in the order a
    flood reveals them: each lies among the `roots` or in the block of a zero
    revealed before it, and nothing else is revealed.
   */
  ghost predicate Reached(f: seq<seq<Cell>>, a: seq<seq<bool>>, b: seq<seq<bool>>,
                          roots: set<(int, int)>, order: seq<(int, int)>)
    requires IsGrid(f, Rows, Cols) && Grows(a, b)
  {
    (forall k :: 0 <= k < |order| ==> Fresh(a, b, order[k]))
    && (forall i, j :: 0 <= i < Rows && 0 <= j < Cols && b[i][j] && !a[i][j] ==> (i, j) in order)
    && (forall k :: 0 <= k < |order| ==> order[k] in roots || Spread(f, order, k))
  }

  /** A flood from `a` to `b` whose reveals are reached from the roots in the given order. */
  ghost predicate FloodedFrom(f: seq<seq<Cell>>, a: seq<seq<bool>>, b: seq<seq<bool>>,
                              roots: set<(int, int)>, order: seq<(int, int)>)
    requires IsGrid(f, Rows, Cols)
  {
    Flooded(f, a, b) && Reached(f, a, b, roots, order)
  }

  /** Revealing nothing reaches nothing. */
  lemma ReachedNone(f: seq<seq<Cell>>, a: seq<seq<bool>>, roots: set<(int, int)>)
    requires IsGrid(f, Rows, Cols) && IsGrid(a, Rows, Cols)
    ensures Reached(f, a, a, roots, [])
  {
  }

  /** Revealing one hidden cell reaches it from itself. */
  lemma ReachedOne(f: seq<seq<Cell>>, a: seq<seq<bool>>, r: int, c: int)
    requires IsGrid(f, Rows, Cols) && IsGrid(a, Rows, Cols) && 0 <= r < Rows && 0 <= c < Cols && !a[r][c]
    ensures Grows(a, a[r := a[r][c := true]])
    ensures Reached(f, a, a[r := a[r][c := true]], {(r, c)}, [(r, c)])
  {
    var b := a[r := a[r][c := true]];
    forall i, j | 0 <= i < Rows && 0 <= j < Cols && b[i][j] && !a[i][j]
      ensures (i, j) == (r, c)
    {
    }
  }

  /**
    A zero revealed from `a` to `m`, followed by a flood from its block, is
    reached from the zero alone.
   */
  lemma ReachedFromZero(f: seq<seq<Cell>>, a: seq<seq<bool>>, m: seq<seq<bool>>, b: seq<seq<bool>>,
                        r: int, c: int, sub: seq<(int, int)>)
    requires IsGrid(f, Rows, Cols) && IsGrid(a, Rows, Cols) && 0 <= r < Rows && 0 <= c < Cols
    requires !a[r][c] && f[r][c] == Count(0) && m == a[r := a[r][c := true]]
    requires Grows(m, b) && Reached(f, m, b, Around(r, c), sub)
    ensures Grows(a, b) && Reached(f, a, b, {(r, c)}, [(r, c)] + sub)
  {
    var order := [(r, c)] + sub;
    assert ZeroAt(f, order[0]);
    forall k | 0 <= k < |order|
      ensures Fresh(a, b, order[k]) && (order[k] in {(r, c)} || Spread(f, order, k))
    {
      if k > 0 {
        assert order[k] == sub[k - 1] && Fresh(m, b, sub[k - 1]);
        if sub[k - 1] in Around(r, c) {
          assert 0 <= 0 < k && ZeroAt(f, order[0]) && order[k] in Around(order[0].0, order[0].1);
        } else {
          assert Spread(f, sub, k - 1);
          var n :| 0 <= n < k - 1 && ZeroAt(f, sub[n]) && sub[k - 1] in Around(sub[n].0, sub[n].1);
          assert order[n + 1] == sub[n];
        }
      }
    }
    forall i, j | 0 <= i < Rows && 0 <= j < Cols && b[i][j] && !a[i][j]
      ensures (i, j) in order
    {
      if (i, j) != (r, c) {
        assert !m[i][j];
      }
    }
  }

  /** A flood reached from the roots, then one reached from a further root, is reached from the roots. */
  lemma ReachedJoin(f: seq<seq<Cell>>, a: seq<seq<bool>>, m: seq<seq<bool>>, b: seq<seq<bool>>,
                    roots: set<(int, int)>, o1: seq<(int, int)>, p: (int, int), o2: seq<(int, int)>)
    requires IsGrid(f, Rows, Cols) && Grows(a, m) && Grows(m, b) && p in roots
    requires Reached(f, a, m, roots, o1) && Reached(f, m, b, {p}, o2)
    ensures Grows(a, b) && Reached(f, a, b, roots, o1 + o2)
  {
    var order := o1 + o2;
    forall k | 0 <= k < |order|
      ensures Fresh(a, b, order[k]) && (order[k] in roots || Spread(f, order, k))
    {
      if k < |o1| {
        assert order[k] == o1[k] && Fresh(a, m, o1[k]);
        if o1[k] !in roots {
          assert Spread(f, o1, k);
          var n :| 0 <= n < k && ZeroAt(f, o1[n]) && o1[k] in Around(o1[n].0, o1[n].1);
          assert order[n] == o1[n];
        }
      } else {
        var k2 := k - |o1|;
        assert order[k] == o2[k2] && Fresh(m, b, o2[k2]);
        if o2[k2] !in {p} {
          assert Spread(f, o2, k2);
          var n :| 0 <= n < k2 && ZeroAt(f, o2[n]) && o2[k2] in Around(o2[n].0, o2[n].1);
          assert order[n + |o1|] == o2[n];
        }
      }
    }
    forall i, j | 0 <= i < Rows && 0 <= j < Cols && b[i][j] && !a[i][j]
      ensures (i, j) in order
    {
      if m[i][j] {
        assert (i, j) in o1;
      } else {
        assert (i, j) in o2;
      }
    }
  }

  /** One neighbour's flood added to a flood reached from the block keeps both guarantees. */
  lemma FloodStep(f: seq<seq<Cell>>, a: seq<seq<bool>>, m: seq<seq<bool>>, b: seq<seq<bool>>,
                  roots: set<(int, int)>, o1: seq<(int, int)>, p: (int, int), o2: seq<(int, int)>)
    requires IsGrid(f, Rows, Cols) && FloodedFrom(f, a, m, roots, o1) && p in roots
    requires Flooded(f, m, b) && Reached(f, m, b, {p}, o2)
    ensures FloodedFrom(f, a, b, roots, o1 + o2)
  {
    FloodCompose(f, a, m, b);
    ReachedJoin(f, a, m, b, roots, o1, p, o2);
  }

  /**
    Every cell of a reached flood from `a` to `b` is revealed in any `b2`
    that grows `a`, has every root settled and opens every zero it reveals.
   */
  lemma {:induction false} ReachedWithin(f: seq<seq<Cell>>, a: seq<seq<bool>>, b: seq<seq<bool>>,
                                         roots: set<(int, int)>, order: seq<(int, int)>,
                                         b2: seq<seq<bool>>, k: nat)
    requires IsGrid(f, Rows, Cols) && Grows(a, b) && SafeReveal(f, a, b) && Reached(f, a, b, roots, order)
    requires Grows(a, b2) && ZerosOpened(f, a, b2) && forall p :: p in roots ==> Settled(f, b2, p.0, p.1)
    requires k <= |order|
    ensures forall n :: 0 <= n < k ==> b2[order[n].0][order[n].1]
  {
    if k > 0 {
      ReachedWithin(f, a, b, roots, order, b2, k - 1);
      ReachedNext(f, a, b, roots, order, b2, k - 1);
    }
  }

  /** The next cell of a reached flood is revealed in `b2` once all before it are. */
  lemma ReachedNext(f: seq<seq<Cell>>, a: seq<seq<bool>>, b: seq<seq<bool>>,
                    roots: set<(int, int)>, order: seq<(int, int)>, b2: seq<seq<bool>>, k: nat)
    requires IsGrid(f, Rows, Cols) && Grows(a, b) && SafeReveal(f, a, b) && Reached(f, a, b, roots, order)
    requires Grows(a, b2) && ZerosOpened(f, a, b2) && forall p :: p in roots ==> Settled(f, b2, p.0, p.1)
    requires k < |order| && forall n :: 0 <= n < k ==> b2[order[n].0][order[n].1]
    ensures b2[order[k].0][order[k].1]
  {
    var p := order[k];
    assert Fresh(a, b, p);
    if p !in roots {
      assert Spread(f, order, k);
      var n :| 0 <= n < k && ZeroAt(f, order[n]) && p in Around(order[n].0, order[n].1);
      var q := order[n];
      assert Fresh(a, b, q) && b2[q.0][q.1];
      OpenedAround(f, b2, q.0, q.1, p);
    }
  }

  /**
    A flood is determined: two reveals from `a` that are floods, both reached
    from the same roots and both settling every root, are the same.
   */
  lemma FloodUnique(f: seq<seq<Cell>>, a: seq<seq<bool>>, roots: set<(int, int)>,
                    b1: seq<seq<bool>>, o1: seq<(int, int)>, b2: seq<seq<bool>>, o2: seq<(int, int)>)
    requires IsGrid(f, Rows, Cols) && Flooded(f, a, b1) && Flooded(f, a, b2)
    requires Reached(f, a, b1, roots, o1) && Reached(f, a, b2, roots, o2)
    requires forall p :: p in roots ==> Settled(f, b1, p.0, p.1) && Settled(f, b2, p.0, p.1)
    ensures b1 == b2
  {
    ReachedWithin(f, a, b1, roots, o1, b2, |o1|);
    ReachedWithin(f, a, b2, roots, o2, b1, |o2|);
    forall i | 0 <= i < Rows
      ensures b1[i] == b2[i]
    {
      forall j | 0 <= j < Cols
        ensures b1[i][j] == b2[i][j]
      {
        if b1[i][j] && !a[i][j] {
          assert (i, j) in o1;
        }
        if b2[i][j] && !a[i][j] {
          assert (i, j) in o2;
        }
      }
    }
  }

  /** The result of a flood from the block of (r, c) is determined by the field and the reveals before it. */
  lemma FloodFillUnique(f: seq<seq<Cell>>, a: seq<seq<bool>>, r: int, c: int,
                        b1: seq<seq<bool>>, o1: seq<(int, int)>, b2: seq<seq<bool>>, o2: seq<(int, int)>)
    requires IsGrid(f, Rows, Cols) && Flooded(f, a, b1) && Flooded(f, a, b2)
    requires Opened(f, b1, r, c) && Reached(f, a, b1, Around(r, c), o1)
    requires Opened(f, b2, r, c) && Reached(f, a, b2, Around(r, c), o2)
    ensures b1 == b2
  {
    forall p | p in Around(r, c)
      ensures Settled(f, b1, p.0, p.1) && Settled(f, b2, p.0, p.1)
    {
      OpenedAround(f, b1, r, c, p);
      OpenedAround(f, b2, r, c, p);
    }
    FloodUnique(f, a, Around(r, c), b1, o1, b2, o2);
  }

  /** Every safe cell is revealed. */
  predicate Won(f: seq<seq<Cell>>, b: seq<seq<bool>>)
    requires IsGrid(f, Rows, Cols) && IsGrid(b, Rows, Cols)
  {
    forall i, j :: 0 <= i < Rows && 0 <= j < Cols && f[i][j] != Mine ==> b[i][j]
  }

  /** Every cell is revealed. */
  predicate AllRevealed(b: seq<seq<bool>>)
  {
    IsGrid(b, Rows, Cols) && forall i, j :: 0 <= i < Rows && 0 <= j < Cols ==> b[i][j]
  }

  /** The flagged positions. */
  function FlagSet(fl: seq<seq<bool>>): set<(int, int)>
    requires IsGrid(fl, Rows, Cols)
  {
    set i, j | 0 <= i < Rows && 0 <= j < Cols && fl[i][j] :: (i, j)
  }

  /** The flagged positions scanned before (r, c) in row-major order. */
  function FlagsBefore(fl: seq<seq<bool>>, r: int, c: int): set<(int, int)>
    requires IsGrid(fl, Rows, Cols)
  {
    set i, j | 0 <= i < Rows && 0 <= j < Cols && (i < r || (i == r && j < c)) && fl[i][j] :: (i, j)
  }

  /** Scanning one more cell adds it to the flags seen exactly when it is flagged. */
  lemma FlagsStep(fl: seq<seq<bool>>, r: int, c: int)
    requires IsGrid(fl, Rows, Cols) && 0 <= r < Rows && 0 <= c < Cols
    ensures FlagsBefore(fl, r, c + 1) == FlagsBefore(fl, r, c) + (if fl[r][c] then {(r, c)} else {})
    ensures (r, c) !in FlagsBefore(fl, r, c)
  {
  }

  /** The end of a row is the start of the next. */
  lemma FlagsRowEnd(fl: seq<seq<bool>>, r: int)
    requires IsGrid(fl, Rows, Cols)
    ensures FlagsBefore(fl, r, Cols) == FlagsBefore(fl, r + 1, 0)
  {
  }

  /** Past the last row every flag has been seen. */
  lemma FlagsAll(fl: seq<seq<bool>>)
    requires IsGrid(fl, Rows, Cols)
    ensures FlagsBefore(fl, Rows, 0) == FlagSet(fl)
  {
  }

  /** Every flag is on a mine and there are exactly as many flags as mines in the game. */
  predicate FlagWon(f: seq<seq<Cell>>, fl: seq<seq<bool>>)
    requires IsGrid(f, Rows, Cols) && IsGrid(fl, Rows, Cols)
  {
    FlagSet(fl) <= MineSet(f, Rows, Cols) && |FlagSet(fl)| == MineTotal
  }

  /** On a field with the game's number of mines, a flag win means the flags mark exactly the mines. */
  lemma FlagWonExact(f: seq<seq<Cell>>, fl: seq<seq<bool>>)
    requires IsGrid(f, Rows, Cols) && IsGrid(fl, Rows, Cols)
    requires |MineSet(f, Rows, Cols)| == MineTotal
    ensures FlagWon(f, fl) <==> FlagSet(fl) == MineSet(f, Rows, Cols)
  {
    if FlagWon(f, fl) {
      var m := MineSet(f, Rows, Cols);
      assert m == FlagSet(fl) + (m - FlagSet(fl));
      assert |m - FlagSet(fl)| == 0;
    }
  }

  /** The flags with the one at (r, c) switched. */
  function Toggled(fl: seq<seq<bool>>, r: int, c: int): (t: seq<seq<bool>>)
    requires IsGrid(fl, Rows, Cols) && 0 <= r < Rows && 0 <= c < Cols
    ensures IsGrid(t, Rows, Cols)
    ensures t[r][c] == !fl[r][c]
    ensures forall i, j :: 0 <= i < Rows && 0 <= j < Cols && (i, j) != (r, c) ==> t[i][j] == fl[i][j]
  {
    fl[r := fl[r][c := !fl[r][c]]]
  }

  /** Toggling the same flag twice restores the flags. */
  lemma ToggleTwice(fl: seq<seq<bool>>, r: int, c: int)
    requires IsGrid(fl, Rows, Cols) && 0 <= r < Rows && 0 <= c < Cols
    ensures Toggled(Toggled(fl, r, c), r, c) == fl
  {
    var t := Toggled(Toggled(fl, r, c), r, c);
    forall i | 0 <= i < Rows
      ensures t[i] == fl[i]
    {
    }
  }

  class Game {
    var minefield: seq<seq<Cell>>
    var revealed: seq<seq<bool>>
    var flagged: seq<seq<bool>>
    var gameOver: bool
    var firstClick: bool

    /** A 9 x 9 field with the game's number of mines, numbered, and 9 x 9 reveal and flag grids. */
    ghost predicate Valid()
      reads this
    {
      IsGrid(minefield, Rows, Cols) && IsGrid(revealed, Rows, Cols) && IsGrid(flagged, Rows, Cols)
      && |MineSet(minefield, Rows, Cols)| == MineTotal && Numbered(minefield, Rows, Cols)
    }

    constructor ()
      ensures Valid() && !gameOver && firstClick
      ensures revealed == Blank() && flagged == Blank()
    {
      new;
      StartGame();
    }

    /** A new game: a fresh field, nothing revealed or flagged. */
    method StartGame()
      modifies this
      ensures Valid() && !gameOver && firstClick
      ensures revealed == Blank() && flagged == Blank()
    {
      minefield := CreateMinefield(Rows, Cols, MineTotal);
      revealed := Blank();
      flagged := Blank();
      gameOver := false;
      firstClick := true;
    }

    /**
      Reveals every safe cell in the 3 x 3 block around (r, c) that is still
      hidden, and floods on from each such cell that shows zero.
     */
    method FloodFill(r: int, c: int) returns (ghost order: seq<(int, int)>)
      requires IsGrid(minefield, Rows, Cols) && IsGrid(revealed, Rows, Cols)
      modifies this`revealed
      ensures Flooded(minefield, old(revealed), revealed)
      ensures Opened(minefield, revealed, r, c)
      ensures Reached(minefield, old(revealed), revealed, Around(r, c), order)
      decreases |Hidden(revealed)|, 3
    {
      ghost var before := revealed;
      FloodedNone(minefield, before);
      ReachedNone(minefield, before, Around(r, c));
      order := [];
      for dr := -1 to 2
        invariant FloodedFrom(minefield, before, revealed, Around(r, c), order)
        invariant |Hidden(revealed)| <= |Hidden(before)|
        invariant RowsSettled(minefield, revealed, r - 1, r + dr, c)
      {
        order := FloodRow(r, c, r + dr, before, order);
      }
    }

    /**
      The inner loop of the flood for one row of the block around (r, c):
      each of (row, c - 1), (row, c), (row, c + 1) in turn. The rows above it
      stay settled.
     */
    method FloodRow(r: int, c: int, row: int, ghost before: seq<seq<bool>>, ghost done: seq<(int, int)>)
      returns (ghost order: seq<(int, int)>)
      requires IsGrid(minefield, Rows, Cols) && r - 1 <= row <= r + 1
      requires FloodedFrom(minefield, before, revealed, Around(r, c), done)
      requires RowsSettled(minefield, revealed, r - 1, row, c)
      modifies this`revealed
      ensures FloodedFrom(minefield, before, revealed, Around(r, c), order)
      ensures |Hidden(revealed)| <= |Hidden(old(revealed))|
      ensures RowsSettled(minefield, revealed, r - 1, row + 1, c)
      decreases |Hidden(revealed)|, 2
    {
      order := done;
      for dc := -1 to 2
        invariant FloodedFrom(minefield, before, revealed, Around(r, c), order)
        invariant |Hidden(revealed)| <= |Hidden(old(revealed))|
        invariant RowsSettled(minefield, revealed, r - 1, row, c)
        invariant SpanSettled(minefield, revealed, row, c - 1, c + dc)
      {
        ghost var prev := revealed;
        order := FloodCell(r, c, row, c + dc, before, order);
        RowsSettledGrows(minefield, prev, revealed, r - 1, row, c);
        SpanSettledGrows(minefield, prev, revealed, row, c - 1, c + dc);
      }
      assert Settled(minefield, revealed, row, c - 1) && Settled(minefield, revealed, row, c);
    }

    /** One cell (row, col) of the block around (r, c): its neighbour step, added to the flood so far. */
    method FloodCell(r: int, c: int, row: int, col: int, ghost before: seq<seq<bool>>, ghost done: seq<(int, int)>)
      returns (ghost order: seq<(int, int)>)
      requires IsGrid(minefield, Rows, Cols) && r - 1 <= row <= r + 1 && c - 1 <= col <= c + 1
      requires FloodedFrom(minefield, before, revealed, Around(r, c), done)
      modifies this`revealed
      ensures Grows(old(revealed), revealed) && Settled(minefield, revealed, row, col)
      ensures FloodedFrom(minefield, before, revealed, Around(r, c), order)
      ensures |Hidden(revealed)| <= |Hidden(old(revealed))|
      decreases |Hidden(revealed)|, 1
    {
      ghost var more := RevealNeighbour(row, col);
      HiddenNoMore(old(revealed), revealed);
      FloodStep(minefield, before, old(revealed), revealed, Around(r, c), done, (row, col), more);
      order := done + more;
    }

    /**
      One step of the flood: reveals (nr, nc) if it is on the field, hidden
      and safe, and floods on from it if it shows zero.
     */
    method RevealNeighbour(nr: int, nc: int) returns (ghost order: seq<(int, int)>)
      requires IsGrid(minefield, Rows, Cols) && IsGrid(revealed, Rows, Cols)
      modifies this`revealed
      ensures Flooded(minefield, old(revealed), revealed)
      ensures Settled(minefield, revealed, nr, nc)
      ensures Reached(minefield, old(revealed), revealed, {(nr, nc)}, order)
      decreases |Hidden(revealed)|, 0
    {
      if 0 <= nr < Rows && 0 <= nc < Cols && !revealed[nr][nc] && minefield[nr][nc] != Mine {
        revealed := revealed[nr := revealed[nr][nc := true]];
        if minefield[nr][nc] == Count(0) {
          ghost var m := revealed;
          HiddenShrinks(old(revealed), revealed, nr, nc);
          ghost var sub := FloodFill(nr, nc);
          RevealThenFlood(minefield, old(revealed), m, revealed, nr, nc);
          ReachedFromZero(minefield, old(revealed), m, revealed, nr, nc, sub);
          order := [(nr, nc)] + sub;
        } else {
          RevealOne(minefield, old(revealed), nr, nc);
          ReachedOne(minefield, old(revealed), nr, nc);
          order := [(nr, nc)];
        }
      } else {
        FloodedNone(minefield, revealed);
        ReachedNone(minefield, revealed, {(nr, nc)});
        order := [];
      }
    }

    /** Reveals every cell. */
    method RevealAll()
      requires Valid()
      modifies this`revealed
      ensures Valid() && AllRevealed(revealed)
    {
      for r := 0 to Rows
        invariant Valid()
        invariant forall i, j :: 0 <= i < r && 0 <= j < Cols ==> revealed[i][j]
      {
        for c := 0 to Cols
          invariant Valid()
          invariant forall i, j :: 0 <= i < Rows && 0 <= j < Cols && (i < r || (i == r && j < c)) ==> revealed[i][j]
        {
          revealed := revealed[r := revealed[r][c := true]];
        }
      }
    }

    /** Whether every safe cell is revealed, scanning row by row. */
    method CheckWin() returns (won: bool)
      requires Valid()
      ensures won <==> Won(minefield, revealed)
    {
      for r := 0 to Rows
        invariant forall i, j :: 0 <= i < r && 0 <= j < Cols && minefield[i][j] != Mine ==> revealed[i][j]
      {
        for c := 0 to Cols
          invariant forall i, j :: 0 <= i < Rows && 0 <= j < Cols && (i < r || (i == r && j < c)) && minefield[i][j] != Mine ==>
                      revealed[i][j]
        {
          if minefield[r][c] != Mine && !revealed[r][c] {
            return false;
          }
        }
      }
      return true;
    }

    /**
      Whether every flag is on a mine and the flags number exactly the game's
      mines, counting flags row by row and giving up at the first flag on a
      safe cell.
     */
    method CheckFlagWin() returns (won: bool)
      requires Valid()
      ensures won <==> FlagWon(minefield, flagged)
    {
      var flagCount := 0;
      for r := 0 to Rows
        invariant flagCount == |FlagsBefore(flagged, r, 0)|
        invariant FlagsBefore(flagged, r, 0) <= MineSet(minefield, Rows, Cols)
      {
        for c := 0 to Cols
          invariant flagCount == |FlagsBefore(flagged, r, c)|
          invariant FlagsBefore(flagged, r, c) <= MineSet(minefield, Rows, Cols)
        {
          FlagsStep(flagged, r, c);
          if flagged[r][c] {
            flagCount := flagCount + 1;
            if minefield[r][c] != Mine {
              assert (r, c) in FlagSet(flagged) && (r, c) !in MineSet(minefield, Rows, Cols);
              return false;
            }
          }
        }
        FlagsRowEnd(flagged, r);
      }
      FlagsAll(flagged);
      return flagCount == MineTotal;
    }

    /**
      The first click never hits a mine: while (r, c) is mined the field is
      created afresh; the first click is then used up.
     */
    method SecureFirstClick(r: int, c: int)
      requires Valid() && 0 <= r < Rows && 0 <= c < Cols
      modifies this`minefield, this`firstClick
      ensures Valid() && !firstClick
      ensures minefield[r][c] != Mine
      ensures old(minefield)[r][c] != Mine ==> minefield == old(minefield)
    {
      if minefield[r][c] == Mine {
        minefield := CreateMinefieldSafeAt(Rows, Cols, MineTotal, r, c);
      }
      firstClick := false;
    }

    /**
      Reveals (r, c) unless the game is over or the cell is revealed or
      flagged. On the first click a mined cell gets a fresh field in which
      it is safe. A mine ends the game and reveals everything; a zero floods
      open its surroundings; revealing the last safe cell wins.
     */
    method HandleCellClick(r: int, c: int)
      requires Valid() && 0 <= r < Rows && 0 <= c < Cols
      modifies this`minefield, this`revealed, this`gameOver, this`firstClick
      ensures Valid()
      ensures old(gameOver) || old(revealed)[r][c] || old(flagged)[r][c] ==>
                minefield == old(minefield) && revealed == old(revealed)
                && gameOver == old(gameOver) && firstClick == old(firstClick)
      ensures !(old(gameOver) || old(revealed)[r][c] || old(flagged)[r][c]) ==> !firstClick
      ensures !old(firstClick) || old(minefield)[r][c] != Mine ==> minefield == old(minefield)
      ensures old(firstClick) && !(old(gameOver) || old(revealed)[r][c] || old(flagged)[r][c]) ==>
                minefield[r][c] != Mine
      ensures !(old(gameOver) || old(revealed)[r][c] || old(flagged)[r][c]) && minefield[r][c] == Mine ==>
                gameOver && AllRevealed(revealed)
      ensures !(old(gameOver) || old(revealed)[r][c] || old(flagged)[r][c]) && minefield[r][c] != Mine ==>
                revealed[r][c] && Flooded(minefield, old(revealed), revealed)
                && (minefield[r][c] == Count(0) ==>
                      Opened(minefield, revealed, r, c)
                      && exists order :: Reached(minefield, old(revealed), revealed, {(r, c)}, order))
                && (minefield[r][c] != Count(0) ==> revealed == old(revealed)[r := old(revealed)[r][c := true]])
                && (gameOver <==> Won(minefield, revealed))
    {
      if gameOver || revealed[r][c] || flagged[r][c] {
        return;
      }
      if firstClick {
        SecureFirstClick(r, c);
      }
      OpenCell(r, c);
    }

    /**
      Reveals the hidden cell (r, c) of a live game: a mine ends the game and
      reveals everything; a zero floods open its surroundings; revealing the
      last safe cell wins.
     */
    method OpenCell(r: int, c: int)
      requires Valid() && 0 <= r < Rows && 0 <= c < Cols && !gameOver && !revealed[r][c]
      modifies this`revealed, this`gameOver
      ensures Valid()
      ensures minefield[r][c] == Mine ==> gameOver && AllRevealed(revealed)
      ensures minefield[r][c] != Mine ==>
                revealed[r][c] && Flooded(minefield, old(revealed), revealed)
                && (minefield[r][c] == Count(0) ==>
                      Opened(minefield, revealed, r, c)
                      && exists order :: Reached(minefield, old(revealed), revealed, {(r, c)}, order))
                && (minefield[r][c] != Count(0) ==> revealed == old(revealed)[r := old(revealed)[r][c := true]])
                && (gameOver <==> Won(minefield, revealed))
    {
      revealed := revealed[r := revealed[r][c := true]];
      if minefield[r][c] == Mine {
        gameOver := true;
        RevealAll();
        return;
      }
      ghost var clicked := revealed;
      if minefield[r][c] == Count(0) {
        ghost var sub := FloodFill(r, c);
        RevealThenFlood(minefield, old(revealed), clicked, revealed, r, c);
        ReachedFromZero(minefield, old(revealed), clicked, revealed, r, c, sub);
      } else {
        RevealOne(minefield, old(revealed), r, c);
      }
      var won := CheckWin();
      if won {
        gameOver := true;
      }
    }

    /**
      Switches the flag on (r, c) unless the game is over or the cell is
      revealed; when the flags then mark a flag win, the game ends with
      everything revealed.
     */
    method HandleFlag(r: int, c: int)
      requires Valid() && 0 <= r < Rows && 0 <= c < Cols
      modifies this`flagged, this`gameOver, this`revealed
      ensures Valid()
      ensures old(gameOver) || old(revealed)[r][c] ==>
                flagged == old(flagged) && gameOver == old(gameOver) && revealed == old(revealed)
      ensures !(old(gameOver) || old(revealed)[r][c]) ==>
                flagged == Toggled(old(flagged), r, c)
                && (gameOver <==> FlagWon(minefield, flagged))
                && (gameOver ==> AllRevealed(revealed))
                && (!gameOver ==> revealed == old(revealed))
    {
      if gameOver || revealed[r][c] {
        return;
      }
      flagged := flagged[r := flagged[r][c := !flagged[r][c]]];
      var won := CheckFlagWin();
      if won {
        gameOver := true;
        RevealAll();
      }
    }
  }
}
