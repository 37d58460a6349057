/**
  The playfield of the falling-block game: a 10 x 20 grid of locked cells,
  the collision rule, the drop and kick searches built on it, locking a piece
  into the grid and clearing full rows.
 */
module TetrisBoard {
  import opened TetrisPieces

  const Cols: int := 10
  const Rows: int := 20

  /** A playfield cell: empty, or holding a locked cell of some piece type. */
  datatype Cell = Empty | Block(kind: PieceType)

  type Row = seq<Cell>
  type Board = seq<Row>

  /** A piece in play: its type, rotation and pivot position. */
  datatype Piece = Piece(kind: PieceType, rotation: Rotation, x: int, y: int)

  predicate WellFormed(b: Board)
  {
    |b| == Rows && forall y :: 0 <= y < Rows ==> |b[y]| == Cols
  }

  function EmptyRow(): (row: Row)
    ensures |row| == Cols && forall x :: 0 <= x < Cols ==> row[x] == Empty
  {
    seq(Cols, _ => Empty)
  }

  function EmptyRows(n: nat): (rows: Board)
    ensures |rows| == n && forall y :: 0 <= y < n ==> rows[y] == EmptyRow()
  {
    seq(n, _ => EmptyRow())
  }

  function EmptyBoard(): (b: Board)
    ensures WellFormed(b)
    ensures forall y, x :: 0 <= y < Rows && 0 <= x < Cols ==> b[y][x] == Empty
  {
    EmptyRows(Rows)
  }

  /** The empty board has no full row. */
  lemma EmptyBoardClear()
    ensures NoFullRows(EmptyBoard())
  {
    assert forall y :: 0 <= y < Rows ==> EmptyBoard()[y][0] == Empty;
  }

  /**
    Whether a single cell position is unavailable: left of, right of or below
    the field, or an occupied in-field cell. Positions above the field
    (y < 0) are free whenever the column is in range.
   */
  predicate Blocked(b: Board, x: int, y: int)
    requires WellFormed(b)
  {
    x < 0 || x >= Cols || y >= Rows || (y >= 0 && b[y][x] != Empty)
  }

  /** Scans the cells of a shape placed with its pivot at (x, y), stopping at the first blocked one. */
  function CollidesFrom(b: Board, cells: seq<Offset>, x: int, y: int): bool
    requires WellFormed(b)
  {
    if cells == [] then false
    else Blocked(b, x + cells[0].dx, y + cells[0].dy) || CollidesFrom(b, cells[1..], x, y)
  }

  /** A set of cells collides exactly when one of them is blocked. */
  lemma {:induction false} CollidesFromMeans(b: Board, cells: seq<Offset>, x: int, y: int)
    requires WellFormed(b)
    ensures CollidesFrom(b, cells, x, y) <==> exists i :: 0 <= i < |cells| && Blocked(b, x + cells[i].dx, y + cells[i].dy)
  {
    if cells != [] {
      CollidesFromMeans(b, cells[1..], x, y);
      assert forall i :: 1 <= i < |cells| ==> cells[i] == cells[1..][i - 1];
    }
  }

  /** Whether piece p, moved by (dx, dy) and shown in rotation rot, would collide. */
  predicate Collides(b: Board, p: Piece, dx: int, dy: int, rot: Rotation)
    requires WellFormed(b)
    ensures var c, x, y := Shape(p.kind, rot), p.x + dx, p.y + dy;
              Collides(b, p, dx, dy, rot) <==>
                Blocked(b, x + c[0].dx, y + c[0].dy) || Blocked(b, x + c[1].dx, y + c[1].dy)
                || Blocked(b, x + c[2].dx, y + c[2].dy) || Blocked(b, x + c[3].dx, y + c[3].dy)
  {
    CollidesFrom(b, Shape(p.kind, rot), p.x + dx, p.y + dy)
  }

  /** Out-of-field cells always collide, cells above the field never do, and in-field cells collide iff occupied. */
  lemma CollisionRule(b: Board, p: Piece, dx: int, dy: int, rot: Rotation)
    requires WellFormed(b)
    ensures (exists i :: 0 <= i < 4 && var c := Shape(p.kind, rot)[i];
               (p.x + c.dx + dx < 0 || p.x + c.dx + dx >= Cols || p.y + c.dy + dy >= Rows))
            ==> Collides(b, p, dx, dy, rot)
    ensures (forall i :: 0 <= i < 4 ==> var c := Shape(p.kind, rot)[i];
               0 <= p.x + c.dx + dx < Cols && p.y + c.dy + dy < 0)
            ==> !Collides(b, p, dx, dy, rot)
    ensures (forall i :: 0 <= i < 4 ==> var c := Shape(p.kind, rot)[i];
               0 <= p.x + c.dx + dx < Cols && 0 <= p.y + c.dy + dy < Rows)
            ==> (Collides(b, p, dx, dy, rot) <==>
                 exists i :: 0 <= i < 4 && var c := Shape(p.kind, rot)[i];
                   b[p.y + c.dy + dy][p.x + c.dx + dx] != Empty)
  {
    CellsRule(b, Shape(p.kind, rot), p.x, p.y, dx, dy);
  }

  /** CollisionRule for any list of cells anchored at (px, py) and moved by (dx, dy). */
  lemma CellsRule(b: Board, cells: seq<Offset>, px: int, py: int, dx: int, dy: int)
    requires WellFormed(b)
    ensures (exists i :: 0 <= i < |cells| && var c := cells[i];
               (px + c.dx + dx < 0 || px + c.dx + dx >= Cols || py + c.dy + dy >= Rows))
            ==> CollidesFrom(b, cells, px + dx, py + dy)
    ensures (forall i :: 0 <= i < |cells| ==> var c := cells[i];
               0 <= px + c.dx + dx < Cols && py + c.dy + dy < 0)
            ==> !CollidesFrom(b, cells, px + dx, py + dy)
    ensures (forall i :: 0 <= i < |cells| ==> var c := cells[i];
               0 <= px + c.dx + dx < Cols && 0 <= py + c.dy + dy < Rows)
            ==> (CollidesFrom(b, cells, px + dx, py + dy) <==>
                 exists i :: 0 <= i < |cells| && var c := cells[i];
                   b[py + c.dy + dy][px + c.dx + dx] != Empty)
  {
    CollidesFromMeans(b, cells, px + dx, py + dy);
  }

  /** The piece moved by (dx, dy). */
  function Shifted(p: Piece, dx: int, dy: int): Piece
  {
    p.(x := p.x + dx, y := p.y + dy)
  }

  /** Moving first and testing at no offset is the same as testing at the offset. */
  lemma ShiftedCollides(b: Board, p: Piece, dx: int, dy: int, dx': int, dy': int, rot: Rotation)
    requires WellFormed(b)
    ensures Collides(b, Shifted(p, dx, dy), dx', dy', rot) == Collides(b, p, dx + dx', dy + dy', rot)
  {
    assert Shifted(p, dx, dy).x + dx' == p.x + (dx + dx');
    assert Shifted(p, dx, dy).y + dy' == p.y + (dy + dy');
  }

  // ---------------------------------------------------------------------------
  // Hard-drop distance

  /** A placement that does not collide has its pivot at most one row below the field. */
  lemma FreeIsAboveFloor(b: Board, p: Piece, dy: int, rot: Rotation)
    requires WellFormed(b) && !Collides(b, p, 0, dy, rot)
    ensures p.y + dy <= Rows
  {
    var c := Shape(p.kind, rot)[0];
    assert !Blocked(b, p.x + 0 + c.dx, p.y + dy + c.dy);
  }

  /**
    The first offset below which the cells anchored at (x, y) collide,
    searching downward from d. Terminates because a cell at or below the last
    row always collides; the floor test only makes that visible and never
    changes the answer (FreeCellsAboveFloor).
   */
  function FallFrom(b: Board, cells: seq<Offset>, x: int, y: int, d: nat): nat
    requires WellFormed(b)
    decreases Rows + 1 - y - d
  {
    if y + d + 1 > Rows || CollidesFrom(b, cells, x, y + d + 1) then d
    else FallFrom(b, cells, x, y, d + 1)
  }

  /** Cells whose first offset reaches at most one row up sit at most one row below the field when free. */
  lemma FreeCellsAboveFloor(b: Board, cells: seq<Offset>, x: int, y: int)
    requires WellFormed(b) && |cells| > 0 && cells[0].dy >= -1
    requires !CollidesFrom(b, cells, x, y)
    ensures y <= Rows
  {
    assert !Blocked(b, x + cells[0].dx, y + cells[0].dy);
  }

  /** The cells anchored at (x, y) and moved down k rows do not collide. */
  predicate FreeBelow(b: Board, cells: seq<Offset>, x: int, y: int, k: int)
    requires WellFormed(b)
  {
    !CollidesFrom(b, cells, x, y + k)
  }

  /** Searching down from a collision-free offset d stops at the last free offset at or past d. */
  lemma {:induction false} FallFromSpec(b: Board, cells: seq<Offset>, x: int, y: int, d: nat)
    requires WellFormed(b) && |cells| > 0 && cells[0].dy >= -1
    requires forall k :: 1 <= k <= d ==> FreeBelow(b, cells, x, y, k)
    ensures d <= FallFrom(b, cells, x, y, d)
    ensures forall k :: 1 <= k <= FallFrom(b, cells, x, y, d) ==> FreeBelow(b, cells, x, y, k)
    ensures !FreeBelow(b, cells, x, y, FallFrom(b, cells, x, y, d) + 1)
    decreases Rows + 1 - y - d
  {
    if FreeBelow(b, cells, x, y, d + 1) {
      FreeCellsAboveFloor(b, cells, x, y + d + 1);
      assert FallFrom(b, cells, x, y, d) == FallFrom(b, cells, x, y, d + 1);
      FallFromSpec(b, cells, x, y, d + 1);
    } else {
      assert FallFrom(b, cells, x, y, d) == d;
    }
  }

  /** How far the piece can fall: every offset 1..d is free, offset d + 1 collides. */
  function DropDistance(b: Board, p: Piece): (d: nat)
    requires WellFormed(b)
    ensures forall k :: 1 <= k <= d ==> !Collides(b, p, 0, k, p.rotation)
    ensures Collides(b, p, 0, d + 1, p.rotation)
  {
    FallOfPiece(b, p);
    FallFrom(b, Shape(p.kind, p.rotation), p.x, p.y, 0)
  }

  /** The downward search over the piece's cells finds how far the piece itself can fall. */
  lemma FallOfPiece(b: Board, p: Piece)
    requires WellFormed(b)
    ensures var d := FallFrom(b, Shape(p.kind, p.rotation), p.x, p.y, 0);
            (forall k :: 1 <= k <= d ==> !Collides(b, p, 0, k, p.rotation))
            && Collides(b, p, 0, d + 1, p.rotation)
  {
    var cells := Shape(p.kind, p.rotation);
    FallFromSpec(b, cells, p.x, p.y, 0);
    var d := FallFrom(b, cells, p.x, p.y, 0);
    forall k | 1 <= k <= d + 1
      ensures FreeBelow(b, cells, p.x, p.y, k) == !Collides(b, p, 0, k, p.rotation)
    {
      assert p.x + 0 == p.x;
    }
  }

  /** A free offset just past d, for d no deeper than the drop distance, is still within it. */
  lemma FreeBeforeDrop(b: Board, p: Piece, d: nat)
    requires WellFormed(b) && d <= DropDistance(b, p) && !Collides(b, p, 0, d + 1, p.rotation)
    ensures d + 1 <= DropDistance(b, p)
  {
  }

  /** An offset no deeper than the drop distance with a collision just past it is the drop distance. */
  lemma StopsAtDrop(b: Board, p: Piece, d: nat)
    requires WellFormed(b) && d <= DropDistance(b, p) && Collides(b, p, 0, d + 1, p.rotation)
    ensures d == DropDistance(b, p)
  {
  }

  /** The drop distance is the unique offset with that property: it is the largest collision-free one. */
  lemma DropDistanceUnique(b: Board, p: Piece, d: nat)
    requires WellFormed(b)
    requires forall k :: 1 <= k <= d ==> !Collides(b, p, 0, k, p.rotation)
    requires Collides(b, p, 0, d + 1, p.rotation)
    ensures d == DropDistance(b, p)
  {
  }

  // ---------------------------------------------------------------------------
  // Rotation with wall kicks

  /** The piece in rotation rot, displaced by kick number i. */
  function Kicked(p: Piece, rot: Rotation, i: nat): Piece
    requires i < |Kicks|
  {
    Piece(p.kind, rot, p.x + Kicks[i].dx, p.y + Kicks[i].dy)
  }

  /** Whether kick number i lets the piece take rotation rot. */
  predicate KickFits(b: Board, p: Piece, rot: Rotation, i: nat)
    requires WellFormed(b) && i < |Kicks|
  {
    !Collides(b, p, Kicks[i].dx, Kicks[i].dy, rot)
  }

  /** The first kick from number k on that fits, or |Kicks| if none does. */
  function FirstKickFrom(b: Board, p: Piece, rot: Rotation, k: nat): (i: nat)
    requires WellFormed(b) && k <= |Kicks|
    ensures k <= i <= |Kicks|
    ensures i < |Kicks| ==> KickFits(b, p, rot, i)
    ensures forall j :: k <= j < i ==> !KickFits(b, p, rot, j)
    decreases |Kicks| - k
  {
    if k == |Kicks| then k
    else if KickFits(b, p, rot, k) then k
    else FirstKickFrom(b, p, rot, k + 1)
  }

  /** The kick a rotation uses: the earliest in the list that fits, or |Kicks| when none fits. */
  function FirstKick(b: Board, p: Piece, rot: Rotation): (i: nat)
    requires WellFormed(b)
    ensures i <= |Kicks|
    ensures i < |Kicks| ==> KickFits(b, p, rot, i)
    ensures forall j :: 0 <= j < i ==> !KickFits(b, p, rot, j)
  {
    FirstKickFrom(b, p, rot, 0)
  }

  /** A fitting kick with no fitting kick before it is the one a rotation uses. */
  lemma FirstKickIs(b: Board, p: Piece, rot: Rotation, i: nat)
    requires WellFormed(b) && i < |Kicks| && KickFits(b, p, rot, i)
    requires forall j :: 0 <= j < i ==> !KickFits(b, p, rot, j)
    ensures FirstKick(b, p, rot) == i
  {
  }

  /** A rotation is rejected exactly when no kick in the list fits. */
  lemma FirstKickNone(b: Board, p: Piece, rot: Rotation)
    requires WellFormed(b)
    ensures FirstKick(b, p, rot) == |Kicks| <==> forall j :: 0 <= j < |Kicks| ==> !KickFits(b, p, rot, j)
  {
  }

  // ---------------------------------------------------------------------------
  // Locking a piece

  /** Whether one of the first n cells of the piece lies at (x, y). */
  predicate CoversFirst(p: Piece, n: nat, x: int, y: int)
    requires n <= 4
  {
    exists i :: 0 <= i < n && p.x + Shape(p.kind, p.rotation)[i].dx == x
                           && p.y + Shape(p.kind, p.rotation)[i].dy == y
  }

  predicate Covers(p: Piece, x: int, y: int)
  {
    CoversFirst(p, 4, x, y)
  }

  /** The board with the piece's in-field cells filled with its type; nothing else changes. */
  function Stamped(b: Board, p: Piece): (b': Board)
    requires WellFormed(b)
    ensures WellFormed(b')
  {
    seq(Rows, y requires 0 <= y < Rows =>
      seq(Cols, x requires 0 <= x < Cols => if Covers(p, x, y) then Block(p.kind) else b[y][x]))
  }

  // ---------------------------------------------------------------------------
  // Clearing full rows

  predicate Full(row: Row)
  {
    forall x :: 0 <= x < |row| ==> row[x] != Empty
  }

  predicate NoFullRows(b: Board)
  {
    forall y :: 0 <= y < |b| ==> !Full(b[y])
  }

  /** The rows that survive a clear: the non-full ones, in their original order. */
  function KeepRows(b: Board): (k: Board)
    ensures |k| <= |b|
    ensures forall y :: 0 <= y < |k| ==> !Full(k[y]) && k[y] in b
  {
    if b == [] then []
    else if Full(b[0]) then KeepRows(b[1..])
    else [b[0]] + KeepRows(b[1..])
  }

  /** The number of full rows. */
  function CountFull(b: Board): nat
  {
    if b == [] then 0 else (if Full(b[0]) then 1 else 0) + CountFull(b[1..])
  }

  /** The board after clearing: as many empty rows as were removed, above the surviving rows. */
  function Cleared(b: Board): (c: Board)
    ensures |c| == |b|
    ensures forall y :: 0 <= y < |c| ==> c[y] == EmptyRow() || c[y] in KeepRows(b)
  {
    EmptyRows(|b| - |KeepRows(b)|) + KeepRows(b)
  }

  lemma {:induction false} KeepCount(b: Board)
    ensures |KeepRows(b)| + CountFull(b) == |b|
  {
    if b != [] {
      KeepCount(b[1..]);
    }
  }

  lemma {:induction false} KeepConcat(a: Board, c: Board)
    ensures KeepRows(a + c) == KeepRows(a) + KeepRows(c)
  {
    if a != [] {
      assert (a + c)[0] == a[0];
      assert (a + c)[1..] == a[1..] + c;
      KeepConcat(a[1..], c);
    } else {
      assert a + c == c;
    }
  }

  lemma {:induction false} CountConcat(a: Board, c: Board)
    ensures CountFull(a + c) == CountFull(a) + CountFull(c)
  {
    if a != [] {
      assert (a + c)[0] == a[0];
      assert (a + c)[1..] == a[1..] + c;
      CountConcat(a[1..], c);
    } else {
      assert a + c == c;
    }
  }

  /** Clearing keeps a well-formed board: 20 rows of 10 cells, and no full row is left. */
  lemma ClearedShape(b: Board)
    requires WellFormed(b)
    ensures WellFormed(Cleared(b))
    ensures NoFullRows(Cleared(b))
    ensures |b| - |KeepRows(b)| == CountFull(b)
  {
    KeepCount(b);
    var k := KeepRows(b);
    var e := EmptyRows(|b| - |k|);
    forall y | 0 <= y < Rows
      ensures |Cleared(b)[y]| == Cols && !Full(Cleared(b)[y])
    {
      if y < |e| {
        assert Cleared(b)[y] == EmptyRow();
        assert EmptyRow()[0] == Empty;
      } else {
        assert Cleared(b)[y] == k[y - |e|];
        assert k[y - |e|] in b;
      }
    }
  }

  /**
    A non-full row is never removed: row y moves down by exactly the number of
    full rows below it, so surviving rows keep their order and sit at the bottom.
   */
  lemma ClearedRowMoves(b: Board, y: nat)
    requires y < |b| && !Full(b[y])
    ensures y + CountFull(b[y + 1..]) < |b|
    ensures Cleared(b)[y + CountFull(b[y + 1..])] == b[y]
  {
    assert b == b[..y] + ([b[y]] + b[y + 1..]);
    KeepConcat(b[..y], [b[y]] + b[y + 1..]);
    KeepConcat([b[y]], b[y + 1..]);
    assert KeepRows([b[y]]) == [b[y]] by {
      assert [b[y]][1..] == [];
    }
    CountConcat(b[..y], [b[y]] + b[y + 1..]);
    CountConcat([b[y]], b[y + 1..]);
    assert CountFull([b[y]]) == 0 by {
      assert [b[y]][1..] == [];
    }
    KeepCount(b);
    KeepCount(b[..y]);
    var k := KeepRows(b);
    var e := |b| - |k|;
    var before := KeepRows(b[..y]);
    assert k == before + [b[y]] + KeepRows(b[y + 1..]);
    assert Cleared(b)[e + |before|] == b[y];
  }

  /** A full row never survives a clear, so the cleared board holds only the non-full rows. */
  lemma FullRowRemoved(b: Board)
    requires WellFormed(b)
    ensures forall y :: 0 <= y < Rows && Full(Cleared(b)[y]) ==> false
  {
    ClearedShape(b);
  }

  /** Bounding the number of full rows by a set that contains every full row's index. */
  lemma {:induction false} CountFullBound(b: Board, off: int, s: set<int>)
    requires forall y :: 0 <= y < |b| && Full(b[y]) ==> off + y in s
    ensures CountFull(b) <= |s|
    decreases |b|
  {
    if b != [] {
      if Full(b[0]) {
        assert off in s;
        var s' := s - {off};
        forall y | 0 <= y < |b[1..]| && Full(b[1..][y])
          ensures (off + 1) + y in s'
        {
          assert b[1..][y] == b[y + 1];
        }
        CountFullBound(b[1..], off + 1, s');
        assert s == s' + {off};
      } else {
        forall y | 0 <= y < |b[1..]| && Full(b[1..][y])
          ensures (off + 1) + y in s
        {
          assert b[1..][y] == b[y + 1];
        }
        CountFullBound(b[1..], off + 1, s);
      }
    }
  }

  /**
    Locking one piece into a board with no full row completes at most four rows,
    so the award table covers every clear that can happen.
   */
  lemma LockClearsAtMostFour(b: Board, p: Piece)
    requires WellFormed(b) && NoFullRows(b)
    ensures CountFull(Stamped(b, p)) <= 4
  {
    var b' := Stamped(b, p);
    var sh := Shape(p.kind, p.rotation);
    var s := {p.y + sh[0].dy, p.y + sh[1].dy, p.y + sh[2].dy, p.y + sh[3].dy};
    forall y | 0 <= y < |b'| && Full(b'[y])
      ensures 0 + y in s
    {
      assert !Full(b[y]);
      var x :| 0 <= x < Cols && b[y][x] == Empty;
      assert b'[y][x] != Empty;
      assert Covers(p, x, y);
    }
    CountFullBound(b', 0, s);
  }

  /** Every piece type fits at the spawn position (x 4, y 1, rotation 0) on an empty board. */
  lemma SpawnFitsEmptyBoard(t: PieceType)
    ensures !Collides(EmptyBoard(), Piece(t, 0, 4, 1), 0, 0, 0)
  {
    var b := EmptyBoard();
    var sh := Shape(t, 0);
    forall i | 0 <= i < 4
      ensures !Blocked(b, 4 + sh[i].dx, 1 + sh[i].dy)
    {
    }
  }
}
