/**
  The piece catalog of the falling-block game: the seven tetromino types,
  their four rotation states of four cell offsets each, the ordered list of
  wall kicks tried by a rotation, and the rotation-index arithmetic.
 */
module TetrisPieces {

  datatype PieceType = I | J | L | O | S | T | Z

  /** The seven types in the order the bag is filled from. */
  const AllTypes: seq<PieceType> := [I, J, L, O, S, T, Z]

  /** A rotation state index. */
  type Rotation = r: int | 0 <= r < 4

  /** A cell offset relative to the piece's pivot (x to the right, y downwards). */
  datatype Offset = Offset(dx: int, dy: int)

  /** The catalog lookup: four offsets for every type and rotation. */
  function Shape(t: PieceType, r: Rotation): (cells: seq<Offset>)
    ensures |cells| == 4
    ensures forall i :: 0 <= i < 4 ==> -1 <= cells[i].dx <= 2 && -1 <= cells[i].dy <= 2
  {
    match t
    case I =>
      if r == 0 then [Offset(-1, 0), Offset(0, 0), Offset(1, 0), Offset(2, 0)]
      else if r == 1 then [Offset(1, -1), Offset(1, 0), Offset(1, 1), Offset(1, 2)]
      else if r == 2 then [Offset(-1, 1), Offset(0, 1), Offset(1, 1), Offset(2, 1)]
      else [Offset(0, -1), Offset(0, 0), Offset(0, 1), Offset(0, 2)]
    case J =>
      if r == 0 then [Offset(-1, -1), Offset(-1, 0), Offset(0, 0), Offset(1, 0)]
      else if r == 1 then [Offset(0, -1), Offset(1, -1), Offset(0, 0), Offset(0, 1)]
      else if r == 2 then [Offset(-1, 0), Offset(0, 0), Offset(1, 0), Offset(1, 1)]
      else [Offset(0, -1), Offset(0, 0), Offset(-1, 1), Offset(0, 1)]
    case L =>
      if r == 0 then [Offset(1, -1), Offset(-1, 0), Offset(0, 0), Offset(1, 0)]
      else if r == 1 then [Offset(0, -1), Offset(0, 0), Offset(0, 1), Offset(1, 1)]
      else if r == 2 then [Offset(-1, 0), Offset(0, 0), Offset(1, 0), Offset(-1, 1)]
      else [Offset(-1, -1), Offset(0, -1), Offset(0, 0), Offset(0, 1)]
    case O =>
      [Offset(0, -1), Offset(1, -1), Offset(0, 0), Offset(1, 0)]
    case S =>
      if r == 0 then [Offset(0, -1), Offset(1, -1), Offset(-1, 0), Offset(0, 0)]
      else if r == 1 then [Offset(0, -1), Offset(0, 0), Offset(1, 0), Offset(1, 1)]
      else if r == 2 then [Offset(0, 0), Offset(1, 0), Offset(-1, 1), Offset(0, 1)]
      else [Offset(-1, -1), Offset(-1, 0), Offset(0, 0), Offset(0, 1)]
    case T =>
      if r == 0 then [Offset(0, -1), Offset(-1, 0), Offset(0, 0), Offset(1, 0)]
      else if r == 1 then [Offset(0, -1), Offset(0, 0), Offset(1, 0), Offset(0, 1)]
      else if r == 2 then [Offset(-1, 0), Offset(0, 0), Offset(1, 0), Offset(0, 1)]
      else [Offset(0, -1), Offset(-1, 0), Offset(0, 0), Offset(0, 1)]
    case Z =>
      if r == 0 then [Offset(-1, -1), Offset(0, -1), Offset(0, 0), Offset(1, 0)]
      else if r == 1 then [Offset(1, -1), Offset(0, 0), Offset(1, 0), Offset(0, 1)]
      else if r == 2 then [Offset(-1, 0), Offset(0, 0), Offset(0, 1), Offset(1, 1)]
      else [Offset(0, -1), Offset(-1, 0), Offset(0, 0), Offset(-1, 1)]
  }

  /** No rotation state lists the same cell twice, so every placement covers four cells. */
  lemma ShapeCellsDistinct(t: PieceType, r: Rotation)
    ensures forall i, j :: 0 <= i < j < 4 ==> Shape(t, r)[i] != Shape(t, r)[j]
  {
  }

  /** The wall kicks a rotation tries, in order of preference. */
  const Kicks: seq<Offset> :=
    [Offset(0, 0), Offset(1, 0), Offset(-1, 0), Offset(2, 0), Offset(-2, 0), Offset(0, -1)]

  /**
    The first kick tried leaves the piece where it is; every other kick moves
    it, by at most two columns sideways or one row up, never down.
   */
  lemma KicksShape()
    ensures |Kicks| == 6 && Kicks[0] == Offset(0, 0)
    ensures forall i :: 1 <= i < |Kicks| ==> Kicks[i] != Offset(0, 0)
    ensures forall i :: 0 <= i < |Kicks| ==> -2 <= Kicks[i].dx <= 2 && -1 <= Kicks[i].dy <= 0
    ensures forall i :: 0 <= i < |Kicks| ==> Kicks[i].dx == 0 || Kicks[i].dy == 0
  {
  }

  /** The rotation reached by turning once: clockwise for a positive direction, else anticlockwise. */
  function Turn(r: Rotation, dir: int): (r': Rotation)
    ensures dir > 0 ==> r' == if r == 3 then 0 else r + 1
    ensures dir <= 0 ==> r' == if r == 0 then 3 else r - 1
  {
    (r + (if dir > 0 then 1 else 3)) % 4
  }

  /** Turning four times in the same direction returns to the starting rotation. */
  lemma FourTurnsIdentity(r: Rotation, dir: int)
    ensures Turn(Turn(Turn(Turn(r, dir), dir), dir), dir) == r
  {
  }

  /** A turn one way is undone by a turn the other way. */
  lemma TurnBack(r: Rotation)
    ensures Turn(Turn(r, 1), -1) == r && Turn(Turn(r, -1), 1) == r
  {
  }
}
