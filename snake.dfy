/**
  Snake on a 20 x 20 grid: the snake moves one cell per tick in its
  direction, dies on a wall or on itself, and grows by one cell when it eats
  one of up to ten apples, after which one to three more apples appear on
  free cells.
 */
module Snake {

  const Rows: int := 20
  const Cols: int := 20
  const MaxFoods: nat := 10

  datatype Pos = Pos(x: int, y: int)
  datatype Direction = Up | Down | Left | Right
  datatype Key = ArrowUp | ArrowDown | ArrowLeft | ArrowRight | OtherKey

  predicate InBounds(p: Pos)
  {
    0 <= p.x < Cols && 0 <= p.y < Rows
  }

  function Opposite(d: Direction): (o: Direction)
    ensures o != d
  {
    match d
    case Up => Down
    case Down => Up
    case Left => Right
    case Right => Left
  }

  /** p and q share a side. */
  predicate Adjacent(p: Pos, q: Pos)
  {
    (p.x == q.x && (p.y - q.y == 1 || q.y - p.y == 1))
    || (p.y == q.y && (p.x - q.x == 1 || q.x - p.x == 1))
  }

  /** The cell one step from p in direction d. */
  function Step(p: Pos, d: Direction): (q: Pos)
    ensures Adjacent(p, q) && Adjacent(q, p)
  {
    match d
    case Up => Pos(p.x, p.y - 1)
    case Down => Pos(p.x, p.y + 1)
    case Left => Pos(p.x - 1, p.y)
    case Right => Pos(p.x + 1, p.y)
  }

  /** A step back the opposite way returns to the start: a reversal would run into the neck. */
  lemma StepBack(p: Pos, d: Direction)
    ensures Step(Step(p, d), Opposite(d)) == p
  {
  }

  /** The direction an arrow key asks for. */
  function KeyDirection(key: Key): Direction
    requires key != OtherKey
  {
    match key
    case ArrowUp => Up
    case ArrowDown => Down
    case ArrowLeft => Left
    case ArrowRight => Right
  }

  /**
    The next direction after a key press: an arrow key is taken unless it
    asks for the reverse of the current direction; any other key changes
    nothing.
   */
  function Steer(direction: Direction, next: Direction, key: Key): (d: Direction)
    ensures key == OtherKey ==> d == next
    ensures key != OtherKey && KeyDirection(key) != Opposite(direction) ==> d == KeyDirection(key)
    ensures key != OtherKey && KeyDirection(key) == Opposite(direction) ==> d == next
    ensures next != Opposite(direction) ==> d != Opposite(direction)
  {
    var d1 := if key == ArrowUp && direction != Down then Up else next;
    var d2 := if key == ArrowDown && direction != Up then Down else d1;
    var d3 := if key == ArrowLeft && direction != Right then Left else d2;
    if key == ArrowRight && direction != Left then Right else d3
  }

  predicate Distinct<X(==)>(s: seq<X>)
  {
    forall i, j :: 0 <= i < j < |s| ==> s[i] != s[j]
  }

  /** Consecutive segments share a side. */
  predicate Connected(s: seq<Pos>)
  {
    forall i :: 0 < i < |s| ==> Adjacent(s[i - 1], s[i])
  }

  /** The cells of the grid not in `blocked`. */
  ghost function Free(blocked: seq<Pos>): set<Pos>
  {
    set x: int, y: int | 0 <= x < Cols && 0 <= y < Rows && Pos(x, y) !in blocked :: Pos(x, y)
  }

  /** A list without repeats has as many entries as the set of its entries. */
  lemma {:induction false} DistinctCard(s: seq<Pos>, c: set<Pos>)
    requires Distinct(s) && forall p :: p in s <==> p in c
    ensures |s| == |c|
  {
    if s == [] {
      assert c == {} by {
        forall p
          ensures p !in c
        {
        }
      }
    } else {
      var last := s[|s| - 1];
      var rest := s[..|s| - 1];
      assert last !in rest;
      forall p
        ensures p in rest <==> p in c - {last}
      {
        if p in c - {last} {
          assert p in s;
          var i :| 0 <= i < |s| && s[i] == p;
          assert rest[i] == p;
        }
      }
      DistinctCard(rest, c - {last});
    }
  }

  /** s with the entry at idx cut out. */
  lemma Splice(s: seq<Pos>, idx: int)
    requires Distinct(s) && 0 <= idx < |s|
    ensures |s[..idx] + s[idx + 1..]| == |s| - 1
    ensures Distinct(s[..idx] + s[idx + 1..])
    ensures forall p :: p in s[..idx] + s[idx + 1..] <==> p in s && p != s[idx]
  {
    var r := s[..idx] + s[idx + 1..];
    assert forall k :: 0 <= k < |r| ==> r[k] == if k < idx then s[k] else s[k + 1];
    forall p | p in s && p != s[idx]
      ensures p in r
    {
      var k :| 0 <= k < |s| && s[k] == p;
      if k < idx {
        assert r[k] == p;
      } else {
        assert r[k - 1] == p;
      }
    }
  }

  /** s without its first occurrence of p. */
  function Remove(s: seq<Pos>, p: Pos): (r: seq<Pos>)
    ensures forall q :: q in r ==> q in s
    ensures p in s ==> |r| == |s| - 1
    ensures p !in s ==> r == s
  {
    if s == [] then []
    else if s[0] == p then s[1..]
    else [s[0]] + Remove(s[1..], p)
  }

  /** Removing from a list without repeats leaves a list without repeats, and without the removed entry. */
  lemma {:induction false} RemoveDistinct(s: seq<Pos>, p: Pos)
    requires Distinct(s)
    ensures Distinct(Remove(s, p)) && p !in Remove(s, p)
  {
    if s != [] && s[0] != p {
      RemoveDistinct(s[1..], p);
      var rest := Remove(s[1..], p);
      assert s[0] !in s[1..];
      assert s[0] !in rest;
      DistinctCons(s[0], rest);
    }
  }

  lemma DistinctCons(x: Pos, s: seq<Pos>)
    requires Distinct(s) && x !in s
    ensures Distinct([x] + s)
  {
    var r := [x] + s;
    forall i, j | 0 <= i < j < |r|
      ensures r[i] != r[j]
    {
      if i == 0 {
        assert r[j] == s[j - 1];
      } else {
        assert r[i] == s[i - 1] && r[j] == s[j - 1];
      }
    }
  }

  lemma DistinctSnoc(s: seq<Pos>, x: Pos)
    requires Distinct(s) && x !in s
    ensures Distinct(s + [x])
  {
    var r := s + [x];
    forall i, j | 0 <= i < j < |r|
      ensures r[i] != r[j]
    {
      if j == |s| {
        assert r[i] == s[i];
      } else {
        assert r[i] == s[i] && r[j] == s[j];
      }
    }
  }

  /** Cutting out the first match found by a scan from the front is Remove. */
  lemma {:induction false} RemoveFirstMatch(s: seq<Pos>, p: Pos, i: int)
    requires 0 <= i < |s| && s[i] == p && forall k :: 0 <= k < i ==> s[k] != p
    ensures s[..i] + s[i + 1..] == Remove(s, p)
  {
    if i > 0 {
      RemoveFirstMatch(s[1..], p, i - 1);
      assert s[..i] == [s[0]] + s[1..][..i - 1];
      assert s[i + 1..] == s[1..][i..];
    }
  }

  /**
    How many apples a call asking for n more adds, with `have` already on the
    grid and `free` free cells: as many as asked, but never past ten and never
    more than the free cells.
   */
  function AddCount(n: int, have: nat, free: nat): (c: nat)
    ensures c <= free
    ensures have <= MaxFoods ==> have + c <= MaxFoods
    ensures n > 0 && have < MaxFoods && free > 0 ==> c > 0
    ensures c <= n || c == 0
  {
    if n <= 0 || have >= MaxFoods then 0
    else
      var room := MaxFoods - have;
      var m := if n < room then n else room;
      if m < free then m else free
  }

  /** The apples: on the grid, no two on one cell, none under the snake, at most ten. */
  predicate FoodsOk(snake: seq<Pos>, foods: seq<Pos>)
  {
    Distinct(foods) && |foods| <= MaxFoods
    && forall p :: p in foods ==> InBounds(p) && p !in snake
  }

  /** The snake: at least a head, on the grid, never crossing itself, each segment next to the one before. */
  predicate SnakeOk(snake: seq<Pos>)
  {
    |snake| >= 1 && Distinct(snake) && Connected(snake)
    && forall p :: p in snake ==> InBounds(p)
  }

  /** The free cells, column by column, each once. */
  method FreeCells(blocked: seq<Pos>) returns (empty: seq<Pos>)
    ensures Distinct(empty)
    ensures forall p :: p in empty <==> InBounds(p) && p !in blocked
    ensures |empty| == |Free(blocked)|
  {
    empty := [];
    for x := 0 to Cols
      invariant Distinct(empty)
      invariant forall p :: p in empty <==> InBounds(p) && p.x < x && p !in blocked
    {
      for y := 0 to Rows
        invariant Distinct(empty)
        invariant forall p :: p in empty <==> InBounds(p) && (p.x < x || (p.x == x && p.y < y)) && p !in blocked
      {
        if Pos(x, y) !in blocked {
          empty := empty + [Pos(x, y)];
        }
      }
    }
    DistinctCard(empty, Free(blocked));
  }

  /**
    The apples for a new game, from a non-empty list of free cells. The
    count aimed for is min(3, max(1, r, |empty|)) for a random r in 1..3: it
    is three whenever three cells are free, and may exceed the list when
    fewer are. The loop also stops once the list runs out, so exactly
    min(3, |empty|) apples are returned, each taken from the list at a
    random place.
   */
  method PickFoods(empty: seq<Pos>) returns (result: seq<Pos>)
    requires Distinct(empty) && |empty| > 0
    ensures |result| == if |empty| < 3 then |empty| else 3
    ensures Distinct(result)
    ensures forall p :: p in result ==> p in empty
  {
    var r :| 1 <= r <= 3;
    var m := if r > |empty| then r else |empty|;
    var count := if 3 < m then 3 else m;
    var left := empty;
    result := [];
    var i := 0;
    while i < count && |left| > 0
      invariant i <= count && |result| == i && |result| + |left| == |empty|
      invariant Distinct(result) && Distinct(left)
      invariant forall p :: p in empty <==> p in left || p in result
      invariant forall p :: p in result ==> p !in left
    {
      var idx :| 0 <= idx < |left|;
      Splice(left, idx);
      DistinctSnoc(result, left[idx]);
      result := result + [left[idx]];
      left := left[..idx] + left[idx + 1..];
      i := i + 1;
    }
  }

  /** Nine-nine is not the only cell: a new game always has three free cells. */
  lemma StartHasRoom()
    ensures |Free([Pos(9, 9)])| >= 3
  {
    var a := {Pos(0, 0), Pos(0, 1), Pos(0, 2)};
    var b := Free([Pos(9, 9)]);
    assert a <= b;
    assert b == a + (b - a);
  }

  class Game {
    var snake: seq<Pos>
    var foods: seq<Pos>
    var direction: Direction
    var nextDirection: Direction
    var score: nat
    var gameOver: bool

    ghost predicate Valid()
      reads this
    {
      SnakeOk(snake) && FoodsOk(snake, foods) && nextDirection != Opposite(direction)
    }

    /** A running game. */
    constructor ()
      ensures Valid() && !gameOver && score == 0
      ensures snake == [Pos(9, 9)] && direction == Right && nextDirection == Right && |foods| == 3
    {
      snake := [Pos(9, 9)];
      foods := [];
      direction := Right;
      nextDirection := Right;
      new;
      StartSnake();
    }

    /**
      A new game: a one-cell snake in the middle heading right, three apples
      on free cells, score zero.
     */
    method StartSnake()
      modifies this`snake, this`direction, this`nextDirection, this`foods, this`score, this`gameOver
      ensures Valid() && !gameOver && score == 0
      ensures snake == [Pos(9, 9)] && direction == Right && nextDirection == Right && |foods| == 3
    {
      snake := [Pos(9, 9)];
      direction := Right;
      nextDirection := Right;
      foods := RandomFoods();
      StartHasRoom();
      score := 0;
      gameOver := false;
    }

    /** Apples for a new game on the cells the snake leaves free; none, and the game won, when there are none. */
    method RandomFoods() returns (result: seq<Pos>)
      modifies this`gameOver
      ensures |Free(snake)| == 0 ==> result == [] && gameOver
      ensures |Free(snake)| > 0 ==>
                |result| == (if |Free(snake)| < 3 then |Free(snake)| else 3) && gameOver == old(gameOver)
      ensures FoodsOk(snake, result) && |result| <= 3
    {
      var empty := FreeCells(snake);
      if |empty| == 0 {
        EndSnake();
        return [];
      }
      result := PickFoods(empty);
    }

    /**
      Adds up to n apples, one at a time, each on a random cell free of the
      snake and of the apples; stops at ten apples or when no cell is free.
     */
    method AddRandomFoods(n: int)
      requires FoodsOk(snake, foods)
      modifies this`foods
      ensures FoodsOk(snake, foods)
      ensures |foods| == |old(foods)| + AddCount(n, |old(foods)|, |Free(snake + old(foods))|)
      ensures foods[..|old(foods)|] == old(foods)
      ensures forall i :: |old(foods)| <= i < |foods| ==> foods[i] !in old(foods) && foods[i] !in snake
    {
      var empty := FreeCells(snake + foods);
      ghost var free := |empty|;
      var i := 0;
      while i < n && |foods| < MaxFoods && |empty| > 0
        invariant 0 <= i && |foods| == |old(foods)| + i && |empty| == free - i
        invariant i <= n || i == 0
        invariant FoodsOk(snake, foods) && Distinct(empty)
        invariant foods[..|old(foods)|] == old(foods)
        invariant forall j :: |old(foods)| <= j < |foods| ==> foods[j] !in old(foods)
        invariant forall p :: p in empty ==> InBounds(p) && p !in snake && p !in foods
      {
        var idx :| 0 <= idx < |empty|;
        Splice(empty, idx);
        DistinctSnoc(foods, empty[idx]);
        foods := foods + [empty[idx]];
        empty := empty[..idx] + empty[idx + 1..];
        i := i + 1;
      }
    }

    /** The head of the snake eats the apple it lands on, if any: one point, and the apple goes. */
    method Eat(head: Pos) returns (ate: bool)
      modifies this`foods, this`score
      ensures ate <==> head in old(foods)
      ensures foods == Remove(old(foods), head)
      ensures score == if ate then old(score) + 1 else old(score)
    {
      ate := false;
      var i := 0;
      while i < |foods|
        invariant 0 <= i <= |foods| && foods == old(foods) && score == old(score)
        invariant forall k :: 0 <= k < i ==> foods[k] != head
      {
        if head == foods[i] {
          score := score + 1;
          RemoveFirstMatch(foods, head, i);
          foods := foods[..i] + foods[i + 1..];
          ate := true;
          return;
        }
        i := i + 1;
      }
    }

    /** Ends the game. */
    method EndSnake()
      modifies this`gameOver
      ensures gameOver
    {
      gameOver := true;
    }

    /** An arrow key sets the next direction, never to the reverse of the current one. */
    method KeyDown(key: Key)
      requires Valid()
      modifies this`nextDirection
      ensures Valid()
      ensures nextDirection == if old(gameOver) then old(nextDirection) else Steer(direction, old(nextDirection), key)
    {
      if gameOver {
        return;
      }
      nextDirection := Steer(direction, nextDirection, key);
    }

    /**
      One tick: the snake turns to the chosen direction; a head off the grid
      or on the snake ends the game with nothing moved; otherwise the head
      advances, and the snake grows by one and new apples appear if it ate,
      or its tail follows if it did not.
     */
    method MoveSnake()
      requires Valid()
      modifies this`direction, this`snake, this`foods, this`score, this`gameOver
      ensures Valid()
      ensures old(gameOver) ==>
                gameOver && snake == old(snake) && foods == old(foods) && score == old(score)
                && direction == old(direction)
      ensures !old(gameOver) ==> direction == old(nextDirection) && direction != Opposite(old(direction))
      ensures !old(gameOver) && Blocked(old(snake), Step(old(snake)[0], direction)) ==>
                gameOver && snake == old(snake) && foods == old(foods) && score == old(score)
      ensures !old(gameOver) && !Blocked(old(snake), Step(old(snake)[0], direction)) ==>
                var head := Step(old(snake)[0], direction);
                !gameOver
                && (head in old(foods) ==>
                      snake == [head] + old(snake) && score == old(score) + 1
                      && Remove(old(foods), head) <= foods
                      && exists n :: 1 <= n <= 3 && |foods| == |Remove(old(foods), head)|
                           + AddCount(n, |Remove(old(foods), head)|, |Free(snake + Remove(old(foods), head))|))
                && (head !in old(foods) ==>
                      snake == [head] + old(snake)[..|old(snake)| - 1] && score == old(score)
                      && foods == old(foods))
    {
      if gameOver {
        return;
      }
      direction := nextDirection;
      var head := Step(snake[0], direction);
      if head.x < 0 || head.x >= Cols || head.y < 0 || head.y >= Rows {
        EndSnake();
        return;
      }
      if head in snake {
        EndSnake();
        return;
      }
      Advance(head);
    }

    /**
      The head enters a free cell: the snake grows by it and, after eating,
      one to three apples are added; without food the tail cell is given up.
     */
    method Advance(head: Pos)
      requires SnakeOk(snake) && FoodsOk(snake, foods)
      requires InBounds(head) && head !in snake && Adjacent(head, snake[0])
      modifies this`snake, this`foods, this`score
      ensures SnakeOk(snake) && FoodsOk(snake, foods)
      ensures head in old(foods) ==>
                snake == [head] + old(snake) && score == old(score) + 1
                && Remove(old(foods), head) <= foods
                && exists n :: 1 <= n <= 3 && |foods| == |Remove(old(foods), head)|
                     + AddCount(n, |Remove(old(foods), head)|, |Free(snake + Remove(old(foods), head))|)
      ensures head !in old(foods) ==>
                snake == [head] + old(snake)[..|old(snake)| - 1] && score == old(score)
                && foods == old(foods)
    {
      ghost var body := snake;
      snake := [head] + snake;
      RemoveDistinct(foods, head);
      var ate := Eat(head);
      if ate {
        var n :| 1 <= n <= 3;
        AddRandomFoods(n);
      } else {
        snake := snake[..|snake| - 1];
        Shorten(head, body);
      }
    }

    /** A body that gained a head and lost its tail is still a snake. */
    static lemma Shorten(head: Pos, body: seq<Pos>)
      requires SnakeOk(body) && InBounds(head) && head !in body && Adjacent(head, body[0])
      ensures SnakeOk(([head] + body)[..|body|])
      ensures ([head] + body)[..|body|] == [head] + body[..|body| - 1]
    {
      var s := ([head] + body)[..|body|];
      assert s == [head] + body[..|body| - 1];
    }
  }

  /** The head would leave the grid or land on the snake. */
  predicate Blocked(snake: seq<Pos>, head: Pos)
    ensures SnakeOk(snake) && !Blocked(snake, head) && Adjacent(head, snake[0]) ==> SnakeOk([head] + snake)
  {
    !InBounds(head) || head in snake
  }
}
