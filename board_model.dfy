/** BoardModel.java: the solver's own 15 x 15 grid of integer markers, indexed
    [y][x]. Static markers are negative, search marks are positive, and the apple
    sentinel is 100. The class `Field` keeps the grid in a two-dimensional array
    that its methods update in place; `Grid` is the same content as a value, on
    which the specification functions below are stated. */
module BoardModel {
  import opened Geometry
  import opened Board

  /** DIMX and DIMY. */
  const Dim: int := 15

  const BARRIER: int := -5
  const HEAD: int := -10
  const SNAKE_STEP: int := -10
  const STONE: int := -4
  const APPLE: int := 100
  const EMPTY: int := 0

  type Grid = seq<seq<int>>

  predicate WellFormed(g: Grid)
  {
    |g| == Dim && forall y :: 0 <= y < Dim ==> |g[y]| == Dim
  }

  /** The points `get` and `set` accept; any other point is outside the array. */
  predicate InBounds(p: Point)
  {
    0 <= p.x < Dim && 0 <= p.y < Dim
  }

  predicate AllInBounds(ps: seq<Point>)
  {
    forall i :: 0 <= i < |ps| ==> InBounds(ps[i])
  }

  /** A point all four of whose neighbours are in bounds. */
  predicate Interior(p: Point)
  {
    1 <= p.x < Dim - 1 && 1 <= p.y < Dim - 1
  }

  function At(g: Grid, p: Point): int
    requires WellFormed(g) && InBounds(p)
  {
    g[p.y][p.x]
  }

  /** The grid after writing `v` at `p`. */
  function Update(g: Grid, p: Point, v: int): (r: Grid)
    requires WellFormed(g) && InBounds(p)
    ensures WellFormed(r)
    ensures forall q :: InBounds(q) ==> At(r, q) == if q == p then v else At(g, q)
  {
    g[p.y := g[p.y][p.x := v]]
  }

  /** A freshly allocated Java `int[][]`: every cell 0. */
  function EmptyGrid(): (r: Grid)
    ensures WellFormed(r)
    ensures forall q :: InBounds(q) ==> At(r, q) == EMPTY
  {
    seq(Dim, y => seq(Dim, x => EMPTY))
  }

  /** The grid after writing `v` at every point of `ps`, in order. */
  function Paint(g: Grid, ps: seq<Point>, v: int): (r: Grid)
    requires WellFormed(g) && AllInBounds(ps)
    ensures WellFormed(r)
    ensures forall q :: InBounds(q) ==> At(r, q) == if q in ps then v else At(g, q)
  {
    if ps == [] then g
    else
      var r := Update(Paint(g, ps[..|ps| - 1], v), ps[|ps| - 1], v);
      assert forall q :: q in ps <==> q in ps[..|ps| - 1] || q == ps[|ps| - 1] by {
        assert ps == ps[..|ps| - 1] + [ps[|ps| - 1]];
      }
      r
  }

  /** Everything `setEnvironment` may write lies inside the grid. */
  predicate EnvironmentInBounds(board: Board)
  {
    AllInBounds(board.barriers) && AllInBounds(board.apples) && AllInBounds(board.stones)
  }

  /** `setEnvironment` on a fresh grid: barriers, then apples, then stones. */
  function Environment(board: Board): (r: Grid)
    requires EnvironmentInBounds(board)
    ensures WellFormed(r)
  {
    Paint(Paint(Paint(EmptyGrid(), board.barriers, BARRIER), board.apples, APPLE), board.stones, STONE)
  }

  /** The marker of the k-th snake cell from the head. */
  function SnakeValue(k: nat): (v: int)
    ensures v <= HEAD && v < BARRIER && v < STONE && v < EMPTY
    ensures k > 0 ==> v < SnakeValue(k - 1)
  {
    HEAD + k * SNAKE_STEP
  }

  /** `i` is the last position of `s[i]` in `s`. */
  predicate IsLastIndex(s: seq<Point>, i: int)
    requires 0 <= i < |s|
  {
    forall j :: i < j < |s| ==> s[j] != s[i]
  }

  /** The grid after `setSnake(snake)`: HEAD at the head, one SNAKE_STEP lower per cell. */
  function PaintSnake(g: Grid, snake: seq<Point>): (r: Grid)
    requires WellFormed(g) && AllInBounds(snake)
    ensures WellFormed(r)
  {
    if snake == [] then g
    else
      var n := |snake| - 1;
      Update(PaintSnake(g, snake[..n]), snake[n], SnakeValue(n))
  }

  /** Painting the snake leaves every cell off the snake as it was. */
  lemma {:induction false} PaintSnakeOff(g: Grid, snake: seq<Point>, q: Point)
    requires WellFormed(g) && AllInBounds(snake) && InBounds(q) && q !in snake
    ensures At(PaintSnake(g, snake), q) == At(g, q)
    decreases |snake|
  {
    if snake != [] {
      var n := |snake| - 1;
      assert q != snake[n];
      PaintSnakeOff(g, snake[..n], q);
    }
  }

  /** Every cell of the painted snake reads at most HEAD. */
  lemma {:induction false} PaintSnakeBelowHead(g: Grid, snake: seq<Point>, q: Point)
    requires WellFormed(g) && AllInBounds(snake) && q in snake
    ensures At(PaintSnake(g, snake), q) <= HEAD
    decreases |snake|
  {
    var n := |snake| - 1;
    if q != snake[n] {
      assert snake == snake[..n] + [snake[n]];
      PaintSnakeBelowHead(g, snake[..n], q);
    }
  }

  /** A cell the snake visits last reads the marker of that visit. */
  lemma {:induction false} PaintSnakeLast(g: Grid, snake: seq<Point>, i: nat)
    requires WellFormed(g) && AllInBounds(snake) && i < |snake| && IsLastIndex(snake, i)
    ensures At(PaintSnake(g, snake), snake[i]) == SnakeValue(i)
    decreases |snake|
  {
    var n := |snake| - 1;
    if i < n {
      assert snake[i] != snake[n];
      PaintSnakeLast(g, snake[..n], i);
    }
  }

  /** After `setSnake` the cells off the snake are unchanged, every snake cell
      reads at most HEAD, and a cell the snake visits last reads the marker of
      that visit. */
  lemma PaintSnakeCells(g: Grid, snake: seq<Point>)
    requires WellFormed(g) && AllInBounds(snake)
    ensures forall q :: InBounds(q) && q !in snake ==> At(PaintSnake(g, snake), q) == At(g, q)
    ensures forall q :: InBounds(q) && q in snake ==> At(PaintSnake(g, snake), q) <= HEAD
    ensures forall i :: 0 <= i < |snake| && IsLastIndex(snake, i) ==> At(PaintSnake(g, snake), snake[i]) == SnakeValue(i)
  {
    forall q | InBounds(q) && q !in snake ensures At(PaintSnake(g, snake), q) == At(g, q) {
      PaintSnakeOff(g, snake, q);
    }
    forall q | InBounds(q) && q in snake ensures At(PaintSnake(g, snake), q) <= HEAD {
      PaintSnakeBelowHead(g, snake, q);
    }
    forall i | 0 <= i < |snake| && IsLastIndex(snake, i) ensures At(PaintSnake(g, snake), snake[i]) == SnakeValue(i) {
      PaintSnakeLast(g, snake, i);
    }
  }

  /** Two grids with the same marker everywhere are the same grid. */
  lemma GridsEqual(g: Grid, h: Grid)
    requires WellFormed(g) && WellFormed(h)
    requires forall p :: InBounds(p) ==> At(g, p) == At(h, p)
    ensures g == h
  {
    forall y | 0 <= y < Dim
      ensures g[y] == h[y]
    {
      forall x | 0 <= x < Dim
        ensures g[y][x] == h[y][x]
      {
        assert At(g, Point(x, y)) == At(h, Point(x, y));
      }
    }
  }

  /** isEmpty or isApple: a cell the search may step on. */
  predicate Available(v: int)
  {
    v == EMPTY || v == APPLE
  }

  /** Every border cell holds a negative (static or snake) marker, so a search
      that never leaves available cells never indexes outside the array. */
  ghost predicate Framed(g: Grid)
    requires WellFormed(g)
  {
    forall p {:trigger OnBorder(p)} :: OnBorder(p) ==> At(g, p) < 0
  }

  /** A cell of the outermost ring of the board. */
  predicate OnBorder(p: Point)
  {
    InBounds(p) && !Interior(p)
  }

  /** The grid holds only markers the model writes before a search: no marks. */
  ghost predicate Clean(g: Grid)
    requires WellFormed(g)
  {
    forall p :: InBounds(p) ==> At(g, p) <= EMPTY || At(g, p) == APPLE
  }

  /** The marker `setEnvironment` leaves at `q`: a later category wins. */
  lemma EnvironmentAt(board: Board, q: Point)
    requires EnvironmentInBounds(board) && InBounds(q)
    ensures At(Environment(board), q) ==
      if q in board.stones then STONE
      else if q in board.apples then APPLE
      else if q in board.barriers then BARRIER
      else EMPTY
  {
  }

  /** The environment holds no search marks. */
  lemma EnvironmentClean(board: Board)
    requires EnvironmentInBounds(board)
    ensures Clean(Environment(board))
  {
  }

  /** Painting a snake keeps a grid clean and framed. */
  lemma {:induction false} PaintSnakeKeeps(g: Grid, snake: seq<Point>)
    requires WellFormed(g) && AllInBounds(snake)
    ensures Clean(g) ==> Clean(PaintSnake(g, snake))
    ensures Framed(g) ==> Framed(PaintSnake(g, snake))
  {
    PaintSnakeCells(g, snake);
  }

  /** The model's grid: a [y][x] array of markers and the snake last written into it. */
  class Field {
    const cells: array2<int>
    /** The snake of the last `setSnake`; the source leaves it null until then. */
    var snake: seq<Point>

    ghost predicate Valid()
      reads this
    {
      cells.Length0 == Dim && cells.Length1 == Dim
    }

    /** The array's content as a value. */
    function Grid(): (g: Grid)
      reads this, cells
      requires Valid()
      ensures WellFormed(g)
      ensures forall p :: InBounds(p) ==> At(g, p) == cells[p.y, p.x]
    {
      seq(Dim, y requires 0 <= y < Dim reads cells =>
        seq(Dim, x requires 0 <= x < Dim reads cells => cells[y, x]))
    }

    /** `new BoardModel(board)`: a zeroed array, then `setEnvironment(board)`. */
    constructor (board: Board)
      requires EnvironmentInBounds(board)
      ensures Valid() && fresh(cells)
      ensures Grid() == Environment(board)
      ensures snake == []
    {
      cells := new int[Dim, Dim]((y, x) => EMPTY);
      snake := [];
      new;
      GridsEqual(Grid(), EmptyGrid());
      SetEnvironment(board);
    }

    /** `get`. */
    function Get(p: Point): (v: int)
      reads this, cells
      requires Valid() && InBounds(p)
      ensures v == At(Grid(), p)
    {
      cells[p.y, p.x]
    }

    /** `set`: only the cell at `p` changes. */
    method Set(p: Point, v: int)
      requires Valid() && InBounds(p)
      modifies cells
      ensures Valid()
      ensures Grid() == Update(old(Grid()), p, v)
    {
      cells[p.y, p.x] := v;
      GridsEqual(Grid(), Update(old(Grid()), p, v));
    }

    /** `isEmpty`: the model's cell at `p` reads EMPTY. */
    predicate IsEmpty(p: Point)
      reads this, cells
      requires Valid() && InBounds(p)
      ensures IsEmpty(p) <==> At(Grid(), p) == EMPTY
    {
      Get(p) == EMPTY
    }

    /** `isApple`: the model's cell at `p` reads APPLE, so it is never also
        empty. */
    predicate IsApple(p: Point)
      reads this, cells
      requires Valid() && InBounds(p)
      ensures IsApple(p) <==> At(Grid(), p) == APPLE
      ensures IsApple(p) ==> !IsEmpty(p)
    {
      Get(p) == APPLE
    }

    /** `clear`: the cell at `p` becomes EMPTY, no other cell changes. */
    method Clear(p: Point)
      requires Valid() && InBounds(p)
      modifies cells
      ensures Valid()
      ensures Grid() == Update(old(Grid()), p, EMPTY)
      ensures IsEmpty(p)
    {
      Set(p, EMPTY);
    }

    /** `getSnake`. */
    function GetSnake(): seq<Point>
      reads this
    {
      snake
    }

    /** Writes `v` at each point of `ps`, in order (one `forEach` of `setEnvironment`). */
    method SetAll(ps: seq<Point>, v: int)
      requires Valid() && AllInBounds(ps)
      modifies cells
      ensures Valid()
      ensures Grid() == Paint(old(Grid()), ps, v)
    {
      for i := 0 to |ps|
        invariant Valid()
        invariant Grid() == Paint(old(Grid()), ps[..i], v)
      {
        Set(ps[i], v);
        assert ps[..i + 1][..i] == ps[..i];
      }
      assert ps[..|ps|] == ps;
    }

    /** `setEnvironment`: barriers, then apples, then stones. */
    method SetEnvironment(board: Board)
      requires Valid() && EnvironmentInBounds(board)
      modifies cells
      ensures Valid()
      ensures Grid() == Paint(Paint(Paint(old(Grid()), board.barriers, BARRIER), board.apples, APPLE), board.stones, STONE)
    {
      SetAll(board.barriers, BARRIER);
      SetAll(board.apples, APPLE);
      SetAll(board.stones, STONE);
    }

    /** `setSnake`: writes HEAD, HEAD + SNAKE_STEP, ... along `s` and keeps `s`.
        Cells of an earlier snake that `s` does not cover keep their markers. */
    method SetSnake(s: seq<Point>)
      requires Valid() && AllInBounds(s)
      modifies this, cells
      ensures Valid()
      ensures Grid() == PaintSnake(old(Grid()), s)
      ensures snake == s
    {
      var stepValue := HEAD;
      for i := 0 to |s|
        invariant Valid()
        invariant stepValue == SnakeValue(i)
        invariant Grid() == PaintSnake(old(Grid()), s[..i])
      {
        Set(s[i], stepValue);
        stepValue := stepValue + SNAKE_STEP;
        assert s[..i + 1][..i] == s[..i];
      }
      assert s[..|s|] == s;
      snake := s;
    }
  }
}
