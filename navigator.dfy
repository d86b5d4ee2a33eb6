/** Navigator.java: the move policy. It rebuilds the snake from the board,
    writes it into the board model, runs the wave search from the head to the
    first apple and answers with the direction of the route's first cell. When
    the route is empty, or anything on the way fails, it answers with the first
    neighbour of the head that is neither part of the hero nor a barrier. */
module Navigation {
  import opened Geometry
  import opened Failures
  import opened Board
  import opened BoardModel
  import opened Cursor
  import opened SnakeBuilder
  import opened Lee
  import opened LeeProofs
  import opened LeeTheorems

  /** The board the game hands the solver: every point it reports lies on the
      15 x 15 grid, and the head is not on the outermost ring. */
  predicate OnGrid(board: Board)
  {
    EnvironmentInBounds(board) && Interior(board.head)
    && forall p :: p in board.drawn ==> InBounds(p)
  }

  /** The outermost ring is wall: every border cell is a stone, or a barrier
      that no apple covers. */
  ghost predicate Walled(board: Board)
  {
    forall p {:trigger OnBorder(p)} :: OnBorder(p) ==> p in board.stones || (p in board.barriers && p !in board.apples)
  }

  /** A walled board gives a framed board model. */
  lemma WalledIsFramed(board: Board)
    requires EnvironmentInBounds(board) && Walled(board)
    ensures Framed(Environment(board))
  {
    forall p | OnBorder(p) ensures At(Environment(board), p) < 0 {
      EnvironmentAt(board, p);
    }
  }

  /** The snake `getSnakeFromBoard` rebuilds lies on the grid and starts at
      the head. */
  lemma SnakeOnGrid(board: Board)
    requires OnGrid(board) && SnakeFromBoard(board).Success?
    ensures var snake := SnakeFromBoard(board).value;
      AllInBounds(snake) && snake != [] && snake[0] == board.head
  {
    var snake := SnakeFromBoard(board).value;
    CompleteWalkDrawn(board, snake);
    WalkShape(board, snake);
  }

  /** The board model after `setupInitialField`: the rebuilt snake written over `g`. */
  function SetupGrid(board: Board, g: Grid): (r: Grid)
    requires OnGrid(board) && WellFormed(g) && SnakeFromBoard(board).Success?
    ensures WellFormed(r)
    ensures Framed(g) ==> Framed(r)
    ensures Clean(g) ==> Clean(r)
    ensures !Available(At(r, board.head))
  {
    var snake := SnakeFromBoard(board).value;
    SnakeOnGrid(board);
    PaintSnakeKeeps(g, snake);
    PaintSnakeBelowHead(g, snake, snake[0]);
    PaintSnake(g, snake)
  }

  /** `setupInitialField` writes the rebuilt snake, which lies on the grid. */
  lemma SetupGridPaints(board: Board, g: Grid, snake: seq<Point>)
    requires OnGrid(board) && WellFormed(g) && SnakeFromBoard(board) == Success(snake)
    ensures AllInBounds(snake) && SetupGrid(board, g) == PaintSnake(g, snake)
  {
    SnakeOnGrid(board);
  }

  /** A cell `moveNearestSafePoint` may pick: in neither `getHero()` nor
      `getBarriers()`. Stones do not count. */
  predicate IsSafe(board: Board, p: Point)
  {
    p !in board.hero && p !in board.barriers
  }

  /** The stream's `filter(...).filter(...).findFirst()` over `ps`. */
  function FirstSafe(board: Board, ps: seq<Point>): (r: Option<nat>)
    ensures r.Some? ==> r.value < |ps| && IsSafe(board, ps[r.value])
    ensures r.Some? ==> forall j :: 0 <= j < r.value ==> !IsSafe(board, ps[j])
    ensures r.None? ==> forall j :: 0 <= j < |ps| ==> !IsSafe(board, ps[j])
  {
    if ps == [] then None
    else if IsSafe(board, ps[0]) then Some(0)
    else
      match FirstSafe(board, ps[1..])
      case None => None
      case Some(i) => Some(i + 1)
  }

  /** The point `moveNearestSafePoint` heads for: the first neighbour of the
      head, in `getNearestPoints` order, that is safe; the UP neighbour when
      none is. */
  function SafePoint(board: Board): (p: Point)
    ensures Adjacent(board.head, p)
    ensures var ns := GetNearestPoints(board.head);
      (exists i :: 0 <= i < |ns| && p == ns[i] && IsSafe(board, p) && forall j :: 0 <= j < i ==> !IsSafe(board, ns[j]))
      || (p == MoveToDirection(board.head, Up) && forall q :: Adjacent(board.head, q) ==> !IsSafe(board, q))
  {
    var ns := GetNearestPoints(board.head);
    match FirstSafe(board, ns)
    case Some(i) => ns[i]
    case None =>
      assert forall q :: Adjacent(board.head, q) ==> !IsSafe(board, q) by {
        forall q | Adjacent(board.head, q) ensures !IsSafe(board, q) {
          var i :| 0 <= i < |ns| && ns[i] == q;
        }
      }
      MoveToDirection(board.head, Up)
  }

  /** Whenever some neighbour of the head is safe, the fallback steps onto a
      safe cell. */
  lemma SafePointIsSafe(board: Board, q: Point)
    requires Adjacent(board.head, q) && IsSafe(board, q)
    ensures IsSafe(board, SafePoint(board))
  {
  }

  /** `moveNearestSafePoint`: the name of the direction from the head to
      `SafePoint`; it cannot fail, the point being one step away. */
  function MoveNearestSafePoint(board: Board): (r: string)
    ensures IsMoveName(r)
    ensures exists d :: r == Name(d) && MoveToDirection(board.head, d) == SafePoint(board)
  {
    var d := GetDirection(board.head, SafePoint(board));
    Name(d.value)
  }

  /** What `getMove` returns, or the exception it throws, on a board model
      holding `g`: a failure of the snake rebuild, of `getApples().get(0)`, of
      the search's trace or of `getDirection` is the exception; an empty
      route hands over to `moveNearestSafePoint`. */
  function Move(board: Board, g: Grid): (r: Result<string>)
    requires OnGrid(board) && WellFormed(g) && Framed(g)
    ensures r.Success? ==> IsMoveName(r.value)
    ensures SnakeFromBoard(board).Failure? ==> r == Failure(SnakeFromBoard(board).error)
    ensures SnakeFromBoard(board).Success? && board.apples == [] ==> r == Failure(NoApple)
  {
    var snake := SnakeFromBoard(board);
    if snake.Failure? then Failure(snake.error)
    else if board.apples == [] then Failure(NoApple)
    else
      var route := ShortestRoute(SetupGrid(board, g), board.head, board.apples[0]);
      if route.Failure? then Failure(route.error)
      else if route.value == [] then Success(MoveNearestSafePoint(board))
      else
        var d := GetDirection(board.head, route.value[0]);
        if d.Failure? then Failure(d.error) else Success(Name(d.value))
  }

  /** The board model after `getMove`: the snake written in, then the marks of
      the search, as far as `getMove` got before it returned or threw. */
  ghost function MoveGrid(board: Board, g: Grid): (r: Grid)
    requires OnGrid(board) && WellFormed(g) && Framed(g)
    ensures WellFormed(r) && Framed(r)
  {
    if SnakeFromBoard(board).Failure? then g
    else
      var g1 := SetupGrid(board, g);
      if board.apples == [] then g1
      else Rounds(g1, [board.head], 0, board.apples[0]).grid
  }

  /** `findSolution`: the answer of `getMove`, or `moveNearestSafePoint` when
      it threw. It is always one of the four move names. */
  function Solution(board: Board, g: Grid): (r: string)
    requires OnGrid(board) && WellFormed(g) && Framed(g)
    ensures IsMoveName(r)
    ensures Move(board, g).Failure? ==> r == MoveNearestSafePoint(board)
  {
    match Move(board, g)
    case Success(m) => m
    case Failure(_) => MoveNearestSafePoint(board)
  }

  /** On a fresh board model, when the first apple can be reached in at most
      100 steps, the answer is the direction of the first cell of a walk to it
      that no other walk beats. */
  lemma MoveFollowsShortestWalk(board: Board, path: seq<Point>)
    requires OnGrid(board) && Framed(Environment(board))
    requires SnakeFromBoard(board).Success? && board.apples != []
    requires IsPath(SetupGrid(board, Environment(board)), board.head, board.apples[0], path)
    requires |path| <= APPLE
    ensures var g1 := SetupGrid(board, Environment(board));
      var route := ShortestRoute(g1, board.head, board.apples[0]);
      && route.Success? && IsPath(g1, board.head, board.apples[0], route.value) && |route.value| <= |path|
      && exists d :: Move(board, Environment(board)) == Success(Name(d)) && MoveToDirection(board.head, d) == route.value[0]
  {
    var g0 := Environment(board);
    var g1 := SetupGrid(board, g0);
    var apple := board.apples[0];
    EnvironmentClean(board);
    ShortPathIsFound(g1, board.head, apple, path);
    var route := ShortestRoute(g1, board.head, apple).value;
    var d := GetDirection(board.head, route[0]).value;
    assert Move(board, g0) == Success(Name(d));
  }

  /** On a fresh board model, when no walk leads to the first apple (and the
      search stopped below round 100), the answer is `moveNearestSafePoint`. */
  lemma NoWalkFallsBack(board: Board)
    requires OnGrid(board) && Framed(Environment(board))
    requires SnakeFromBoard(board).Success? && board.apples != []
    requires Rounds(SetupGrid(board, Environment(board)), [board.head], 0, board.apples[0]).steps < APPLE
    requires forall path :: !IsPath(SetupGrid(board, Environment(board)), board.head, board.apples[0], path)
    ensures Move(board, Environment(board)) == Success(MoveNearestSafePoint(board))
    ensures Solution(board, Environment(board)) == MoveNearestSafePoint(board)
  {
    EnvironmentClean(board);
    NoPathEmptyRoute(SetupGrid(board, Environment(board)), board.head, board.apples[0]);
  }

  /** The solver object: the board it answers for, its board model, and the
      search, which works on that same model. */
  class Navigator {
    const board: Board
    const field: Field
    const lee: LeeAlgorithm

    ghost predicate Valid()
      reads this, field
    {
      OnGrid(board) && field.Valid() && lee.field == field
    }

    /** `new Navigator(board)`: a board model set up from the board, and a
        search over it. */
    constructor (board: Board)
      requires OnGrid(board)
      ensures Valid() && this.board == board
      ensures field.Grid() == Environment(board) && fresh(field) && fresh(field.cells)
    {
      var f := new Field(board);
      var l := new LeeAlgorithm(f);
      this.board := board;
      field := f;
      lee := l;
    }

    /** `setupInitialField`: rebuilds the snake and writes it into the model;
        a failed rebuild leaves the model as it was. */
    method SetupInitialField() returns (r: Result<seq<Point>>)
      requires Valid()
      modifies field, field.cells
      ensures Valid() && r == SnakeFromBoard(board)
      ensures r.Success? ==> AllInBounds(r.value) && field.Grid() == PaintSnake(old(field.Grid()), r.value) && field.snake == r.value
      ensures r.Failure? ==> field.Grid() == old(field.Grid()) && field.snake == old(field.snake)
    {
      r := GetSnakeFromBoard(board);
      assert field.Grid() == old(field.Grid());
      if r.Success? {
        SnakeOnGrid(board);
        WriteSnake(r.value);
      }
    }

    /** `field.setSnake(snake)` on the navigator's model. */
    method WriteSnake(snake: seq<Point>)
      requires Valid() && AllInBounds(snake)
      modifies field, field.cells
      ensures Valid() && field.Grid() == PaintSnake(old(field.Grid()), snake) && field.snake == snake
    {
      field.SetSnake(snake);
    }

    /** `getMove`, with a thrown exception as a `Failure`. */
    method GetMove() returns (r: Result<string>)
      requires Valid() && Framed(field.Grid())
      modifies field, field.cells
      ensures Valid() && Framed(field.Grid())
      ensures r == Move(board, old(field.Grid()))
      ensures field.Grid() == MoveGrid(board, old(field.Grid()))
    {
      ghost var g := field.Grid();
      var snake := SetupInitialField();
      if snake.Failure? {
        return Failure(snake.error);
      }
      SetupGridPaints(board, g, snake.value);
      if board.apples == [] {
        return Failure(NoApple);
      }
      var route := lee.GetShortestRouteToTarget(board.head, board.apples[0]);
      if route.Failure? {
        return Failure(route.error);
      }
      if route.value == [] {
        return Success(MoveNearestSafePoint(board));
      }
      var d := GetDirection(board.head, route.value[0]);
      if d.Failure? {
        return Failure(d.error);
      }
      r := Success(Name(d.value));
    }

    /** `findSolution`: the move of `getMove`, or `moveNearestSafePoint` when
        `getMove` threw. */
    method FindSolution() returns (r: string)
      requires Valid() && Framed(field.Grid())
      modifies field, field.cells
      ensures Valid() && Framed(field.Grid())
      ensures r == Solution(board, old(field.Grid()))
      ensures field.Grid() == MoveGrid(board, old(field.Grid()))
    {
      var m := GetMove();
      if m.Success? {
        r := m.value;
      } else {
        r := MoveNearestSafePoint(board);
      }
    }
  }
}
