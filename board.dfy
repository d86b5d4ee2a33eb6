/** The game board the solver reads (the knibert `Board` interface and its
    `Element` enum, neither of which is part of this model): the head, the hero's
    cells, the barrier, apple and stone lists, and the element drawn at each cell. */
module Board {
  import opened Geometry

  /** The knibert elements the snake rebuild distinguishes; every other element
      of the board (empty cell, apple, wall, ...) is `Other`. */
  datatype Element =
    | HeadDown | HeadLeft | HeadRight | HeadUp
    | TailHorizontal | TailVertical
    | TailLeftDown | TailLeftUp | TailRightDown | TailRightUp
    | TailEndDown | TailEndLeft | TailEndUp | TailEndRight
    | Other

  datatype Board = Board(
    head: Point,
    hero: seq<Point>,
    barriers: seq<Point>,
    apples: seq<Point>,
    stones: seq<Point>,
    drawn: map<Point, Element>)

  /** `getAt`: the element drawn at `p`. */
  function GetAt(board: Board, p: Point): Element
  {
    if p in board.drawn then board.drawn[p] else Other
  }
}
