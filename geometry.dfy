/** Points of the game board (the codenjoy `Point`/`PointImpl` values the solver
    works with) and the cardinal-adjacency relation they are judged by. */
module Geometry {

  /** A board coordinate; equality is structural, as for `PointImpl`. */
  datatype Point = Point(x: int, y: int)

  /** The independent reference notion of "one step away": Manhattan distance
      1, that is, one coordinate equal and the other one apart. */
  predicate Adjacent(a: Point, b: Point)
  {
    (a.x == b.x && (a.y - b.y == 1 || b.y - a.y == 1))
    || (a.y == b.y && (a.x - b.x == 1 || b.x - a.x == 1))
  }

  /** Every consecutive pair of `s` is cardinally adjacent. */
  predicate Chained(s: seq<Point>)
  {
    forall i :: 0 < i < |s| ==> Adjacent(s[i - 1], s[i])
  }

  predicate NoDuplicates<T(==)>(s: seq<T>)
  {
    forall i, j :: 0 <= i < j < |s| ==> s[i] != s[j]
  }
}
