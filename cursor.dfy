/** The four-direction coordinate table of the solver (Cursor.java): neighbour
    generation, stepping a point in a direction, and turning a unit offset back
    into a direction. Cursor's lazily created singleton carries no state, so the
    table is a set of functions here. */
module Cursor {
  import opened Geometry
  import opened Failures

  /** The four moves of codenjoy's `Direction` that the solver uses. */
  datatype Direction = Up | Down | Right | Left

  /** `Direction.toString()`: the name of the enum constant. */
  function Name(d: Direction): string
  {
    match d
    case Up => "UP"
    case Down => "DOWN"
    case Right => "RIGHT"
    case Left => "LEFT"
  }

  /** The names a move can have. */
  predicate IsMoveName(s: string)
  {
    s == "UP" || s == "DOWN" || s == "RIGHT" || s == "LEFT"
  }

  /** The `deltas` table: the unit offset of each direction (UP is y + 1). */
  function Delta(d: Direction): Point
  {
    match d
    case Up => Point(0, 1)
    case Down => Point(0, -1)
    case Right => Point(1, 0)
    case Left => Point(-1, 0)
  }

  /** The order in which the table's entries are visited. */
  const Directions: seq<Direction> := [Up, Down, Right, Left]

  /** `moveFromPoint`: a shifted copy of `p`; `p` itself, a value, is untouched. */
  function MoveFromPoint(p: Point, delta: Point): (r: Point)
    ensures Adjacent(p, r) <==> Delta(Up) == delta || Delta(Down) == delta || Delta(Right) == delta || Delta(Left) == delta
  {
    Point(p.x + delta.x, p.y + delta.y)
  }

  /** `moveToDirection`: the point one step from `start` in direction `d`. */
  function MoveToDirection(start: Point, d: Direction): (r: Point)
    ensures Adjacent(start, r)
    ensures d == Up ==> r == Point(start.x, start.y + 1)
    ensures d == Down ==> r == Point(start.x, start.y - 1)
    ensures d == Right ==> r == Point(start.x + 1, start.y)
    ensures d == Left ==> r == Point(start.x - 1, start.y)
  {
    MoveFromPoint(start, Delta(d))
  }

  /** A point one step away from `p` is one of the four table steps. */
  lemma AdjacentIsStep(p: Point, q: Point)
    requires Adjacent(p, q)
    ensures exists d :: q == MoveToDirection(p, d)
  {
    if q.x == p.x {
      if q.y == p.y + 1 { assert q == MoveToDirection(p, Up); }
      else { assert q == MoveToDirection(p, Down); }
    } else if q.x == p.x + 1 {
      assert q == MoveToDirection(p, Right);
    } else {
      assert q == MoveToDirection(p, Left);
    }
  }

  /** `getNearestPoints`: the four neighbours of `p`, in table order. */
  function GetNearestPoints(p: Point): (r: seq<Point>)
    ensures |r| == 4 && NoDuplicates(r)
    ensures forall q :: q in r <==> Adjacent(p, q)
    ensures forall i :: 0 <= i < 4 ==> r[i] == MoveToDirection(p, Directions[i])
  {
    var r := seq(4, i requires 0 <= i < 4 => MoveToDirection(p, Directions[i]));
    assert forall q :: Adjacent(p, q) ==> q in r by {
      forall q | Adjacent(p, q) ensures q in r {
        AdjacentIsStep(p, q);
        var d :| q == MoveToDirection(p, d);
        assert q == r[if d == Up then 0 else if d == Down then 1 else if d == Right then 2 else 3];
      }
    }
    r
  }

  /** The first direction of `ds` whose offset is `offset`. */
  function FindDirection(ds: seq<Direction>, offset: Point): (r: Result<Direction>)
    ensures r.Success? ==> r.value in ds && Delta(r.value) == offset
    ensures r.Failure? ==> r.error == NotAdjacent && forall d :: d in ds ==> Delta(d) != offset
  {
    if ds == [] then Failure(NotAdjacent)
    else if Delta(ds[0]) == offset then Success(ds[0])
    else FindDirection(ds[1..], offset)
  }

  /** `getDirection`: the direction that leads from `current` to `target`;
      fails with `NotAdjacent` unless `target` is one step away. */
  function GetDirection(current: Point, target: Point): (r: Result<Direction>)
    ensures r.Success? <==> Adjacent(current, target)
    ensures r.Success? ==> MoveToDirection(current, r.value) == target
    ensures r.Failure? ==> r.error == NotAdjacent
  {
    var offset := Point(target.x - current.x, target.y - current.y);
    assert Adjacent(current, target) ==> exists d :: Delta(d) == offset by {
      if Adjacent(current, target) {
        AdjacentIsStep(current, target);
      }
    }
    FindDirection(Directions, offset)
  }

  /** Turning a step back into a direction gives the direction of the step. */
  lemma DirectionRoundTrip(p: Point, d: Direction)
    ensures GetDirection(p, MoveToDirection(p, d)) == Success(d)
  {
  }

  /** Every step lands on one of the nearest points. */
  lemma MoveIsNearest(p: Point, d: Direction)
    ensures MoveToDirection(p, d) in GetNearestPoints(p)
  {
  }
}
