/** The breadth-first wave search of LeeAlgorithm.java. From the start point the
    search expands, round by round, to the available (empty or apple) neighbours
    of the last round's points, writing the round number into each newly reached
    cell of the shared board; once the target is among the newly reached points,
    it walks back from the target over the marks 100, 99, ... down to 1 by
    picking, at each step, the first neighbour carrying the next lower mark.

    The stream pipelines of the source are functions on the grid value; the two
    loops that change the board or build the route are methods of the class
    `LeeAlgorithm`, proved equal to the functions `Rounds` and `Trace`. What the
    search promises about shortest routes is proved in the module `LeeProofs`. */
module Lee {
  import opened Geometry
  import opened Failures
  import opened Cursor
  import opened BoardModel

  /** The search's own offset table, in its order: down the y axis, left, right,
      up the y axis. */
  const Deltas: seq<Point> := [Point(0, -1), Point(-1, 0), Point(1, 0), Point(0, 1)]

  /** The four points next to `p`, in the order of `Deltas`. */
  function Neighbours(p: Point): (r: seq<Point>)
    ensures |r| == 4
  {
    [Point(p.x, p.y - 1), Point(p.x - 1, p.y), Point(p.x + 1, p.y), Point(p.x, p.y + 1)]
  }

  /** `Neighbours` moves `p` by each entry of `Deltas`, in order. */
  lemma NeighboursFollowDeltas(p: Point)
    ensures forall i :: 0 <= i < 4 ==> Neighbours(p)[i] == MoveFromPoint(p, Deltas[i])
  {
  }

  /** The neighbours are four different points, and exactly the points
      adjacent to `p`. */
  lemma NeighboursAreAdjacent(p: Point)
    ensures NoDuplicates(Neighbours(p))
    ensures forall q :: q in Neighbours(p) <==> Adjacent(p, q)
  {
    var r := Neighbours(p);
    forall q | Adjacent(p, q) ensures q in r {
      AdjacentIsStep(p, q);
      var d :| q == MoveToDirection(p, d);
      assert q == r[if d == Down then 0 else if d == Left then 1 else if d == Right then 2 else 3];
    }
  }

  /** A neighbour of an interior point lies on the board. */
  lemma NeighbourInBounds(p: Point, q: Point)
    requires Interior(p) && Adjacent(p, q)
    ensures InBounds(q)
  {
  }

  /** `getNearestAvailablePoints(point)`: the neighbours of `p` that are empty
      or hold an apple, in the order of `Deltas`. */
  function NearestAvailablePoints(g: Grid, p: Point): (r: seq<Point>)
    requires WellFormed(g) && Interior(p)
    ensures AllInBounds(r)
    ensures forall q :: q in r <==> Adjacent(p, q) && InBounds(q) && Available(At(g, q))
  {
    var ns := Neighbours(p);
    NeighboursAreAdjacent(p);
    (if Available(At(g, ns[0])) then [ns[0]] else [])
    + (if Available(At(g, ns[1])) then [ns[1]] else [])
    + (if Available(At(g, ns[2])) then [ns[2]] else [])
    + (if Available(At(g, ns[3])) then [ns[3]] else [])
  }

  /** The first occurrence of every element of `s`, in order (`Stream.distinct`). */
  function Distinct(s: seq<Point>): seq<Point>
  {
    if s == [] then []
    else
      var r := Distinct(s[..|s| - 1]);
      if s[|s| - 1] in r then r else r + [s[|s| - 1]]
  }

  /** `Distinct` keeps every point of `s`, adds none, and keeps one copy of each. */
  lemma {:induction false} DistinctFacts(s: seq<Point>)
    ensures forall x :: x in Distinct(s) <==> x in s
    ensures NoDuplicates(Distinct(s))
  {
    if s != [] {
      var init := s[..|s| - 1];
      DistinctFacts(init);
      assert s == init + [s[|s| - 1]];
    }
  }

  /** The available neighbours of every point of `ps`, one list after the other. */
  function Gather(g: Grid, ps: seq<Point>): seq<Point>
    requires WellFormed(g) && forall i :: 0 <= i < |ps| ==> Interior(ps[i])
  {
    if ps == [] then []
    else NearestAvailablePoints(g, ps[0]) + Gather(g, ps[1..])
  }

  /** `Gather` holds exactly the available points adjacent to a point of `ps`. */
  lemma {:induction false} GatherFacts(g: Grid, ps: seq<Point>)
    requires WellFormed(g) && forall i :: 0 <= i < |ps| ==> Interior(ps[i])
    ensures forall q :: q in Gather(g, ps) ==> InBounds(q) && Available(At(g, q)) && exists p :: p in ps && Adjacent(p, q)
    ensures forall p, q :: p in ps && Adjacent(p, q) && InBounds(q) && Available(At(g, q)) ==> q in Gather(g, ps)
  {
    if ps != [] {
      var first := NearestAvailablePoints(g, ps[0]);
      var rest := Gather(g, ps[1..]);
      GatherFacts(g, ps[1..]);
      forall q | q in first + rest
        ensures InBounds(q) && Available(At(g, q)) && exists p :: p in ps && Adjacent(p, q)
      {
        if q in first {
          assert ps[0] in ps;
        } else {
          var p :| p in ps[1..] && Adjacent(p, q);
          assert p in ps;
        }
      }
      forall p, q | p in ps && Adjacent(p, q) && InBounds(q) && Available(At(g, q))
        ensures q in first + rest
      {
        if p != ps[0] {
          assert p in ps[1..];
        }
      }
    }
  }

  /** `getNearestAvailablePoints(list)`: the next wave, every available
      neighbour of the last one, each point once. */
  function NearestAvailablePointsOf(g: Grid, ps: seq<Point>): (r: seq<Point>)
    requires WellFormed(g) && forall i :: 0 <= i < |ps| ==> Interior(ps[i])
    ensures AllInBounds(r)
  {
    var r := Distinct(Gather(g, ps));
    GatherFacts(g, ps);
    DistinctFacts(Gather(g, ps));
    assert AllInBounds(r) by {
      forall i | 0 <= i < |r| ensures InBounds(r[i]) {
        assert r[i] in r;
      }
    }
    r
  }

  /** The next wave holds exactly the available neighbours of `ps`, each once. */
  lemma NextWaveFacts(g: Grid, ps: seq<Point>)
    requires WellFormed(g) && forall i :: 0 <= i < |ps| ==> Interior(ps[i])
    ensures var r := NearestAvailablePointsOf(g, ps);
      && AllInBounds(r) && NoDuplicates(r)
      && (forall q :: q in r ==> Available(At(g, q)) && exists p :: p in ps && Adjacent(p, q))
      && (forall p, q :: p in ps && Adjacent(p, q) && InBounds(q) && Available(At(g, q)) ==> q in r)
  {
    GatherFacts(g, ps);
    DistinctFacts(Gather(g, ps));
  }

  /** `getNearestPointWithMark`: the first neighbour of `p`, in the order of
      `Deltas`, that holds `mark`; fails with `MarkNotFound` when none does. */
  function NearestPointWithMark(g: Grid, p: Point, mark: int): (r: Result<Point>)
    requires WellFormed(g) && Interior(p)
    ensures r.Success? ==> Adjacent(p, r.value) && InBounds(r.value) && At(g, r.value) == mark
    ensures r.Failure? ==> r.error == MarkNotFound
  {
    var ns := Neighbours(p);
    if At(g, ns[0]) == mark then Success(ns[0])
    else if At(g, ns[1]) == mark then Success(ns[1])
    else if At(g, ns[2]) == mark then Success(ns[2])
    else if At(g, ns[3]) == mark then Success(ns[3])
    else Failure(MarkNotFound)
  }

  /** The neighbour found is the first in the order of `Deltas` with the mark,
      and the search fails exactly when no neighbour holds it. */
  lemma NearestPointWithMarkIsFirst(g: Grid, p: Point, mark: int)
    requires WellFormed(g) && Interior(p)
    ensures var r := NearestPointWithMark(g, p, mark);
      && (r.Success? ==> exists i :: (0 <= i < 4 && r.value == Neighbours(p)[i]
            && forall j :: 0 <= j < i ==> At(g, Neighbours(p)[j]) != mark))
      && (r.Failure? <==> forall q :: Adjacent(p, q) ==> At(g, q) != mark)
  {
    var ns := Neighbours(p);
    NeighboursAreAdjacent(p);
    assert forall q :: Adjacent(p, q) ==> exists i :: 0 <= i < 4 && q == ns[i];
  }

  /** The cells the search may still step on; it shrinks with every round that
      writes a mark other than 100, which is what ends the search. */
  ghost function AvailableSet(g: Grid): set<Point>
    requires WellFormed(g)
  {
    set x, y | 0 <= x < Dim && 0 <= y < Dim && Available(g[y][x]) :: Point(x, y)
  }

  lemma AvailableSetMembers(g: Grid)
    requires WellFormed(g)
    ensures forall q :: q in AvailableSet(g) <==> InBounds(q) && Available(At(g, q))
  {
    forall q | InBounds(q) && Available(At(g, q)) ensures q in AvailableSet(g) {
      assert q == Point(q.x, q.y);
    }
  }

  /** Writing `v` over available cells keeps them available when `v` is 100, and
      otherwise takes them out of the available set. */
  lemma MarkShrinks(g: Grid, ps: seq<Point>, v: int)
    requires WellFormed(g) && AllInBounds(ps)
    requires forall q :: q in ps ==> Available(At(g, q))
    ensures v == APPLE ==> AvailableSet(Paint(g, ps, v)) == AvailableSet(g)
    ensures !Available(v) && ps != [] ==> AvailableSet(Paint(g, ps, v)) < AvailableSet(g)
  {
    var h := Paint(g, ps, v);
    AvailableSetMembers(g);
    AvailableSetMembers(h);
    if !Available(v) && ps != [] {
      assert ps[0] in ps;
      assert ps[0] in AvailableSet(g) - AvailableSet(h);
    }
  }

  /** A cell that holds a mark, an apple or nothing is not on the border of a
      framed grid. */
  lemma NonNegativeIsInterior(g: Grid, q: Point)
    requires WellFormed(g) && Framed(g) && InBounds(q) && At(g, q) >= 0
    ensures Interior(q)
  {
    if !Interior(q) {
      assert OnBorder(q);
    }
  }

  /** How far the search loop still is from running out of cells: each round
      that marks something either takes cells out of the available set or, on
      round 100, uses up the one round whose mark leaves them available. */
  ghost function Progress(g: Grid, s: nat): nat
    requires WellFormed(g)
  {
    2 * |AvailableSet(g)| + if s < APPLE then 1 else 0
  }

  lemma PickFrom<T>(a: set<T>) returns (x: T)
    requires a != {}
    ensures x in a
  {
    x :| x in a;
  }

  lemma {:induction false} SubsetCard<T>(a: set<T>, b: set<T>)
    requires a <= b
    ensures |a| <= |b|
    decreases |b|
  {
    if a != {} {
      var x := PickFrom(a);
      SubsetCard(a - {x}, b - {x});
    }
  }

  lemma ProperSubsetCard<T>(a: set<T>, b: set<T>)
    requires a < b
    ensures |a| < |b|
  {
    var x := PickFrom(b - a);
    SubsetCard(a, b - {x});
  }

  /** A round that marks a non-empty wave brings the search closer to its end. */
  lemma MarkingProgresses(g: Grid, ps: seq<Point>, s: nat)
    requires WellFormed(g) && AllInBounds(ps) && ps != []
    requires forall q :: q in ps ==> Available(At(g, q))
    ensures Progress(Paint(g, ps, s + 1), s + 1) < Progress(g, s)
  {
    MarkShrinks(g, ps, s + 1);
    if s + 1 != APPLE {
      ProperSubsetCard(AvailableSet(Paint(g, ps, s + 1)), AvailableSet(g));
    }
  }

  /** Marking cells that are not negative keeps the border as it is. */
  lemma PaintKeepsFramed(g: Grid, ps: seq<Point>, v: int)
    requires WellFormed(g) && Framed(g) && AllInBounds(ps)
    requires forall q :: q in ps ==> At(g, q) >= 0
    ensures Framed(Paint(g, ps, v))
  {
  }

  /** The next wave holds available cells only, all of them off the border. */
  lemma WaveFacts(g: Grid, wave: seq<Point>)
    requires WellFormed(g) && Framed(g)
    requires forall i :: 0 <= i < |wave| ==> Interior(wave[i])
    ensures AllInBounds(NearestAvailablePointsOf(g, wave))
    ensures forall q :: q in NearestAvailablePointsOf(g, wave) ==> InBounds(q) && Available(At(g, q))
    ensures forall i :: 0 <= i < |NearestAvailablePointsOf(g, wave)| ==> Interior(NearestAvailablePointsOf(g, wave)[i])
  {
    var next := NearestAvailablePointsOf(g, wave);
    NextWaveFacts(g, wave);
    forall i | 0 <= i < |next| ensures Interior(next[i]) {
      assert next[i] in next;
      NonNegativeIsInterior(g, next[i]);
    }
  }

  /** What the loop of `getShortestRouteToTarget` ends with: the marked grid,
      whether the target was reached and the round counter `stepNo`. */
  datatype Search = Search(grid: Grid, found: bool, steps: nat)

  /** The rounds of `getShortestRouteToTarget` from the wave `wave`, after `s`
      marking rounds: the next wave is every available neighbour of this one;
      if it holds the target the search stops, otherwise the counter goes up,
      the new wave is marked with it and the search goes on unless it is empty. */
  function Rounds(g: Grid, wave: seq<Point>, s: nat, target: Point): (r: Search)
    requires WellFormed(g) && Framed(g)
    requires forall i :: 0 <= i < |wave| ==> Interior(wave[i])
    ensures WellFormed(r.grid) && Framed(r.grid)
    ensures r.steps >= s
    ensures r.found ==> InBounds(target) && Available(At(r.grid, target))
    decreases AvailableSet(g), if s < APPLE then 1 else 0
  {
    var next := NearestAvailablePointsOf(g, wave);
    WaveFacts(g, wave);
    if target in next then Search(g, true, s)
    else
      MarkShrinks(g, next, s + 1);
      PaintKeepsFramed(g, next, s + 1);
      var marked := Paint(g, next, s + 1);
      if next == [] then Search(marked, false, s + 1)
      else Rounds(marked, next, s + 1, target)
  }

  /** One pass of the search loop: the stop, or the marking and the next round. */
  lemma RoundsStep(g: Grid, wave: seq<Point>, s: nat, target: Point)
    requires WellFormed(g) && Framed(g)
    requires forall i :: 0 <= i < |wave| ==> Interior(wave[i])
    ensures var next := NearestAvailablePointsOf(g, wave);
      && (target in next ==> Rounds(g, wave, s, target) == Search(g, true, s))
      && (target !in next ==>
            var marked := Paint(g, next, s + 1);
            && (forall i :: 0 <= i < |next| ==> Interior(next[i]))
            && Framed(marked)
            && (next != [] && s + 1 != APPLE ==> AvailableSet(marked) < AvailableSet(g))
            && (s + 1 == APPLE ==> AvailableSet(marked) == AvailableSet(g))
            && (next == [] ==> marked == g && Rounds(g, wave, s, target) == Search(marked, false, s + 1))
            && (next != [] ==> Rounds(g, wave, s, target) == Rounds(marked, next, s + 1, target)))
  {
    var next := NearestAvailablePointsOf(g, wave);
    WaveFacts(g, wave);
    MarkShrinks(g, next, s + 1);
    PaintKeepsFramed(g, next, s + 1);
    if next == [] {
      GridsEqual(Paint(g, next, s + 1), g);
    }
  }

  /** `traceRouteToStart` from `route` with the counter at `k`: while `k` is
      positive, put the first neighbour of the route's head that holds mark `k`
      in front and count down; fails with `MarkNotFound` where no neighbour does. */
  function Trace(g: Grid, route: seq<Point>, k: nat): (r: Result<seq<Point>>)
    requires WellFormed(g) && Framed(g) && |route| >= 1 && Interior(route[0])
    ensures r.Success? ==> |r.value| == |route| + k
    decreases k
  {
    if k == 0 then Success(route)
    else
      var cursor := NearestPointWithMark(g, route[0], k);
      if cursor.Failure? then Failure(cursor.error)
      else
      var p := cursor.value;
      NonNegativeIsInterior(g, p);
      Trace(g, [p] + route, k - 1)
  }

  /** One pass of the trace loop. */
  lemma TraceStep(g: Grid, route: seq<Point>, k: nat)
    requires WellFormed(g) && Framed(g) && |route| >= 1 && Interior(route[0]) && k > 0
    ensures var cursor := NearestPointWithMark(g, route[0], k);
      && (cursor.Failure? ==> Trace(g, route, k) == Failure(cursor.error))
      && (cursor.Success? ==> Interior(cursor.value) && Trace(g, route, k) == Trace(g, [cursor.value] + route, k - 1))
  {
    var cursor := NearestPointWithMark(g, route[0], k);
    if cursor.Success? {
      NonNegativeIsInterior(g, cursor.value);
    }
  }

  /** The trace only ever puts cells in front: the route it started from is
      what follows its first `k` cells. */
  predicate EndsWith(r: Result<seq<Point>>, route: seq<Point>, k: nat)
  {
    r.Success? ==> k <= |r.value| && r.value[k..] == route
  }

  lemma {:induction false} TraceKeepsRoute(g: Grid, route: seq<Point>, k: nat)
    requires WellFormed(g) && Framed(g) && |route| >= 1 && Interior(route[0])
    ensures EndsWith(Trace(g, route, k), route, k)
    decreases k
  {
    if k > 0 {
      var cursor := NearestPointWithMark(g, route[0], k);
      TraceStep(g, route, k);
      if cursor.Success? {
        var longer := [cursor.value] + route;
        TraceKeepsRoute(g, longer, k - 1);
        var r := Trace(g, longer, k - 1);
        if r.Success? {
          assert r.value[k..] == r.value[k - 1..][1..];
        }
      }
    }
  }

  /** `getShortestRouteToTarget`: the search from `start`, then, when it reached
      the target, the route traced back from it; the empty route otherwise. */
  function ShortestRoute(g: Grid, start: Point, target: Point): (r: Result<seq<Point>>)
    requires WellFormed(g) && Framed(g) && Interior(start)
    ensures r.Success? && r.value != [] ==> r.value[|r.value| - 1] == target
  {
    var search := Rounds(g, [start], 0, target);
    if search.found then
      NonNegativeIsInterior(search.grid, target);
      TraceKeepsRoute(search.grid, [target], search.steps);
      Trace(search.grid, [target], search.steps)
    else Success([])
  }

  /** The search object: it works on, and marks, the board model it was given. */
  class LeeAlgorithm {
    const field: Field

    constructor (field: Field)
      ensures this.field == field
    {
      this.field := field;
    }

    /** `getShortestRouteToTarget`: runs the rounds on the board model, leaving
        their marks in it, and traces the route back when the target was reached. */
    method GetShortestRouteToTarget(start: Point, target: Point) returns (r: Result<seq<Point>>)
      requires field.Valid() && Framed(field.Grid()) && Interior(start)
      modifies field.cells
      ensures field.Valid()
      ensures field.Grid() == Rounds(old(field.Grid()), [start], 0, target).grid
      ensures r == ShortestRoute(old(field.Grid()), start, target)
    {
      var targetFound, stepNo := SearchRounds(start, target);
      var g := field.Grid();
      if targetFound {
        NonNegativeIsInterior(g, target);
        r := TraceRouteToStart(g, stepNo, target);
      } else {
        r := Success([]);
      }
    }

    /** The `while` loop of `getShortestRouteToTarget`: expands the wave and
        marks each new wave with the incremented counter until the target is
        in the wave or the wave is empty. */
    method SearchRounds(start: Point, target: Point) returns (targetFound: bool, stepNo: nat)
      requires field.Valid() && Framed(field.Grid()) && Interior(start)
      modifies field.cells
      ensures field.Valid()
      ensures var search := Rounds(old(field.Grid()), [start], 0, target);
        field.Grid() == search.grid && targetFound == search.found && stepNo == search.steps
    {
      ghost var search := Rounds(field.Grid(), [start], 0, target);
      var wave := [start];
      stepNo := 0;
      targetFound := false;
      ghost var current := field.Grid();
      while wave != []
        invariant field.Valid() && current == field.Grid() && Framed(current)
        invariant forall i :: 0 <= i < |wave| ==> Interior(wave[i])
        invariant wave != [] ==> !targetFound && Rounds(current, wave, stepNo, target) == search
        invariant wave == [] ==> search == Search(current, targetFound, stepNo)
        decreases Progress(current, stepNo), |wave|
      {
        RoundsStep(current, wave, stepNo, target);
        WaveFacts(current, wave);
        var upcoming := NearestAvailablePointsOf(current, wave);
        if target !in upcoming && upcoming != [] {
          MarkingProgresses(current, upcoming, stepNo);
        }
        var next, found := ExpandWave(wave, stepNo, target);
        if found {
          wave := [];
          targetFound := true;
        } else {
          stepNo := stepNo + 1;
          wave := next;
          current := field.Grid();
        }
      }
    }

    /** One pass of the loop: the next wave, and whether it holds the target;
        when it does not, the wave is marked with the incremented counter. */
    method ExpandWave(wave: seq<Point>, stepNo: nat, target: Point) returns (next: seq<Point>, found: bool)
      requires field.Valid() && forall i :: 0 <= i < |wave| ==> Interior(wave[i])
      modifies field.cells
      ensures field.Valid()
      ensures next == NearestAvailablePointsOf(old(field.Grid()), wave) && found == (target in next)
      ensures field.Grid() == if found then old(field.Grid()) else Paint(old(field.Grid()), next, stepNo + 1)
    {
      var g := field.Grid();
      next := NearestAvailablePointsOf(g, wave);
      found := target in next;
      if !found {
        field.SetAll(next, stepNo + 1);
      }
    }
  }

  /** `traceRouteToStart`: builds the route from the target back towards the
      start, one neighbour with the next lower mark at a time, reading the board
      as the search left it (`g`). */
  method TraceRouteToStart(g: Grid, steps: nat, target: Point) returns (r: Result<seq<Point>>)
    requires WellFormed(g) && Framed(g) && Interior(target)
    ensures r == Trace(g, [target], steps)
  {
    ghost var goal := Trace(g, [target], steps);
    var route := [target];
    var k := steps;
    while k > 0
      invariant |route| >= 1 && Interior(route[0])
      invariant Trace(g, route, k) == goal
    {
      var cursor := NearestPointWithMark(g, route[0], k);
      TraceStep(g, route, k);
      if cursor.Failure? {
        return Failure(cursor.error);
      }
      route := [cursor.value] + route;
      k := k - 1;
    }
    r := Success(route);
  }
}
