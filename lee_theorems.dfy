/** The promises of `getShortestRouteToTarget`, stated about `ShortestRoute`
    (what the method `LeeAlgorithm.GetShortestRouteToTarget` returns) and about
    the grid `Rounds` leaves behind (what the method leaves in the board model),
    for a search started on a board as `BoardModel` sets it up. */
module LeeTheorems {
  import opened Geometry
  import opened Failures
  import opened BoardModel
  import opened Lee
  import opened LeeProofs

  /** A board as the model sets it up before a search: markers only, a border
      the search cannot cross, and a start cell it cannot step on. */
  ghost predicate Ready(g0: Grid, start: Point)
  {
    WellFormed(g0) && Framed(g0) && Clean(g0) && StartOk(g0, start)
  }

  /** The search that reaches the target below round 100 leaves marks that
      lead back from the target to the start. */
  lemma SearchReaches(g0: Grid, start: Point, target: Point)
    requires Ready(g0, start)
    ensures FoundReached(g0, Rounds(g0, [start], 0, target), start, target)
  {
    InvInit(g0, start, target);
    RoundsFound(g0, g0, start, target, [start], 0);
  }

  /** The search from the start leaves every walk to the target longer than
      its round count, and no walk at all when it stops early without it. */
  lemma SearchBounds(g0: Grid, start: Point, target: Point)
    requires Ready(g0, start)
    ensures Bounded(g0, Rounds(g0, [start], 0, target), start, target)
  {
    InvInit(g0, start, target);
    RoundsBounded(g0, g0, start, target, [start], 0);
  }

  /** A cell marked by the search was available on the original board. */
  lemma MarkedWasAvailable(g0: Grid, h: Grid, k: nat, q: Point)
    requires WellFormed(g0) && WellFormed(h) && Clean(g0) && k < APPLE
    requires MarksOnGround(g0, h, k) && InBounds(q) && 1 <= At(h, q) <= k
    ensures Available(At(g0, q))
  {
  }

  /** `route` climbs the marks 1..k left by the search from a neighbour of
      the start and ends at the target: the shape of a traced route. */
  ghost predicate Walks(h: Grid, start: Point, target: Point, k: nat, route: seq<Point>)
    requires WellFormed(h)
  {
    |route| == k + 1 && route[k] == target && Chained(route) && Adjacent(start, route[0])
    && forall i :: 0 <= i < k ==> InBounds(route[i]) && At(h, route[i]) == i + 1
  }

  /** The trace back from a target the search reached succeeds and climbs the
      marks. */
  lemma TracedRoute(g0: Grid, h: Grid, start: Point, target: Point, k: nat) returns (route: seq<Point>)
    requires Reached(g0, h, start, target, k)
    ensures Interior(target)
    ensures Trace(h, [target], k) == Success(route) && Walks(h, start, target, k, route)
  {
    assert At(h, target) == At(g0, target);
    NonNegativeIsInterior(h, target);
    var n := target;
    if k >= 1 {
      n :| Adjacent(target, n) && InBounds(n) && At(h, n) == k;
    }
    TraceSucceeds(h, start, [target], k, k, n);
    TraceShape(h, start, [target], k, k, n);
    TraceChained(h, [target], k);
    TraceKeepsRoute(h, [target], k);
    route := Trace(h, [target], k).value;
    assert route[k] == route[k..][0];
  }

  /** A route of that shape is a walk over cells that were available. */
  lemma WalkIsPath(g0: Grid, h: Grid, start: Point, target: Point, k: nat, route: seq<Point>)
    requires Reached(g0, h, start, target, k) && Walks(h, start, target, k, route)
    ensures IsPath(g0, start, target, route)
  {
    forall i | 0 <= i < |route| ensures InBounds(route[i]) && Available(At(g0, route[i])) {
      if i < k {
        MarkedWasAvailable(g0, h, k, route[i]);
      }
    }
  }

  /** A route of that shape visits no cell twice: its cells carry the marks
      1, 2, ... in turn and the target carries none of them. */
  lemma WalkHasNoRepeats(g0: Grid, h: Grid, start: Point, target: Point, k: nat, route: seq<Point>)
    requires Reached(g0, h, start, target, k) && Walks(h, start, target, k, route)
    ensures NoDuplicates(route)
  {
    forall i, j | 0 <= i < j < |route| ensures route[i] != route[j] {
      assert At(h, route[i]) == i + 1;
      if j < k {
        assert At(h, route[j]) == j + 1;
      } else {
        assert route[j] == target;
      }
    }
  }

  /** The route of a search that reached the target. */
  lemma FoundRoute(g0: Grid, start: Point, target: Point) returns (h: Grid, k: nat, route: seq<Point>)
    requires Ready(g0, start)
    requires Rounds(g0, [start], 0, target).found && Rounds(g0, [start], 0, target).steps < APPLE
    ensures Reached(g0, h, start, target, k) && Walks(h, start, target, k, route)
    ensures ShortestRoute(g0, start, target) == Success(route) && k == Rounds(g0, [start], 0, target).steps
  {
    var search := Rounds(g0, [start], 0, target);
    SearchReaches(g0, start, target);
    h, k := search.grid, search.steps;
    route := TracedRoute(g0, h, start, target, k);
  }

  /** When the search finds the target below round 100, the route is a walk of
      cells that were empty or held an apple, from a neighbour of the start to
      the target, one cell per round; the start itself is not on it. */
  lemma RouteIsPath(g0: Grid, start: Point, target: Point)
    requires Ready(g0, start)
    requires Rounds(g0, [start], 0, target).found && Rounds(g0, [start], 0, target).steps < APPLE
    ensures ShortestRoute(g0, start, target).Success?
    ensures IsPath(g0, start, target, ShortestRoute(g0, start, target).value)
    ensures |ShortestRoute(g0, start, target).value| == Rounds(g0, [start], 0, target).steps + 1
    ensures start !in ShortestRoute(g0, start, target).value
  {
    var h, k, route := FoundRoute(g0, start, target);
    WalkIsPath(g0, h, start, target, k, route);
  }

  /** The route of a successful search visits no cell twice. */
  lemma RouteHasNoRepeats(g0: Grid, start: Point, target: Point)
    requires Ready(g0, start)
    requires Rounds(g0, [start], 0, target).found && Rounds(g0, [start], 0, target).steps < APPLE
    ensures ShortestRoute(g0, start, target).Success?
    ensures NoDuplicates(ShortestRoute(g0, start, target).value)
  {
    var h, k, route := FoundRoute(g0, start, target);
    WalkHasNoRepeats(g0, h, start, target, k, route);
  }

  /** No walk from the start to the target is shorter than the route the
      search returns. */
  lemma RouteIsShortest(g0: Grid, start: Point, target: Point, path: seq<Point>)
    requires Ready(g0, start)
    requires Rounds(g0, [start], 0, target).found && Rounds(g0, [start], 0, target).steps < APPLE
    requires IsPath(g0, start, target, path)
    ensures ShortestRoute(g0, start, target).Success?
    ensures |ShortestRoute(g0, start, target).value| <= |path|
  {
    SearchBounds(g0, start, target);
    RouteIsPath(g0, start, target);
  }

  /** When the search gives up below round 100 the route is empty, and then
      there is no walk from the start to the target at all. */
  lemma EmptyRouteMeansNoPath(g0: Grid, start: Point, target: Point, path: seq<Point>)
    requires Ready(g0, start)
    requires !Rounds(g0, [start], 0, target).found && Rounds(g0, [start], 0, target).steps < APPLE
    ensures ShortestRoute(g0, start, target) == Success([])
    ensures !IsPath(g0, start, target, path)
  {
    SearchBounds(g0, start, target);
  }

  /** Conversely, when there is no walk to the target and the search stops
      below round 100, the route is empty. */
  lemma NoPathEmptyRoute(g0: Grid, start: Point, target: Point)
    requires Ready(g0, start) && Rounds(g0, [start], 0, target).steps < APPLE
    requires forall path :: !IsPath(g0, start, target, path)
    ensures ShortestRoute(g0, start, target) == Success([])
  {
    if Rounds(g0, [start], 0, target).found {
      RouteIsPath(g0, start, target);
      assert false;
    }
  }

  /** Any walk of at most 100 cells is found: the search reaches the target
      and returns a walk no longer than that one. */
  lemma ShortPathIsFound(g0: Grid, start: Point, target: Point, path: seq<Point>)
    requires Ready(g0, start)
    requires IsPath(g0, start, target, path) && |path| <= APPLE
    ensures Rounds(g0, [start], 0, target).found
    ensures ShortestRoute(g0, start, target).Success?
    ensures IsPath(g0, start, target, ShortestRoute(g0, start, target).value)
    ensures |ShortestRoute(g0, start, target).value| <= |path|
  {
    SearchBounds(g0, start, target);
    var search := Rounds(g0, [start], 0, target);
    assert search.steps < APPLE;
    assert search.found;
    RouteIsPath(g0, start, target);
  }

  /** Every cell the search may not step on keeps its marker. */
  ghost predicate KeepsObstacles(g0: Grid, g: Grid)
    requires WellFormed(g0) && WellFormed(g)
  {
    forall q :: InBounds(q) && !Available(At(g0, q)) ==> At(g, q) == At(g0, q)
  }

  /** Marking cells that are available keeps the obstacles. */
  lemma PaintKeepsObstacles(g0: Grid, g: Grid, ps: seq<Point>, v: int)
    requires WellFormed(g0) && WellFormed(g) && KeepsObstacles(g0, g) && AllInBounds(ps)
    requires forall q :: q in ps ==> InBounds(q) && Available(At(g, q))
    ensures KeepsObstacles(g0, Paint(g, ps, v))
  {
  }

  /** The rounds only write over cells that are empty or hold an apple (or a
      mark 100, which reads as one), so walls, stones and the snake stay. */
  lemma {:induction false} RoundsKeepObstacles(g0: Grid, g: Grid, wave: seq<Point>, s: nat, target: Point)
    requires WellFormed(g0) && WellFormed(g) && Framed(g) && KeepsObstacles(g0, g)
    requires forall i :: 0 <= i < |wave| ==> Interior(wave[i])
    ensures KeepsObstacles(g0, Rounds(g, wave, s, target).grid)
    decreases Progress(g, s)
  {
    var next := NearestAvailablePointsOf(g, wave);
    RoundsStep(g, wave, s, target);
    if target !in next && next != [] {
      WaveFacts(g, wave);
      MarkingProgresses(g, next, s);
      PaintKeepsObstacles(g0, g, next, s + 1);
      RoundsKeepObstacles(g0, Paint(g, next, s + 1), next, s + 1, target);
    }
  }

  /** `getShortestRouteToTarget` leaves every obstacle of the board model where
      it was, whatever the outcome. */
  lemma SearchKeepsObstacles(g0: Grid, start: Point, target: Point)
    requires WellFormed(g0) && Framed(g0) && Interior(start)
    ensures KeepsObstacles(g0, Rounds(g0, [start], 0, target).grid)
  {
    RoundsKeepObstacles(g0, g0, [start], 0, target);
  }
}
