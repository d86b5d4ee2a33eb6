/** What the wave search promises, proved about the functions `Rounds`, `Trace`
    and `ShortestRoute` of the module `Lee`: the route it returns is a walk over
    cells that were empty or held an apple, from a neighbour of the start to the
    target; no such walk is shorter; an empty result means that no walk exists;
    and cells that were not available are never written.

    The proofs assume what a game board gives the search: a grid that holds only
    the markers `setEnvironment` and `setSnake` write (no marks yet), a start
    cell that is not available (the snake's head), and a search that stays
    below round 100, where the marks would start to look like apples. */
module LeeProofs {
  import opened Geometry
  import opened Failures
  import opened BoardModel
  import opened Lee

  /** A walk of available cells from a neighbour of `start` to `target`: what a
      route is. Its length is the number of moves from `start` to `target`. */
  ghost predicate IsPath(g0: Grid, start: Point, target: Point, path: seq<Point>)
    requires WellFormed(g0)
  {
    |path| >= 1 && Adjacent(start, path[0]) && Chained(path) && path[|path| - 1] == target
    && forall i :: 0 <= i < |path| ==> InBounds(path[i]) && Available(At(g0, path[i]))
  }

  /** The search starts from a cell inside the frame that it cannot step on. */
  ghost predicate StartOk(g0: Grid, start: Point)
  {
    WellFormed(g0) && Interior(start) && !Available(At(g0, start))
  }

  /** By round `s` every cell holds either its original marker, or a mark in
      1..s written over a cell that was available. */
  ghost predicate MarksOnGround(g0: Grid, g: Grid, s: nat)
    requires WellFormed(g0) && WellFormed(g)
  {
    forall q :: InBounds(q) ==> At(g, q) == At(g0, q) || (Available(At(g0, q)) && 1 <= At(g, q) <= s)
  }

  /** The wave of round `s` is the start in round 0, and after that exactly the
      cells marked `s`. */
  ghost predicate WaveIsLayer(g: Grid, start: Point, wave: seq<Point>, s: nat)
    requires WellFormed(g)
  {
    (s == 0 ==> wave == [start])
    && (s >= 1 ==>
          (forall q :: q in wave ==> InBounds(q) && At(g, q) == s)
          && (forall q :: InBounds(q) && At(g, q) == s ==> q in wave))
  }

  /** The marked cell `q` steps down towards the start: a cell marked 1 is next
      to the start, a cell marked m >= 2 has a neighbour marked m - 1. */
  ghost predicate Descends(g: Grid, start: Point, q: Point)
    requires WellFormed(g) && InBounds(q)
  {
    if At(g, q) == 1 then Adjacent(start, q)
    else exists n :: Adjacent(q, n) && InBounds(n) && At(g, n) == At(g, q) - 1
  }

  /** Every cell marked 1..s steps down towards the start, so the trace back can
      follow the marks. (The trigger keeps the solver from chasing neighbours of
      neighbours.) */
  ghost predicate LayersDescend(g: Grid, start: Point, s: nat)
    requires WellFormed(g)
  {
    forall q {:trigger Descends(g, start, q)} :: InBounds(q) && 1 <= At(g, q) <= s ==> Descends(g, start, q)
  }

  /** Every available neighbour of a cell marked below `s` is marked, at most one
      more; the available neighbours of the start are marked 1. */
  ghost predicate LayersClosed(g0: Grid, g: Grid, start: Point, s: nat)
    requires WellFormed(g0) && WellFormed(g)
  {
    (forall q, n {:trigger Adjacent(q, n)} :: InBounds(q) && 1 <= At(g, q) < s && Adjacent(q, n) && InBounds(n) && Available(At(g0, n))
      ==> 1 <= At(g, n) <= At(g, q) + 1)
    && (s >= 1 ==> forall n :: Adjacent(start, n) && InBounds(n) && Available(At(g0, n)) ==> At(g, n) == 1)
  }

  /** The target has not been marked. */
  ghost predicate TargetUnmarked(g: Grid, target: Point, s: nat)
    requires WellFormed(g)
  {
    InBounds(target) ==> !(1 <= At(g, target) <= s)
  }

  /** What holds at the start of every round below round 100. */
  ghost predicate Inv(g0: Grid, g: Grid, start: Point, target: Point, wave: seq<Point>, s: nat)
  {
    Settled(g0, g, start, wave, s) && Layered(g0, g, start, target, wave, s)
  }

  /** The grids, the start and the wave are in shape. */
  ghost predicate Settled(g0: Grid, g: Grid, start: Point, wave: seq<Point>, s: nat)
  {
    WellFormed(g0) && WellFormed(g) && Clean(g0) && Framed(g) && StartOk(g0, start) && s < APPLE
    && (forall i :: 0 <= i < |wave| ==> Interior(wave[i]))
  }

  /** The marks of the first `s` rounds. */
  ghost predicate Layered(g0: Grid, g: Grid, start: Point, target: Point, wave: seq<Point>, s: nat)
    requires WellFormed(g0) && WellFormed(g)
  {
    MarksOnGround(g0, g, s) && WaveIsLayer(g, start, wave, s)
    && LayersDescend(g, start, s) && LayersClosed(g0, g, start, s) && TargetUnmarked(g, target, s)
  }

  /** `next` is the wave that follows `wave` on `g`: available cells off the
      border next to the wave, and every available neighbour of the wave. */
  ghost predicate IsNextWave(g: Grid, wave: seq<Point>, next: seq<Point>)
    requires WellFormed(g)
  {
    (forall i :: 0 <= i < |next| ==> Interior(next[i]))
    && (forall q :: q in next ==> InBounds(q) && Available(At(g, q)) && exists p :: p in wave && Adjacent(p, q))
    && (forall p, q {:trigger Adjacent(p, q)} :: p in wave && Adjacent(p, q) && InBounds(q) && Available(At(g, q)) ==> q in next)
  }

  /** `h` is `g` with the cells of `next` marked `v` and nothing else changed. */
  ghost predicate IsMarking(g: Grid, h: Grid, next: seq<Point>, v: int)
  {
    WellFormed(g) && WellFormed(h)
    && (forall q :: q in next ==> InBounds(q) && At(h, q) == v)
    && (forall q :: InBounds(q) && q !in next ==> At(h, q) == At(g, q))
  }

  /** One round of `Rounds`, described by the two predicates above. */
  lemma RoundFacts(g: Grid, wave: seq<Point>, v: int)
    requires WellFormed(g) && Framed(g) && forall i :: 0 <= i < |wave| ==> Interior(wave[i])
    ensures var next := NearestAvailablePointsOf(g, wave);
      && IsNextWave(g, wave, next)
      && IsMarking(g, Paint(g, next, v), next, v)
      && Framed(Paint(g, next, v))
  {
    var next := NearestAvailablePointsOf(g, wave);
    NextWaveFacts(g, wave);
    WaveFacts(g, wave);
    PaintKeepsFramed(g, next, v);
  }

  /** Before the first round. */
  lemma InvInit(g0: Grid, start: Point, target: Point)
    requires WellFormed(g0) && Framed(g0) && Clean(g0) && StartOk(g0, start)
    ensures Inv(g0, g0, start, target, [start], 0)
  {
  }

  /** The cells of the next wave were unmarked and available from the beginning. */
  lemma NextWaveFresh(g0: Grid, g: Grid, start: Point, target: Point, wave: seq<Point>, s: nat, next: seq<Point>)
    requires Inv(g0, g, start, target, wave, s) && IsNextWave(g, wave, next)
    ensures forall q :: q in next ==> InBounds(q) && At(g, q) == At(g0, q) && Available(At(g0, q))
  {
  }

  lemma StepMarks(g0: Grid, g: Grid, h: Grid, start: Point, target: Point, wave: seq<Point>, s: nat, next: seq<Point>)
    requires Inv(g0, g, start, target, wave, s) && IsNextWave(g, wave, next) && IsMarking(g, h, next, s + 1)
    ensures MarksOnGround(g0, h, s + 1)
  {
    NextWaveFresh(g0, g, start, target, wave, s, next);
  }

  lemma StepWave(g0: Grid, g: Grid, h: Grid, start: Point, target: Point, wave: seq<Point>, s: nat, next: seq<Point>)
    requires Inv(g0, g, start, target, wave, s) && IsNextWave(g, wave, next) && IsMarking(g, h, next, s + 1)
    requires s + 1 < APPLE
    ensures WaveIsLayer(h, start, next, s + 1)
  {
  }

  /** A cell the round marks steps down to the wave it grew from. */
  lemma DescendFromNew(g: Grid, h: Grid, start: Point, wave: seq<Point>, next: seq<Point>, s: nat, q: Point)
    requires WellFormed(g) && WellFormed(h) && s + 1 < APPLE
    requires WaveIsLayer(g, start, wave, s)
    requires forall p :: p in next ==> InBounds(p) && Available(At(g, p))
    requires forall p :: InBounds(p) && p !in next ==> At(h, p) == At(g, p)
    requires q in next && InBounds(q) && At(h, q) == s + 1 && exists p :: p in wave && Adjacent(p, q)
    ensures Descends(h, start, q)
  {
    var p :| p in wave && Adjacent(p, q);
    if s == 0 {
      assert p == start;
    } else {
      assert p !in next;
      assert Adjacent(q, p) && InBounds(p) && At(h, p) == At(h, q) - 1;
    }
  }

  /** A cell marked before the round keeps the way down it had. */
  lemma DescendFromOld(g0: Grid, g: Grid, h: Grid, start: Point, next: seq<Point>, s: nat, q: Point)
    requires WellFormed(g0) && WellFormed(g) && WellFormed(h) && Clean(g0) && s + 1 < APPLE
    requires MarksOnGround(g0, g, s) && LayersDescend(g, start, s)
    requires forall p :: p in next ==> InBounds(p) && Available(At(g, p))
    requires forall p :: InBounds(p) && p !in next ==> At(h, p) == At(g, p)
    requires InBounds(q) && q !in next && 1 <= At(h, q) <= s + 1
    ensures Descends(h, start, q)
  {
    assert 1 <= At(g, q) <= s && Descends(g, start, q);
    if At(g, q) != 1 {
      var n :| Adjacent(q, n) && InBounds(n) && At(g, n) == At(g, q) - 1;
      assert n !in next;
    }
  }

  lemma StepDescend(g0: Grid, g: Grid, h: Grid, start: Point, target: Point, wave: seq<Point>, s: nat, next: seq<Point>)
    requires Inv(g0, g, start, target, wave, s) && IsNextWave(g, wave, next) && IsMarking(g, h, next, s + 1)
    requires s + 1 < APPLE
    ensures LayersDescend(h, start, s + 1)
  {
    forall q | InBounds(q) && 1 <= At(h, q) <= s + 1
      ensures Descends(h, start, q)
    {
      if q in next {
        DescendFromNew(g, h, start, wave, next, s, q);
      } else {
        DescendFromOld(g0, g, h, start, next, s, q);
      }
    }
  }

  /** An available neighbour of a marked cell is marked at most one higher. */
  lemma ClosedAt(g0: Grid, g: Grid, h: Grid, start: Point, wave: seq<Point>, next: seq<Point>, s: nat, q: Point, n: Point)
    requires WellFormed(g0) && WellFormed(g) && WellFormed(h) && s + 1 < APPLE
    requires MarksOnGround(g0, g, s) && LayersClosed(g0, g, start, s) && WaveIsLayer(g, start, wave, s)
    requires forall p :: p in next ==> InBounds(p) && At(h, p) == s + 1 && Available(At(g, p))
    requires forall p, r {:trigger Adjacent(p, r)} :: p in wave && Adjacent(p, r) && InBounds(r) && Available(At(g, r)) ==> r in next
    requires forall p :: InBounds(p) && p !in next ==> At(h, p) == At(g, p)
    requires InBounds(q) && 1 <= At(h, q) < s + 1 && Adjacent(q, n) && InBounds(n) && Available(At(g0, n))
    ensures 1 <= At(h, n) <= At(h, q) + 1
  {
    assert q !in next;
    if At(g, q) < s {
      assert n !in next;
    } else {
      assert q in wave;
      if At(g, n) == At(g0, n) {
        assert n in next;
      }
    }
  }

  lemma StepClosed(g0: Grid, g: Grid, h: Grid, start: Point, target: Point, wave: seq<Point>, s: nat, next: seq<Point>)
    requires Inv(g0, g, start, target, wave, s) && IsNextWave(g, wave, next) && IsMarking(g, h, next, s + 1)
    requires s + 1 < APPLE
    ensures LayersClosed(g0, h, start, s + 1)
  {
    forall q, n | InBounds(q) && 1 <= At(h, q) < s + 1 && Adjacent(q, n) && InBounds(n) && Available(At(g0, n))
      ensures 1 <= At(h, n) <= At(h, q) + 1
    {
      ClosedAt(g0, g, h, start, wave, next, s, q, n);
    }
    forall n | Adjacent(start, n) && InBounds(n) && Available(At(g0, n))
      ensures At(h, n) == 1
    {
      if s == 0 {
        assert start in wave;
        assert n in next;
      }
    }
  }

  lemma StepTarget(g0: Grid, g: Grid, h: Grid, start: Point, target: Point, wave: seq<Point>, s: nat, next: seq<Point>)
    requires Inv(g0, g, start, target, wave, s) && IsNextWave(g, wave, next) && IsMarking(g, h, next, s + 1)
    requires s + 1 < APPLE && target !in next
    ensures TargetUnmarked(h, target, s + 1)
  {
  }

  /** A round that does not reach the target keeps the invariant. */
  lemma InvStep(g0: Grid, g: Grid, h: Grid, start: Point, target: Point, wave: seq<Point>, s: nat, next: seq<Point>)
    requires Inv(g0, g, start, target, wave, s) && IsNextWave(g, wave, next) && IsMarking(g, h, next, s + 1)
    requires Framed(h) && s + 1 < APPLE && target !in next
    ensures Inv(g0, h, start, target, next, s + 1)
  {
    StepMarks(g0, g, h, start, target, wave, s, next);
    StepWave(g0, g, h, start, target, wave, s, next);
    StepDescend(g0, g, h, start, target, wave, s, next);
    StepClosed(g0, g, h, start, target, wave, s, next);
    StepTarget(g0, g, h, start, target, wave, s, next);
  }

  /** The i-th cell of a walk is marked by round i + 1 at the latest. */
  lemma {:induction false} PathMarked(g0: Grid, g: Grid, start: Point, target: Point, wave: seq<Point>, s: nat,
                                      path: seq<Point>, i: nat)
    requires Inv(g0, g, start, target, wave, s) && IsPath(g0, start, target, path)
    requires i < |path| && i < s
    ensures 1 <= At(g, path[i]) <= i + 1
  {
    if i > 0 {
      PathMarked(g0, g, start, target, wave, s, path, i - 1);
      assert Adjacent(path[i - 1], path[i]);
    }
  }

  /** A walk to the unmarked target has more than `s` cells. */
  lemma PathLongerThanRounds(g0: Grid, g: Grid, start: Point, target: Point, wave: seq<Point>, s: nat,
                             path: seq<Point>)
    requires Inv(g0, g, start, target, wave, s) && IsPath(g0, start, target, path)
    ensures |path| > s
  {
    if |path| <= s {
      PathMarked(g0, g, start, target, wave, s, path, |path| - 1);
    }
  }

  /** Every walk is longer than `s` cells. */
  lemma PathsLongerThanRounds(g0: Grid, g: Grid, start: Point, target: Point, wave: seq<Point>, s: nat)
    requires Inv(g0, g, start, target, wave, s)
    ensures forall path :: IsPath(g0, start, target, path) ==> |path| > s
  {
    forall path | IsPath(g0, start, target, path)
      ensures |path| > s
    {
      PathLongerThanRounds(g0, g, start, target, wave, s, path);
    }
  }

  /** A walk of exactly `s + 1` cells ends in the next wave. */
  lemma TargetInNextWave(g0: Grid, g: Grid, start: Point, target: Point, wave: seq<Point>, s: nat,
                         next: seq<Point>, path: seq<Point>)
    requires Inv(g0, g, start, target, wave, s) && IsNextWave(g, wave, next)
    requires IsPath(g0, start, target, path) && |path| == s + 1
    ensures target in next
  {
    assert InBounds(target) && Available(At(g0, target));
    if s == 0 {
      assert start in wave && Adjacent(start, target);
    } else {
      var before := path[s - 1];
      PathMarked(g0, g, start, target, wave, s, path, s - 1);
      assert Adjacent(before, target);
      assert before in wave;
    }
  }

  /** A round that misses the target leaves every walk longer than `s + 1` cells. */
  lemma PathsLongerThanNextRound(g0: Grid, g: Grid, start: Point, target: Point, wave: seq<Point>, s: nat,
                                 next: seq<Point>)
    requires Inv(g0, g, start, target, wave, s) && IsNextWave(g, wave, next) && target !in next
    ensures forall path :: IsPath(g0, start, target, path) ==> |path| > s + 1
  {
    forall path | IsPath(g0, start, target, path)
      ensures |path| > s + 1
    {
      PathLongerThanRounds(g0, g, start, target, wave, s, path);
      if |path| == s + 1 {
        TargetInNextWave(g0, g, start, target, wave, s, next, path);
      }
    }
  }

  /** Walking along a path, either some cell so far lies in the next wave or
      every cell so far is already marked. */
  lemma {:induction false} ExhaustedMarks(g0: Grid, g: Grid, start: Point, target: Point, wave: seq<Point>, s: nat,
                                          next: seq<Point>, path: seq<Point>, i: nat)
    requires Inv(g0, g, start, target, wave, s) && IsNextWave(g, wave, next)
    requires IsPath(g0, start, target, path) && i < |path|
    ensures (exists j :: 0 <= j <= i && path[j] in next) || 1 <= At(g, path[i]) <= s
  {
    if i == 0 {
      if s == 0 {
        assert start in wave && Adjacent(start, path[0]);
        assert path[0] in next;
      }
    } else {
      ExhaustedMarks(g0, g, start, target, wave, s, next, path, i - 1);
      var q, n := path[i - 1], path[i];
      assert Adjacent(q, n);
      if 1 <= At(g, q) <= s && !(1 <= At(g, n) <= s) {
        if At(g, q) == s {
          assert q in wave;
          assert n in next;
        }
      }
    }
  }

  /** When the next wave is empty, no walk reaches the unmarked target. */
  lemma Exhausted(g0: Grid, g: Grid, start: Point, target: Point, wave: seq<Point>, s: nat, next: seq<Point>)
    requires Inv(g0, g, start, target, wave, s) && IsNextWave(g, wave, next) && next == []
    ensures forall path :: !IsPath(g0, start, target, path)
  {
    forall path | IsPath(g0, start, target, path)
      ensures false
    {
      ExhaustedMarks(g0, g, start, target, wave, s, next, path, |path| - 1);
    }
  }

  /** The marks the search leaves when it reaches the target in round `k`:
      what the trace back needs. */
  ghost predicate Reached(g0: Grid, h: Grid, start: Point, target: Point, k: nat)
  {
    WellFormed(g0) && WellFormed(h) && Framed(h) && Clean(g0) && k < APPLE
    && MarksOnGround(g0, h, k) && LayersDescend(h, start, k)
    && InBounds(target) && Available(At(g0, target)) && TargetUnmarked(h, target, k)
    && (k == 0 ==> Adjacent(start, target))
    && (k >= 1 ==> exists n :: Adjacent(target, n) && InBounds(n) && At(h, n) == k)
  }

  /** The target found in the next wave is a neighbour of the start or of a
      cell marked `s`, and it was available from the beginning. */
  lemma FoundNeighbour(g0: Grid, g: Grid, start: Point, target: Point, wave: seq<Point>, s: nat, next: seq<Point>)
    requires WellFormed(g0) && WellFormed(g) && IsNextWave(g, wave, next)
    requires MarksOnGround(g0, g, s) && WaveIsLayer(g, start, wave, s) && TargetUnmarked(g, target, s)
    requires target in next
    ensures InBounds(target) && Available(At(g0, target))
    ensures s == 0 ==> Adjacent(start, target)
    ensures s >= 1 ==> exists n :: Adjacent(target, n) && InBounds(n) && At(g, n) == s
  {
    var p :| p in wave && Adjacent(p, target);
    if s == 0 {
      assert p == start;
    } else {
      assert Adjacent(target, p) && InBounds(p) && At(g, p) == s;
    }
  }

  /** The round that finds the target leaves the marks `Reached` describes. */
  lemma FoundHere(g0: Grid, g: Grid, start: Point, target: Point, wave: seq<Point>, s: nat, next: seq<Point>)
    requires Inv(g0, g, start, target, wave, s) && IsNextWave(g, wave, next) && target in next
    ensures Reached(g0, g, start, target, s)
  {
    FoundNeighbour(g0, g, start, target, wave, s, next);
  }

  /** A round that misses the target but finds new cells hands over to the
      rounds from the next wave. */
  lemma RoundsGoOn(g: Grid, wave: seq<Point>, s: nat, target: Point, next: seq<Point>, h: Grid)
    requires WellFormed(g) && Framed(g) && forall i :: 0 <= i < |wave| ==> Interior(wave[i])
    requires next == NearestAvailablePointsOf(g, wave) && target !in next && next != []
    requires h == Paint(g, next, s + 1) && WellFormed(h) && Framed(h)
    requires forall i :: 0 <= i < |next| ==> Interior(next[i])
    ensures Rounds(g, wave, s, target) == Rounds(h, next, s + 1, target)
  {
    RoundsStep(g, wave, s, target);
  }

  /** A round that misses the target but finds new cells keeps the invariant
      and hands over to the rounds from the next wave. */
  lemma AdvanceRound(g0: Grid, g: Grid, start: Point, target: Point, wave: seq<Point>, s: nat)
      returns (h: Grid, next: seq<Point>)
    requires Inv(g0, g, start, target, wave, s) && s + 1 < APPLE
    requires var next := NearestAvailablePointsOf(g, wave); target !in next && next != []
    ensures next == NearestAvailablePointsOf(g, wave) && h == Paint(g, next, s + 1)
    ensures Inv(g0, h, start, target, next, s + 1)
    ensures Rounds(g, wave, s, target) == Rounds(h, next, s + 1, target)
  {
    next := NearestAvailablePointsOf(g, wave);
    h := Paint(g, next, s + 1);
    RoundFacts(g, wave, s + 1);
    RoundsGoOn(g, wave, s, target, next, h);
    InvStep(g0, g, h, start, target, wave, s, next);
  }

  /** The round that finds the target ends the search. */
  lemma RoundsHit(g: Grid, wave: seq<Point>, s: nat, target: Point)
    requires WellFormed(g) && Framed(g) && forall i :: 0 <= i < |wave| ==> Interior(wave[i])
    requires target in NearestAvailablePointsOf(g, wave)
    ensures Rounds(g, wave, s, target) == Search(g, true, s)
  {
  }

  /** The round that finds neither the target nor new cells ends the search. */
  lemma RoundsMiss(g: Grid, wave: seq<Point>, s: nat, target: Point)
    requires WellFormed(g) && Framed(g) && forall i :: 0 <= i < |wave| ==> Interior(wave[i])
    requires NearestAvailablePointsOf(g, wave) == []
    ensures !Rounds(g, wave, s, target).found
  {
  }

  /** A search that reports the target found below round 100 left the marks
      `Reached` describes. */
  ghost predicate FoundReached(g0: Grid, r: Search, start: Point, target: Point)
  {
    r.found && r.steps < APPLE ==> Reached(g0, r.grid, start, target, r.steps)
  }

  /** Rounds from a state that keeps the invariant: a target found below round
      100 is `Reached`. */
  lemma {:induction false} RoundsFound(g0: Grid, g: Grid, start: Point, target: Point, wave: seq<Point>, s: nat)
    requires Inv(g0, g, start, target, wave, s)
    ensures FoundReached(g0, Rounds(g, wave, s, target), start, target)
    decreases APPLE - s
  {
    var next := NearestAvailablePointsOf(g, wave);
    if target in next {
      RoundFacts(g, wave, s + 1);
      RoundsHit(g, wave, s, target);
      FoundHere(g0, g, start, target, wave, s, next);
    } else if next == [] {
      RoundsMiss(g, wave, s, target);
    } else if s + 1 < APPLE {
      var h, next' := AdvanceRound(g0, g, start, target, wave, s);
      RoundsFound(g0, h, start, target, next', s + 1);
    }
  }

  /** Every walk from `start` to `target` has more than `m` cells. */
  ghost predicate LongerThan(g0: Grid, start: Point, target: Point, m: nat)
    requires WellFormed(g0)
  {
    forall path :: IsPath(g0, start, target, path) ==> |path| > m
  }

  /** What a search that ends in round `r.steps` says about the walks: none has
      `r.steps` cells or fewer (none has 100 or fewer once the rounds reach 100),
      and a search that stops below round 100 without the target leaves none. */
  ghost predicate Bounded(g0: Grid, r: Search, start: Point, target: Point)
    requires WellFormed(g0)
  {
    LongerThan(g0, start, target, if r.steps < APPLE then r.steps else APPLE)
    && (!r.found && r.steps < APPLE ==> forall path :: !IsPath(g0, start, target, path))
  }

  /** Rounds from a state that keeps the invariant end `Bounded`. */
  lemma {:induction false} RoundsBounded(g0: Grid, g: Grid, start: Point, target: Point, wave: seq<Point>, s: nat)
    requires Inv(g0, g, start, target, wave, s)
    ensures Bounded(g0, Rounds(g, wave, s, target), start, target)
    decreases APPLE - s
  {
    var next := NearestAvailablePointsOf(g, wave);
    RoundFacts(g, wave, s + 1);
    if target in next {
      RoundsHit(g, wave, s, target);
      PathsLongerThanRounds(g0, g, start, target, wave, s);
    } else if next == [] {
      RoundsMiss(g, wave, s, target);
      Exhausted(g0, g, start, target, wave, s, next);
    } else if s + 1 < APPLE {
      var h, next' := AdvanceRound(g0, g, start, target, wave, s);
      RoundsBounded(g0, h, start, target, next', s + 1);
    } else {
      RoundsGoOn(g, wave, s, target, next, Paint(g, next, s + 1));
      PathsLongerThanNextRound(g0, g, start, target, wave, s, next);
    }
  }


  /** The trace back can go on from the head of `route` at mark `k`: the
      neighbour `n` holds the mark, or, at `k` = 0, the head is next to the
      start. */
  ghost predicate CanTrace(h: Grid, start: Point, route: seq<Point>, k: nat, n: Point)
    requires WellFormed(h) && |route| >= 1
  {
    (k >= 1 ==> Adjacent(route[0], n) && InBounds(n) && At(h, n) == k)
    && (k == 0 ==> Adjacent(start, route[0]))
  }

  /** One step of the trace where a neighbour of the route's head holds the
      mark: the trace puts such a neighbour in front. */
  lemma TraceStepFound(h: Grid, route: seq<Point>, k: nat, n: Point) returns (p: Point)
    requires WellFormed(h) && Framed(h) && |route| >= 1 && Interior(route[0]) && k >= 1
    requires Adjacent(route[0], n) && InBounds(n) && At(h, n) == k
    ensures Adjacent(route[0], p) && Interior(p) && At(h, p) == k
    ensures Trace(h, route, k) == Trace(h, [p] + route, k - 1)
  {
    var cursor := NearestPointWithMark(h, route[0], k);
    NearestPointWithMarkIsFirst(h, route[0], k);
    TraceStep(h, route, k);
    p := cursor.value;
  }

  /** The cell marked `k` that the trace steps to can be traced on from. */
  lemma CanTraceOn(h: Grid, start: Point, route: seq<Point>, k: nat, top: nat, p: Point) returns (n: Point)
    requires WellFormed(h) && |route| >= 1 && 1 <= k <= top && LayersDescend(h, start, top)
    requires InBounds(p) && At(h, p) == k
    ensures CanTrace(h, start, [p] + route, k - 1, n)
  {
    assert Descends(h, start, p);
    if k >= 2 {
      n :| Adjacent(p, n) && InBounds(n) && At(h, n) == k - 1;
    } else {
      n := p;
    }
  }

  /** The trace back over marks that descend to the start never fails. */
  lemma {:induction false} TraceSucceeds(h: Grid, start: Point, route: seq<Point>, k: nat, top: nat, n: Point)
    requires WellFormed(h) && Framed(h) && |route| >= 1 && Interior(route[0])
    requires k <= top && LayersDescend(h, start, top) && CanTrace(h, start, route, k, n)
    ensures Trace(h, route, k).Success?
    decreases k
  {
    if k >= 1 {
      var p, n' := SucceedStep(h, start, route, k, top, n);
      TraceSucceeds(h, start, [p] + route, k - 1, top, n');
    }
  }

  /** One step of `TraceSucceeds`: the cell the trace puts in front, from which
      it can go on, and whose success is the trace's success. */
  lemma SucceedStep(h: Grid, start: Point, route: seq<Point>, k: nat, top: nat, n: Point) returns (p: Point, n': Point)
    requires WellFormed(h) && Framed(h) && |route| >= 1 && Interior(route[0]) && 1 <= k <= top
    requires LayersDescend(h, start, top) && CanTrace(h, start, route, k, n)
    ensures Interior(p) && CanTrace(h, start, [p] + route, k - 1, n')
    ensures Trace(h, [p] + route, k - 1).Success? ==> Trace(h, route, k).Success?
  {
    p := TraceStepFound(h, route, k, n);
    n' := CanTraceOn(h, start, route, k, top, p);
  }

  /** A trace back that succeeded, whose first `k` cells are the cells marked
      1 to `k` in that order, after a neighbour of `start`. */
  ghost predicate Climbs(h: Grid, start: Point, r: Result<seq<Point>>, k: nat)
    requires WellFormed(h)
  {
    r.Success? && k < |r.value| && Adjacent(start, r.value[0])
    && forall i :: 0 <= i < k ==> InBounds(r.value[i]) && At(h, r.value[i]) == i + 1
  }

  /** The trace back over marks that descend to the start puts the cell marked
      i + 1 at position i and starts next to `start`. */
  lemma {:induction false} TraceShape(h: Grid, start: Point, route: seq<Point>, k: nat, top: nat, n: Point)
    requires WellFormed(h) && Framed(h) && |route| >= 1 && Interior(route[0])
    requires k <= top && LayersDescend(h, start, top) && CanTrace(h, start, route, k, n)
    requires Trace(h, route, k).Success?
    ensures Climbs(h, start, Trace(h, route, k), k)
    decreases k
  {
    if k >= 1 {
      var p, n' := ShapeStep(h, start, route, k, top, n);
      TraceShape(h, start, [p] + route, k - 1, top, n');
    }
  }

  /** One step of `TraceShape`: the cell the trace puts in front, from which it
      can go on, and the climb it then completes. */
  lemma ShapeStep(h: Grid, start: Point, route: seq<Point>, k: nat, top: nat, n: Point) returns (p: Point, n': Point)
    requires WellFormed(h) && Framed(h) && |route| >= 1 && Interior(route[0]) && 1 <= k <= top
    requires LayersDescend(h, start, top) && CanTrace(h, start, route, k, n)
    requires Trace(h, route, k).Success?
    ensures Interior(p) && CanTrace(h, start, [p] + route, k - 1, n') && Trace(h, [p] + route, k - 1).Success?
    ensures Climbs(h, start, Trace(h, [p] + route, k - 1), k - 1) ==> Climbs(h, start, Trace(h, route, k), k)
  {
    p := TraceStepFound(h, route, k, n);
    n' := CanTraceOn(h, start, route, k, top, p);
    if Climbs(h, start, Trace(h, [p] + route, k - 1), k - 1) {
      ClimbsStep(h, start, route, k, p);
    }
  }

  /** A trace from `p`, marked `k`, that climbs to mark `k - 1` climbs to
      mark `k`: `p` comes right after the cells it put in front. */
  lemma ClimbsStep(h: Grid, start: Point, route: seq<Point>, k: nat, p: Point)
    requires WellFormed(h) && Framed(h) && |route| >= 1 && Interior(p) && k >= 1 && At(h, p) == k
    requires Interior(route[0]) && Trace(h, route, k) == Trace(h, [p] + route, k - 1)
    requires Climbs(h, start, Trace(h, [p] + route, k - 1), k - 1)
    ensures Climbs(h, start, Trace(h, route, k), k)
  {
    var r := Trace(h, [p] + route, k - 1);
    TraceKeepsRoute(h, [p] + route, k - 1);
    assert r.value[k - 1] == r.value[k - 1..][0];
  }

  /** A trace back that succeeded is a chain of neighbours. */
  ghost predicate ChainedIfFound(r: Result<seq<Point>>)
  {
    r.Success? ==> Chained(r.value)
  }

  /** The trace back puts a neighbour in front at every step, so it keeps a
      chain of neighbours a chain. */
  lemma {:induction false} TraceChained(h: Grid, route: seq<Point>, k: nat)
    requires WellFormed(h) && Framed(h) && |route| >= 1 && Interior(route[0]) && Chained(route)
    ensures ChainedIfFound(Trace(h, route, k))
    decreases k
  {
    if k >= 1 {
      var cursor := NearestPointWithMark(h, route[0], k);
      TraceStep(h, route, k);
      if cursor.Success? {
        var longer := [cursor.value] + route;
        assert Chained(longer);
        TraceChained(h, longer, k - 1);
      }
    }
  }
}
