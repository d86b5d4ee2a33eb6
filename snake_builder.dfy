/** SnakeBuilder.java: rebuilds the hero's body, head first, from the element
    drawn at each of its cells. Each element names the directions in which the
    body continues; the walk takes the first of them that does not lead back onto
    the point before last, and stops at an element with no such direction. */
module SnakeBuilder {
  import opened Geometry
  import opened Failures
  import opened Cursor
  import opened Board

  /** `tailDirections`; `None` for an element the table has no entry for. */
  function TailDirections(e: Element): Option<seq<Direction>>
  {
    match e
    case HeadDown => Some([Up])
    case HeadLeft => Some([Right])
    case HeadRight => Some([Left])
    case HeadUp => Some([Down])
    case TailHorizontal => Some([Left, Right])
    case TailVertical => Some([Up, Down])
    case TailLeftDown => Some([Left, Down])
    case TailLeftUp => Some([Left, Up])
    case TailRightDown => Some([Right, Down])
    case TailRightUp => Some([Right, Up])
    case TailEndDown => Some([])
    case TailEndLeft => Some([])
    case TailEndUp => Some([])
    case TailEndRight => Some([])
    case Other => None
  }

  /** Every element of the hero's body has an entry and no other element has
      one; only the tail ends have an empty entry, and no entry lists a
      direction twice. */
  lemma TailEntries(e: Element)
    ensures TailDirections(e).None? <==> e == Other
    ensures TailDirections(e) == Some([]) <==> e in {TailEndDown, TailEndLeft, TailEndUp, TailEndRight}
    ensures TailDirections(e).Some? ==> var ds := TailDirections(e).value;
      |ds| <= 2 && (|ds| == 2 ==> ds[0] != ds[1])
  {
  }

  /** Each head element points away from the direction its name gives. */
  lemma HeadsPointBack(e: Element)
    requires e in {HeadDown, HeadLeft, HeadRight, HeadUp}
    ensures TailDirections(e).Some? && |TailDirections(e).value| == 1
    ensures var d := TailDirections(e).value[0];
      (e == HeadDown <==> d == Up) && (e == HeadUp <==> d == Down) &&
      (e == HeadLeft <==> d == Right) && (e == HeadRight <==> d == Left)
  {
  }

  /** `isNextTailPoint`: true while only the head is collected, otherwise true
      unless `q` is the point before last. */
  predicate IsNextTailPoint(q: Point, snake: seq<Point>)
  {
    |snake| < 2 || q != snake[|snake| - 2]
  }

  /** The points one step from `p` in each of `ds`, in order. */
  function Candidates(p: Point, ds: seq<Direction>): (r: seq<Point>)
    ensures |r| == |ds| && forall i :: 0 <= i < |ds| ==> r[i] == MoveToDirection(p, ds[i])
  {
    seq(|ds|, i requires 0 <= i < |ds| => MoveToDirection(p, ds[i]))
  }

  /** The stream's `filter(isNextTailPoint).findFirst()`. */
  function FirstNextTailPoint(candidates: seq<Point>, snake: seq<Point>): (r: Option<nat>)
    ensures r.Some? ==> r.value < |candidates| && IsNextTailPoint(candidates[r.value], snake)
    ensures r.Some? ==> forall j :: 0 <= j < r.value ==> !IsNextTailPoint(candidates[j], snake)
    ensures r.None? ==> forall j :: 0 <= j < |candidates| ==> !IsNextTailPoint(candidates[j], snake)
  {
    if candidates == [] then None
    else if IsNextTailPoint(candidates[0], snake) then Some(0)
    else
      match FirstNextTailPoint(candidates[1..], snake)
      case None => None
      case Some(i) => Some(i + 1)
  }

  /** One pass of the loop body: the point that follows the last one collected,
      `None` when the walk stops there, or the failure of a missing table entry. */
  function NextPoint(board: Board, snake: seq<Point>): (r: Result<Option<Point>>)
    requires snake != []
    ensures r.Failure? ==> r.error == MissingTableEntry
    ensures r.Success? && r.value.Some? ==>
      Adjacent(snake[|snake| - 1], r.value.value) && IsNextTailPoint(r.value.value, snake)
  {
    var last := snake[|snake| - 1];
    match TailDirections(GetAt(board, last))
    case None => Failure(MissingTableEntry)
    case Some(ds) =>
      var candidates := Candidates(last, ds);
      match FirstNextTailPoint(candidates, snake)
      case None => Success(None)
      case Some(i) => Success(Some(candidates[i]))
  }

  /** The next point is a step from the last one in a direction of its table
      entry, the first such step that passes `isNextTailPoint`; the walk stops
      when no step passes, and fails when the element has no entry. */
  lemma NextPointChoice(board: Board, snake: seq<Point>)
    requires snake != []
    ensures var last := snake[|snake| - 1];
      var entry := TailDirections(GetAt(board, last));
      var r := NextPoint(board, snake);
      && (r.Failure? <==> entry.None?)
      && (r.Failure? ==> r.error == MissingTableEntry)
      && (r.Success? && r.value.Some? ==>
            exists i :: 0 <= i < |entry.value| && r.value.value == MoveToDirection(last, entry.value[i])
              && IsNextTailPoint(r.value.value, snake)
              && forall j :: 0 <= j < i ==> !IsNextTailPoint(MoveToDirection(last, entry.value[j]), snake))
      && (r.Success? && r.value.None? ==>
            forall d :: d in entry.value ==> !IsNextTailPoint(MoveToDirection(last, d), snake))
  {
  }

  /** `s` is what the loop has collected after |s| passes: the head, then each
      point that `NextPoint` chose. */
  ghost predicate IsWalk(board: Board, s: seq<Point>)
  {
    |s| >= 1 && s[0] == board.head &&
    forall i {:trigger NextPoint(board, s[..i])} :: 0 < i < |s| ==> NextPoint(board, s[..i]) == Success(Some(s[i]))
  }

  /** A walk at whose last point the loop stops. */
  ghost predicate IsCompleteWalk(board: Board, s: seq<Point>)
  {
    IsWalk(board, s) && NextPoint(board, s) == Success(None)
  }

  lemma {:induction false} WalkExtends(board: Board, s: seq<Point>, q: Point)
    requires IsWalk(board, s) && NextPoint(board, s) == Success(Some(q))
    ensures IsWalk(board, s + [q])
  {
    var t := s + [q];
    forall i | 0 < i < |t|
      ensures NextPoint(board, t[..i]) == Success(Some(t[i]))
    {
      assert t[..i] == if i < |s| then s[..i] else s;
      if i < |s| {
        assert NextPoint(board, s[..i]) == Success(Some(s[i]));
      }
    }
  }

  lemma WalkPrefix(board: Board, s: seq<Point>, k: nat)
    requires IsWalk(board, s) && 1 <= k <= |s|
    ensures IsWalk(board, s[..k])
  {
    forall i | 0 < i < k
      ensures NextPoint(board, s[..k][..i]) == Success(Some(s[..k][i]))
    {
      assert s[..k][..i] == s[..i];
      assert NextPoint(board, s[..i]) == Success(Some(s[i]));
    }
  }

  /** The step the loop took after its `k`th pass. */
  lemma WalkStep(board: Board, s: seq<Point>, k: int)
    requires IsWalk(board, s) && 0 < k < |s|
    ensures NextPoint(board, s[..k]) == Success(Some(s[k]))
  {
  }

  /** The walk is deterministic: of two walks, the shorter is a prefix of the longer. */
  lemma {:induction false} WalksAgree(board: Board, s: seq<Point>, t: seq<Point>)
    requires IsWalk(board, s) && IsWalk(board, t) && |s| <= |t|
    ensures s == t[..|s|]
    decreases |s|
  {
    if |s| > 1 {
      var n := |s| - 1;
      WalkPrefix(board, s, n);
      WalksAgree(board, s[..n], t);
      assert NextPoint(board, s[..n]) == Success(Some(s[n]));
      assert t[..|s|][..n] == t[..n];
      assert NextPoint(board, t[..n]) == Success(Some(t[n]));
      assert s == s[..n] + [s[n]];
    }
  }

  /** There is at most one complete walk. */
  lemma CompleteWalkUnique(board: Board, s: seq<Point>, t: seq<Point>)
    requires IsCompleteWalk(board, s) && IsCompleteWalk(board, t)
    ensures s == t
  {
    if |s| <= |t| {
      WalksAgree(board, s, t);
    } else {
      WalksAgree(board, t, s);
    }
  }

  /** A walk starts at the head, moves one cell per point, never turns straight
      back, and every point but the last carries a table element. */
  lemma WalkShape(board: Board, s: seq<Point>)
    requires IsWalk(board, s)
    ensures s[0] == board.head
    ensures Chained(s)
    ensures forall i :: 0 <= i < |s| - 2 ==> s[i] != s[i + 2]
    ensures forall i :: 0 <= i < |s| - 1 ==> TailDirections(GetAt(board, s[i])).Some?
  {
    forall i | 0 <= i < |s| - 1
      ensures Adjacent(s[i], s[i + 1])
      ensures TailDirections(GetAt(board, s[i])).Some?
      ensures i < |s| - 2 ==> s[i] != s[i + 2]
    {
      assert NextPoint(board, s[..i + 1]) == Success(Some(s[i + 1]));
      if i < |s| - 2 {
        assert NextPoint(board, s[..i + 2]) == Success(Some(s[i + 2]));
      }
    }
  }

  /** Every point of a complete walk carries a table element, so it is drawn on the board. */
  lemma CompleteWalkDrawn(board: Board, s: seq<Point>)
    requires IsCompleteWalk(board, s)
    ensures forall i :: 0 <= i < |s| ==> s[i] in board.drawn
  {
    WalkShape(board, s);
  }

  /** The loop from `snake` on; it gives up once the walk holds more points than
      the hero, as the final length check would reject it anyway. */
  function Walk(board: Board, snake: seq<Point>): (r: Result<seq<Point>>)
    requires IsWalk(board, snake)
    ensures r.Success? ==> IsCompleteWalk(board, r.value) && |r.value| == |board.hero|
    ensures r.Failure? ==> forall s :: IsCompleteWalk(board, s) ==> |s| != |board.hero|
    decreases |board.hero| + 1 - |snake|
  {
    var next := NextPoint(board, snake);
    if next.Failure? then
      NoCompleteWalkPastFailure(board, snake);
      Failure(next.error)
    else if next.value.None? then
      if |snake| == |board.hero| then Success(snake)
      else
        OnlyCompleteWalk(board, snake);
        Failure(SnakeMismatch)
    else if |snake| > |board.hero| then
      NoShortCompleteWalk(board, snake);
      Failure(SnakeMismatch)
    else
      WalkExtends(board, snake, next.value.value);
      Walk(board, snake + [next.value.value])
  }

  /** A walk whose next step fails is no prefix of a complete walk, and no
      complete walk is a prefix of it: there is no complete walk at all. */
  lemma NoCompleteWalkPastFailure(board: Board, snake: seq<Point>)
    requires IsWalk(board, snake) && NextPoint(board, snake).Failure?
    ensures forall s :: !IsCompleteWalk(board, s)
  {
    forall s | IsCompleteWalk(board, s) ensures false {
      if |s| < |snake| {
        WalksAgree(board, s, snake);
      } else {
        WalksAgree(board, snake, s);
      }
    }
  }

  /** A complete walk is the only one. */
  lemma OnlyCompleteWalk(board: Board, snake: seq<Point>)
    requires IsCompleteWalk(board, snake)
    ensures forall s :: IsCompleteWalk(board, s) ==> s == snake
  {
    forall s | IsCompleteWalk(board, s) ensures s == snake {
      CompleteWalkUnique(board, s, snake);
    }
  }

  /** A walk that still goes on has no complete walk among its prefixes. */
  lemma NoShortCompleteWalk(board: Board, snake: seq<Point>)
    requires IsWalk(board, snake) && NextPoint(board, snake).Success? && NextPoint(board, snake).value.Some?
    ensures forall s :: IsCompleteWalk(board, s) ==> |s| > |snake|
  {
    forall s | IsCompleteWalk(board, s) && |s| <= |snake| ensures false {
      WalksAgree(board, s, snake);
      if |s| < |snake| {
        WalkStep(board, snake, |s|);
      }
    }
  }

  /** What `getSnakeFromBoard` returns. */
  function SnakeFromBoard(board: Board): (r: Result<seq<Point>>)
    ensures r.Success? ==> IsCompleteWalk(board, r.value) && |r.value| == |board.hero|
    ensures r.Failure? ==> forall s :: IsCompleteWalk(board, s) ==> |s| != |board.hero|
  {
    Walk(board, [board.head])
  }

  /** `getSnakeFromBoard`: collects points from the head while a next point
      exists, then rejects a result whose length is not the hero's size. */
  method GetSnakeFromBoard(board: Board) returns (r: Result<seq<Point>>)
    ensures r == SnakeFromBoard(board)
  {
    var snake := [board.head];
    var next := NextPoint(board, snake);
    while next.Success? && next.value.Some? && |snake| <= |board.hero|
      invariant IsWalk(board, snake)
      invariant next == NextPoint(board, snake)
      invariant Walk(board, snake) == SnakeFromBoard(board)
      decreases |board.hero| + 1 - |snake|
    {
      WalkExtends(board, snake, next.value.value);
      snake := snake + [next.value.value];
      next := NextPoint(board, snake);
    }
    if next.Failure? {
      r := Failure(next.error);
    } else if next.value.Some? || |snake| != |board.hero| {
      r := Failure(SnakeMismatch);
    } else {
      r := Success(snake);
    }
  }
}
