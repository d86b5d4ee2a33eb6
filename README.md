# Knibert snake solver and the mollymage element table, in Dafny

This project models the move policy of the knibert snake bot:

- **Cursor.** The four-direction coordinate table.
- **BoardModel.** The solver's own 15 x 15 grid of integer markers: barrier -5, stone -4, empty 0, apple 100, head -10, and one step of -10 per body cell after the head.
- **SnakeBuilder.** Rebuilds the hero's body, head first, from the element drawn at each cell.
- **LeeAlgorithm.** A breadth-first wave search. It writes round numbers into the board model and traces a route back from the target over those marks.
- **Navigator.** Rebuilds the snake, writes it into the model, searches from the head to the first apple and answers with the direction of the route's first cell. It falls back to the first safe neighbour of the head when the route is empty or anything fails.

It also models the mollymage `Element` enum: its character table, `valueOf`, `toString`, the category arrays and the `is*` predicates.

Each part keeps the form of its source:

- The board model is a class `Field` over a two-dimensional array. `set`, `clear`, `setEnvironment` and `setSnake` are methods that update it in place. Each method is proved equal to a function on the grid value: `Update`, `Paint` or `PaintSnake`.
- The search is a class `LeeAlgorithm` holding that same `Field`. Its two loops are methods proved equal to the functions `Rounds` and `Trace`.
- The snake rebuild is a loop proved equal to the function `SnakeFromBoard`. `ValueOf` is a loop over `Values`.
- The Navigator is a class that writes the snake into its model. Its `GetMove` is proved equal to the function `Move`.
- Java exceptions are `Failure` values of a `Result` type. `findSolution`'s catch-all becomes a match on that result.

What the search promises is proved about the functions, on a board as the solver sets it up, as long as the search stays below round 100:

- the route is a walk over empty or apple cells from a neighbour of the head to the target, visiting no cell twice;
- no walk is shorter;
- the route is empty exactly when no walk exists;
- walls, stones and the snake survive the search.

## Model

Source paths are relative to the repository root.

| member | source | states |
|---|---|---|
| Cursor.MoveToDirection | src/main/java/com/codenjoy/dojo/games/knibert/solver/Cursor.java:60-62 | The point one unit from `start`: UP is y + 1, DOWN is y - 1, RIGHT is x + 1, LEFT is x - 1. It is always adjacent to `start`. |
| Cursor.MoveFromPoint | src/main/java/com/codenjoy/dojo/games/knibert/solver/LeeAlgorithm.java:56-60 | The copy shifted by `delta` is a neighbour of `p` exactly when `delta` is one of the four unit steps. |
| Cursor.AdjacentIsStep | src/main/java/com/codenjoy/dojo/games/knibert/solver/Cursor.java:19-22 | Every point at Manhattan distance 1 is reached by one of the four table moves. |
| Cursor.GetNearestPoints | src/main/java/com/codenjoy/dojo/games/knibert/solver/Cursor.java:35-41 | Exactly four distinct points, which are exactly the points adjacent to `p`; entry i is the step in the i-th table direction. |
| Cursor.FindDirection | src/main/java/com/codenjoy/dojo/games/knibert/solver/Cursor.java:51-57 | The first table direction whose delta equals the offset; `NotAdjacent` exactly when no delta does. |
| Cursor.GetDirection | src/main/java/com/codenjoy/dojo/games/knibert/solver/Cursor.java:49-58 | Succeeds if and only if `target` is adjacent to `current`, and then stepping in the result reaches `target`. Otherwise it fails with `NotAdjacent`: diagonal, farther or equal points. |
| Cursor.DirectionRoundTrip | src/main/java/com/codenjoy/dojo/games/knibert/solver/Cursor.java:49-62 | `getDirection(p, moveToDirection(p, d)) == d` for every direction. |
| Cursor.MoveIsNearest | src/main/java/com/codenjoy/dojo/games/knibert/solver/Cursor.java:35-62 | Every `moveToDirection(p, d)` is among `getNearestPoints(p)`. |
| BoardModel.Update | src/main/java/com/codenjoy/dojo/games/knibert/solver/BoardModel.java:51-53 | After writing `v` at `p`, `p` reads `v` and every other cell is unchanged. |
| BoardModel.EmptyGrid | src/main/java/com/codenjoy/dojo/games/knibert/solver/BoardModel.java:27 | Every cell of a freshly allocated grid reads EMPTY. |
| BoardModel.Paint | src/main/java/com/codenjoy/dojo/games/knibert/solver/BoardModel.java:33-35 | After writing `v` at each point of a list, a cell reads `v` if it is on the list and is unchanged otherwise. |
| BoardModel.SnakeValue | src/main/java/com/codenjoy/dojo/games/knibert/solver/BoardModel.java:17-22 | The marker of the k-th body cell is at most HEAD and below BARRIER, STONE and EMPTY, so never APPLE or a search mark. It strictly decreases along the body. |
| BoardModel.PaintSnakeOff | src/main/java/com/codenjoy/dojo/games/knibert/solver/BoardModel.java:38-45 | `setSnake` leaves every cell off the given snake as it was, including cells of an earlier snake. |
| BoardModel.PaintSnakeBelowHead | src/main/java/com/codenjoy/dojo/games/knibert/solver/BoardModel.java:38-45 | After `setSnake` every cell of the snake reads at most HEAD. |
| BoardModel.PaintSnakeLast | src/main/java/com/codenjoy/dojo/games/knibert/solver/BoardModel.java:38-45 | After `setSnake`, the cell at index i (its last visit) reads HEAD + i * SNAKE_STEP. |
| BoardModel.PaintSnakeCells | src/main/java/com/codenjoy/dojo/games/knibert/solver/BoardModel.java:38-45 | The three facts above, for all cells at once. |
| BoardModel.EnvironmentAt | src/main/java/com/codenjoy/dojo/games/knibert/solver/BoardModel.java:32-36 | After `setEnvironment` a cell reads STONE if it is a stone, else APPLE if it is an apple, else BARRIER if it is a barrier, else EMPTY: a later category overwrites an earlier one. |
| BoardModel.EnvironmentClean | src/main/java/com/codenjoy/dojo/games/knibert/solver/BoardModel.java:32-36 | The environment holds no search marks. |
| BoardModel.PaintSnakeKeeps | src/main/java/com/codenjoy/dojo/games/knibert/solver/BoardModel.java:38-45 | Writing a snake keeps a grid free of marks and keeps a negative border negative. |
| BoardModel.Field.constructor | src/main/java/com/codenjoy/dojo/games/knibert/solver/BoardModel.java:26-29 | A zeroed 15 x 15 array, then `setEnvironment(board)`. |
| BoardModel.Field.Get | src/main/java/com/codenjoy/dojo/games/knibert/solver/BoardModel.java:47-49 | The marker stored at `[y][x]`. |
| BoardModel.Field.Set | src/main/java/com/codenjoy/dojo/games/knibert/solver/BoardModel.java:51-53 | The new grid is `Update(old grid, p, v)`. |
| BoardModel.Field.IsEmpty | src/main/java/com/codenjoy/dojo/games/knibert/solver/BoardModel.java:55-57 | Holds exactly when the model's cell reads EMPTY (0). |
| BoardModel.Field.IsApple | src/main/java/com/codenjoy/dojo/games/knibert/solver/BoardModel.java:59-61 | Holds exactly when the model's cell reads APPLE (100), so never together with `isEmpty`. |
| BoardModel.Field.Clear | src/main/java/com/codenjoy/dojo/games/knibert/solver/BoardModel.java:86-88 | `p` becomes EMPTY, `isEmpty(p)` holds, and no other cell changes. |
| BoardModel.Field.SetAll | src/main/java/com/codenjoy/dojo/games/knibert/solver/BoardModel.java:33-35 | One `forEach(set)` of `setEnvironment`: the new grid is `Paint(old grid, ps, v)`. |
| BoardModel.Field.SetEnvironment | src/main/java/com/codenjoy/dojo/games/knibert/solver/BoardModel.java:32-36 | Barriers, then apples, then stones are painted over the old grid. |
| BoardModel.Field.SetSnake | src/main/java/com/codenjoy/dojo/games/knibert/solver/BoardModel.java:38-45 | The new grid is `PaintSnake(old grid, s)`, and `getSnake()` returns `s`. |
| BoardModel.Field.GetSnake | src/main/java/com/codenjoy/dojo/games/knibert/solver/BoardModel.java:82-84 | Defined by its body: the snake of the last `setSnake`, empty before one; SetSnake states that it then returns that snake. |
| SnakeBuilder.HeadsPointBack | src/main/java/com/codenjoy/dojo/games/knibert/solver/SnakeBuilder.java:43-46 | Each head element maps to the single direction opposite to its name. |
| SnakeBuilder.TailDirections | src/main/java/com/codenjoy/dojo/games/knibert/solver/SnakeBuilder.java:42-57 | Defined by its body: the table of directions in which each element of the hero's body continues; TailEntries states its shape. |
| SnakeBuilder.TailEntries | src/main/java/com/codenjoy/dojo/games/knibert/solver/SnakeBuilder.java:42-57 | Every element of the hero's body has an entry and any other element has none; the entry is empty exactly for the four tail ends, and lists at most two different directions. |
| SnakeBuilder.IsNextTailPoint | src/main/java/com/codenjoy/dojo/games/knibert/solver/SnakeBuilder.java:92-99 | Defined by its body: any point while only the head is collected, afterwards any point but the one before last; WalkShape states that the walk therefore never steps straight back. |
| SnakeBuilder.Candidates | src/main/java/com/codenjoy/dojo/games/knibert/solver/SnakeBuilder.java:70-72 | The step from the last point in each direction of the table entry, in table order. |
| SnakeBuilder.FirstNextTailPoint | src/main/java/com/codenjoy/dojo/games/knibert/solver/SnakeBuilder.java:73-74 | The first candidate that passes `isNextTailPoint`, with none before it passing; none when no candidate passes. |
| SnakeBuilder.NextPointChoice | src/main/java/com/codenjoy/dojo/games/knibert/solver/SnakeBuilder.java:70-74 | The step fails exactly when the element has no table entry. Otherwise the next point is the first table-order step that passes `isNextTailPoint`, and the walk stops when none passes, as at a tail end. |
| SnakeBuilder.NextPoint | src/main/java/com/codenjoy/dojo/games/knibert/solver/SnakeBuilder.java:70-74 | One pass of the loop body: a missing table entry is MissingTableEntry, and a next point is adjacent to the last one and passes `isNextTailPoint`; NextPointChoice states which one. |
| SnakeBuilder.WalksAgree | src/main/java/com/codenjoy/dojo/games/knibert/solver/SnakeBuilder.java:68-75 | The loop is deterministic: of two walks from the head, the shorter is a prefix of the longer. |
| SnakeBuilder.CompleteWalkUnique | src/main/java/com/codenjoy/dojo/games/knibert/solver/SnakeBuilder.java:68-75 | There is at most one walk at whose end the loop stops. |
| SnakeBuilder.WalkShape | src/main/java/com/codenjoy/dojo/games/knibert/solver/SnakeBuilder.java:66-75 | A walk starts at the head, its consecutive points are adjacent, it never steps straight back, and every point but the last has a table entry. |
| SnakeBuilder.CompleteWalkDrawn | src/main/java/com/codenjoy/dojo/games/knibert/solver/SnakeBuilder.java:70 | Every point of a complete walk carries a drawn element. |
| SnakeBuilder.Walk | src/main/java/com/codenjoy/dojo/games/knibert/solver/SnakeBuilder.java:68-82 | On success, a complete walk of the hero's length. On failure, no complete walk has the hero's length. |
| SnakeBuilder.SnakeFromBoard | src/main/java/com/codenjoy/dojo/games/knibert/solver/SnakeBuilder.java:63-83 | `getSnakeFromBoard` succeeds with the complete walk from the head when that walk has the hero's size. It fails when no such walk exists. |
| SnakeBuilder.GetSnakeFromBoard | src/main/java/com/codenjoy/dojo/games/knibert/solver/SnakeBuilder.java:63-83 | The loop returns exactly `SnakeFromBoard(board)`. |
| Lee.NeighboursFollowDeltas | src/main/java/com/codenjoy/dojo/games/knibert/solver/LeeAlgorithm.java:22-26 | The search's neighbours are `moveFromPoint` by (0,-1), (-1,0), (1,0), (0,1), in that order. |
| Lee.NeighboursAreAdjacent | src/main/java/com/codenjoy/dojo/games/knibert/solver/LeeAlgorithm.java:22-26 | They are four distinct points, exactly the adjacent ones. |
| Lee.NearestAvailablePoints | src/main/java/com/codenjoy/dojo/games/knibert/solver/LeeAlgorithm.java:29-35 | A point is in the result if and only if it is adjacent to `p`, on the grid, and empty or an apple. |
| Lee.NearestAvailablePointsOf | src/main/java/com/codenjoy/dojo/games/knibert/solver/LeeAlgorithm.java:47-54 | The next wave lies on the grid; NextWaveFacts states that it holds exactly the available neighbours of the list, each once. |
| Lee.DistinctFacts | src/main/java/com/codenjoy/dojo/games/knibert/solver/LeeAlgorithm.java:52 | `distinct()` keeps exactly the same points, each once. |
| Lee.GatherFacts | src/main/java/com/codenjoy/dojo/games/knibert/solver/LeeAlgorithm.java:47-51 | The concatenated expansions hold exactly the available points adjacent to some point of the list. |
| Lee.NextWaveFacts | src/main/java/com/codenjoy/dojo/games/knibert/solver/LeeAlgorithm.java:47-54 | The next wave holds exactly the available neighbours of the wave, each once. |
| Lee.NearestPointWithMark | src/main/java/com/codenjoy/dojo/games/knibert/solver/LeeAlgorithm.java:37-45 | On success, a neighbour on the grid holding `mark`. Otherwise it fails with `MarkNotFound`. |
| Lee.NearestPointWithMarkIsFirst | src/main/java/com/codenjoy/dojo/games/knibert/solver/LeeAlgorithm.java:37-45 | The neighbour found is the first in delta order holding the mark. The call fails if and only if no neighbour holds it. |
| Lee.MarkShrinks | src/main/java/com/codenjoy/dojo/games/knibert/solver/LeeAlgorithm.java:76 | Marking available cells with 100 keeps them available. Marking them with anything else removes them from the available cells. |
| Lee.MarkingProgresses | src/main/java/com/codenjoy/dojo/games/knibert/solver/LeeAlgorithm.java:66-78 | Each round that marks a non-empty wave lowers a natural-number measure, so the search loop ends. |
| Lee.Rounds | src/main/java/com/codenjoy/dojo/games/knibert/solver/LeeAlgorithm.java:66-79 | The rounds keep the border intact and never lower the counter. A found target is on the grid and available. |
| Lee.RoundsStep | src/main/java/com/codenjoy/dojo/games/knibert/solver/LeeAlgorithm.java:66-79 | One loop pass: stop when the target is in the next wave. Otherwise mark the wave with the incremented counter, and stop or go on depending on whether the wave is empty. |
| Lee.Trace | src/main/java/com/codenjoy/dojo/games/knibert/solver/LeeAlgorithm.java:87-96 | A successful trace adds exactly `k` cells. |
| Lee.TraceStep | src/main/java/com/codenjoy/dojo/games/knibert/solver/LeeAlgorithm.java:90-94 | One loop pass: fail where no neighbour has the mark; otherwise put that neighbour in front and count down. |
| Lee.TraceKeepsRoute | src/main/java/com/codenjoy/dojo/games/knibert/solver/LeeAlgorithm.java:88-95 | The trace only adds cells in front, so the route it started from is its tail. |
| Lee.ShortestRoute | src/main/java/com/codenjoy/dojo/games/knibert/solver/LeeAlgorithm.java:62-85 | A non-empty route ends at the target. |
| Lee.LeeAlgorithm.constructor | src/main/java/com/codenjoy/dojo/games/knibert/solver/LeeAlgorithm.java:20-21 | The search keeps the board model it is given. |
| Lee.LeeAlgorithm.GetShortestRouteToTarget | src/main/java/com/codenjoy/dojo/games/knibert/solver/LeeAlgorithm.java:62-85 | The board model ends as the rounds leave it, and the result is `ShortestRoute` of the old model. |
| Lee.LeeAlgorithm.SearchRounds | src/main/java/com/codenjoy/dojo/games/knibert/solver/LeeAlgorithm.java:63-79 | The loop leaves the grid, the found flag and `stepNo` exactly as `Rounds` gives them. |
| Lee.LeeAlgorithm.ExpandWave | src/main/java/com/codenjoy/dojo/games/knibert/solver/LeeAlgorithm.java:67-78 | Computes the next wave and whether it holds the target. When it does not, the wave is marked with the next counter. |
| Lee.TraceRouteToStart | src/main/java/com/codenjoy/dojo/games/knibert/solver/LeeAlgorithm.java:87-96 | The loop returns exactly `Trace(g, [target], steps)`. |
| LeeProofs.InvInit | src/main/java/com/codenjoy/dojo/games/knibert/solver/LeeAlgorithm.java:63-65 | A board with no marks and a blocked start satisfies the round invariant before round 1. |
| LeeProofs.InvStep | src/main/java/com/codenjoy/dojo/games/knibert/solver/LeeAlgorithm.java:74-76 | A round that misses the target keeps the invariant. Round s marks exactly the cells at distance s; marks lie on cells that were available; each mark steps down to the start; the target stays unmarked. |
| LeeProofs.PathsLongerThanNextRound | src/main/java/com/codenjoy/dojo/games/knibert/solver/LeeAlgorithm.java:67-76 | A round that misses the target leaves every walk to it longer than the round count. |
| LeeProofs.Exhausted | src/main/java/com/codenjoy/dojo/games/knibert/solver/LeeAlgorithm.java:66 | When the next wave is empty, no walk reaches the target. |
| LeeProofs.FoundHere | src/main/java/com/codenjoy/dojo/games/knibert/solver/LeeAlgorithm.java:68-73 | The round that finds the target leaves marks leading from the target back to the start. |
| LeeProofs.RoundsFound | src/main/java/com/codenjoy/dojo/games/knibert/solver/LeeAlgorithm.java:66-79 | A target found below round 100 has marks 1 to k leading back to the start. |
| LeeProofs.RoundsBounded | src/main/java/com/codenjoy/dojo/games/knibert/solver/LeeAlgorithm.java:66-84 | Every walk is longer than the rounds run, up to 100. A search that stops empty below round 100 leaves no walk at all. |
| LeeProofs.TraceSucceeds | src/main/java/com/codenjoy/dojo/games/knibert/solver/LeeAlgorithm.java:87-96 | Tracing back over marks that descend to the start never fails. |
| LeeProofs.TraceShape | src/main/java/com/codenjoy/dojo/games/knibert/solver/LeeAlgorithm.java:87-96 | The traced route puts the cell marked i + 1 at position i and starts next to the start. |
| LeeProofs.TraceChained | src/main/java/com/codenjoy/dojo/games/knibert/solver/LeeAlgorithm.java:90-94 | The trace adds a neighbour at every step, so the route is a chain of neighbours. |
| LeeTheorems.SearchReaches | src/main/java/com/codenjoy/dojo/games/knibert/solver/LeeAlgorithm.java:62-79 | The search from the start of a board as set up satisfies `RoundsFound`. |
| LeeTheorems.SearchBounds | src/main/java/com/codenjoy/dojo/games/knibert/solver/LeeAlgorithm.java:62-84 | The search from the start of a board as set up satisfies `RoundsBounded`. |
| LeeTheorems.TracedRoute | src/main/java/com/codenjoy/dojo/games/knibert/solver/LeeAlgorithm.java:80-96 | After a found search, the trace succeeds. Its route has k + 1 cells ending at the target, cell i carries mark i + 1, it is chained, and it starts next to the start. |
| LeeTheorems.FoundRoute | src/main/java/com/codenjoy/dojo/games/knibert/solver/LeeAlgorithm.java:62-96 | `getShortestRouteToTarget` returns that traced route, with k the search's round count. |
| LeeTheorems.RouteIsPath | src/main/java/com/codenjoy/dojo/games/knibert/solver/LeeAlgorithm.java:62-96 | The route of a found search is a walk of originally empty or apple cells from a neighbour of the start to the target, one cell per round plus the target. The start is not on it. |
| LeeTheorems.RouteHasNoRepeats | src/main/java/com/codenjoy/dojo/games/knibert/solver/LeeAlgorithm.java:62-96 | The route visits no cell twice. |
| LeeTheorems.RouteIsShortest | src/main/java/com/codenjoy/dojo/games/knibert/solver/LeeAlgorithm.java:62-85 | No walk from the start to the target is shorter than the route. |
| LeeTheorems.EmptyRouteMeansNoPath | src/main/java/com/codenjoy/dojo/games/knibert/solver/LeeAlgorithm.java:80-84 | When the search gives up below round 100, the route is empty and no walk exists. |
| LeeTheorems.NoPathEmptyRoute | src/main/java/com/codenjoy/dojo/games/knibert/solver/LeeAlgorithm.java:80-84 | When no walk exists, and the search stops below round 100, the route is empty. |
| LeeTheorems.ShortPathIsFound | src/main/java/com/codenjoy/dojo/games/knibert/solver/LeeAlgorithm.java:62-96 | When a walk of at most 100 cells exists, the search finds the target and returns a walk no longer than it. |
| LeeTheorems.PaintKeepsObstacles | src/main/java/com/codenjoy/dojo/games/knibert/solver/LeeAlgorithm.java:76 | Marking only available cells leaves every obstacle cell unchanged. |
| LeeTheorems.RoundsKeepObstacles | src/main/java/com/codenjoy/dojo/games/knibert/solver/LeeAlgorithm.java:66-79 | All rounds leave every barrier, stone, head and body cell unchanged. |
| LeeTheorems.SearchKeepsObstacles | src/main/java/com/codenjoy/dojo/games/knibert/solver/LeeAlgorithm.java:62-85 | Whatever its outcome, `getShortestRouteToTarget` leaves every cell that was not empty or an apple as it was. |
| Navigation.WalledIsFramed | src/main/java/com/codenjoy/dojo/games/knibert/solver/BoardModel.java:32-36 | On a board whose outer ring is stones, or barriers no apple covers, the environment's border is negative. |
| Navigation.SnakeOnGrid | src/main/java/com/codenjoy/dojo/games/knibert/solver/Navigator.java:58-61 | The rebuilt snake lies on the grid and starts at the head. |
| Navigation.SetupGrid | src/main/java/com/codenjoy/dojo/games/knibert/solver/Navigator.java:58-63 | Writing the snake keeps the border negative and the board free of marks, and blocks the head. |
| Navigation.FirstSafe | src/main/java/com/codenjoy/dojo/games/knibert/solver/Navigator.java:66-70 | The first point in neither the hero nor the barriers, with none before it qualifying; none when no point qualifies. |
| Navigation.SafePoint | src/main/java/com/codenjoy/dojo/games/knibert/solver/Navigator.java:65-72 | A neighbour of the head. It is the first safe one in `getNearestPoints` order, or the UP neighbour when no neighbour is safe. |
| Navigation.SafePointIsSafe | src/main/java/com/codenjoy/dojo/games/knibert/solver/Navigator.java:65-72 | When some neighbour of the head is safe, the fallback picks a safe cell. |
| Navigation.MoveNearestSafePoint | src/main/java/com/codenjoy/dojo/games/knibert/solver/Navigator.java:65-74 | Never fails. It names the direction whose step from the head reaches `SafePoint`. |
| Navigation.Move | src/main/java/com/codenjoy/dojo/games/knibert/solver/Navigator.java:46-56 | A failed snake rebuild is propagated, and an empty apple list throws. Any answer is one of the four move names. |
| Navigation.MoveGrid | src/main/java/com/codenjoy/dojo/games/knibert/solver/Navigator.java:46-63 | The board model after `getMove` keeps a negative border. |
| Navigation.Solution | src/main/java/com/codenjoy/dojo/games/knibert/solver/Navigator.java:38-44 | Always one of the four move names. When `getMove` throws, it is `moveNearestSafePoint`. |
| Navigation.MoveFollowsShortestWalk | src/main/java/com/codenjoy/dojo/games/knibert/solver/Navigator.java:46-56 | On a fresh model where a walk of at most 100 cells reaches the first apple, the answer is the direction to the first cell of a shortest walk. |
| Navigation.NoWalkFallsBack | src/main/java/com/codenjoy/dojo/games/knibert/solver/Navigator.java:52-54 | On a fresh model where no walk reaches the first apple, `getMove` and `findSolution` answer `moveNearestSafePoint`. |
| Navigation.Navigator.constructor | src/main/java/com/codenjoy/dojo/games/knibert/solver/Navigator.java:18-24 | A board model set up from the board, and a search working on that model. |
| Navigation.Navigator.SetupInitialField | src/main/java/com/codenjoy/dojo/games/knibert/solver/Navigator.java:58-63 | Returns `SnakeFromBoard(board)`. On success the rebuilt snake is painted over the model; on failure the model is untouched. |
| Navigation.Navigator.WriteSnake | src/main/java/com/codenjoy/dojo/games/knibert/solver/Navigator.java:61 | `field.setSnake(snake)`: the model becomes `PaintSnake(old model, snake)`. |
| Navigation.Navigator.GetMove | src/main/java/com/codenjoy/dojo/games/knibert/solver/Navigator.java:46-56 | Returns `Move(board, old model)` and leaves the model as `MoveGrid` describes. |
| Navigation.Navigator.FindSolution | src/main/java/com/codenjoy/dojo/games/knibert/solver/Navigator.java:38-44 | Returns `Solution(board, old model)`, always a move name. |
| Mollymage.LookupCh | src/main/java/com/codenjoy/dojo/games/mollymage/Element.java:34-119 | Looking up an element's character gives that element back, so the 27 characters are distinct. |
| Mollymage.ChLookup | src/main/java/com/codenjoy/dojo/games/mollymage/Element.java:146-153 | A character that is found belongs to the element found. A character that is not found fails with `NoSuchElement` and belongs to no element. |
| Mollymage.ChInjective | src/main/java/com/codenjoy/dojo/games/mollymage/Element.java:34-119 | No two elements share a character. |
| Mollymage.Ch | src/main/java/com/codenjoy/dojo/games/mollymage/Element.java:132-134 | Defined by its body, one character per constant; LookupCh and ChInjective state that the characters are distinct. |
| Mollymage.ValuesComplete | src/main/java/com/codenjoy/dojo/games/mollymage/Element.java:34-119 | `values()` holds every element, at the position of its ordinal. |
| Mollymage.ValuesDistinct | src/main/java/com/codenjoy/dojo/games/mollymage/Element.java:34-119 | No element appears twice in `values()`. |
| Mollymage.ValueOf | src/main/java/com/codenjoy/dojo/games/mollymage/Element.java:146-153 | The loop returns the element drawn with `ch`, or fails exactly when no element is drawn with it. |
| Mollymage.ToString | src/main/java/com/codenjoy/dojo/games/mollymage/Element.java:141-144 | A one-character string that `valueOf` reads back as the same element. |
| Mollymage.PotionsCharsAreTimers | src/main/java/com/codenjoy/dojo/games/mollymage/Element.java:121 | A character is in "12345" if and only if it is the character of one of the five potion timers. |
| Mollymage.PotionsAre | src/main/java/com/codenjoy/dojo/games/mollymage/Element.java:215-226 | `isPotion` holds exactly for the five timers and the three `*_POTION_HERO` elements. |
| Mollymage.InHeroes | src/main/java/com/codenjoy/dojo/games/mollymage/Element.java:159-213 | `isHero`, `isEnemyHero` and `isOtherHero` each hold exactly for their three elements. |
| Mollymage.InPerks | src/main/java/com/codenjoy/dojo/games/mollymage/Element.java:228-237 | `isPerk` holds exactly for the six perks. |
| Mollymage.InObstacles | src/main/java/com/codenjoy/dojo/games/mollymage/Element.java:175-263 | `isGhost`, `isWall`, `isTreasureBox` and `isBoom` each hold exactly for their elements. |
| Mollymage.InBarriers | src/main/java/com/codenjoy/dojo/games/mollymage/Element.java:265-287 | Membership in `barriers()`, element by element. |
| Mollymage.BarriersAre | src/main/java/com/codenjoy/dojo/games/mollymage/Element.java:265-287 | The barriers are exactly the potions, ghosts, walls, treasure boxes, other heroes and enemy heroes. |
| Mollymage.NotBarriers | src/main/java/com/codenjoy/dojo/games/mollymage/Element.java:265-287 | An element is not a barrier if and only if it is HERO, DEAD_HERO, NONE, BLAST or a perk. |
| Mollymage.CategoriesCover | src/main/java/com/codenjoy/dojo/games/mollymage/Element.java:155-263 | Every element but NONE is in some category, and the three hero groups do not overlap. |
| Mollymage.IsPotion | src/main/java/com/codenjoy/dojo/games/mollymage/Element.java:155-157 | Defined by its body: membership in `potions()`; PotionsAre lists the elements it holds for. |
| Mollymage.IsHero | src/main/java/com/codenjoy/dojo/games/mollymage/Element.java:159-161 | Defined by its body: membership in `heroes()`; InHeroes lists the elements it holds for. |
| Mollymage.IsEnemyHero | src/main/java/com/codenjoy/dojo/games/mollymage/Element.java:163-165 | Defined by its body: membership in `enemyHeroes()`; InHeroes lists the elements it holds for. |
| Mollymage.IsOtherHero | src/main/java/com/codenjoy/dojo/games/mollymage/Element.java:167-169 | Defined by its body: membership in `otherHeroes()`; InHeroes lists the elements it holds for. |
| Mollymage.IsPerk | src/main/java/com/codenjoy/dojo/games/mollymage/Element.java:171-173 | Defined by its body: membership in `perks()`; InPerks lists the elements it holds for. |
| Mollymage.IsGhost | src/main/java/com/codenjoy/dojo/games/mollymage/Element.java:175-177 | Defined by its body: membership in `ghosts()`; InObstacles lists the elements it holds for. |
| Mollymage.IsWall | src/main/java/com/codenjoy/dojo/games/mollymage/Element.java:179-181 | Defined by its body: membership in `walls()`; InObstacles lists the elements it holds for. |
| Mollymage.IsTreasureBox | src/main/java/com/codenjoy/dojo/games/mollymage/Element.java:183-185 | Defined by its body: membership in `treasureBoxes()`; InObstacles lists the elements it holds for. |
| Mollymage.IsBoom | src/main/java/com/codenjoy/dojo/games/mollymage/Element.java:187-189 | Defined by its body: membership in `blasts()`; InObstacles lists the elements it holds for. |

## Left out

- Debug rendering: `BoardModel.toString` and `toStringElement`, and the `System.out.println(field)` of every search round. They are console output with no effect on the result.
- The knibert `Board` interface and its `Element` enum are not part of this model. The board is an input value: a head, the hero's cells, the barrier, apple and stone lists, and a map from cell to drawn element. The elements the snake table does not name are one `Other` case.
- The `Cursor` singleton (`getCursor`): it carries no state, so the table is a set of functions.
- The `Cursor` table order: `deltas` is an `EnumMap`, which visits directions in the declaration order of codenjoy's `Direction`, and that enum is not part of this model. The model uses the listing order UP, DOWN, RIGHT, LEFT. `getNearestPoints` order matters only to which safe neighbour the fallback picks first.
- Constructor wiring: `Navigator`'s one-argument constructor passes a `Cursor` where `LeeAlgorithm` takes a board model, and `setupInitialField` calls a `setField` that `LeeAlgorithm` does not define. The model builds the search over the navigator's own board model, which is what `setField(field)` evidently intends. `SnakeBuilder`'s cursor and `Navigator`'s injected collaborators are not modelled; they are stateless.
- Out-of-bounds array access: `get` and `set` require a point on the grid instead of modelling `ArrayIndexOutOfBoundsException`. The search and `getMove` require a board model whose outer ring is negative (`Framed`) and a head off that ring. Under these conditions the search never leaves the grid. `MoveFollowsShortestWalk` and `NoWalkFallsBack` state their results for such boards; `WalledIsFramed` gives one sufficient condition.
- LeeTheorems.RouteIsShortest: optimality, the route's shape and "empty route means no walk" are proved only for searches that stay below round 100. In round 100 the mark equals APPLE, so marked cells look available again. `Rounds` models that round faithfully and still terminates, but nothing is claimed about routes past it.
- LeeTheorems.EmptyRouteMeansNoPath: stated for searches that give up below round 100, for the same reason.
- SnakeBuilder.Walk: on cyclic orientation data the source loop would not end. The model stops once the walk holds more points than the hero, which the source's final size check would reject anyway; this is reported as `SnakeMismatch`.
- A missing table entry (`tailDirections.get` returning null, then a `NullPointerException`) is the failure `MissingTableEntry`.
- `traceRouteToStart` reads the board model as the search left it. The model passes that grid as a value, and the trace does not write to it.
- The `System.out.println` and the `int[] stepNo` box of `getShortestRouteToTarget`: the counter is a local natural number.
- Mollymage `info()` texts: descriptive strings with no behaviour.
- Mollymage category arrays are modelled as sets. The `is*` predicates only ask for membership, so array order and the two duplicate entries of `barriers()` are not represented.
- `clear` and `getSnake` have no caller in the solver. They are modelled as methods of `Field` but play no part in the navigator.
