/** The Java exceptions of the solver, as values. */
module Failures {

  /** What went wrong; each case names the exception the source throws. */
  datatype Error =
    | NotAdjacent         // Cursor.getDirection: AlgorithmErrorException
    | MarkNotFound        // LeeAlgorithm.getNearestPointWithMark: AlgorithmErrorException
    | SnakeMismatch       // SnakeBuilder.getSnakeFromBoard: AlgorithmErrorException
    | MissingTableEntry   // SnakeBuilder: tailDirections.get(..) is null, the stream call fails
    | NoApple             // Navigator.getMove: getApples().get(0) on an empty list
    | NoSuchElement       // mollymage Element.valueOf: IllegalArgumentException

  datatype Result<+T> = Success(value: T) | Failure(error: Error)
  {
    predicate IsFailure() { Failure? }

    function PropagateFailure<U>(): Result<U>
      requires Failure?
    {
      Failure(error)
    }

    function Extract(): T
      requires Success?
    {
      value
    }
  }

  datatype Option<+T> = None | Some(value: T)
}
