/** Failure-carrying results for the operations of the automaton and the
    player. Every `throw runtime_error(...)` of the program becomes
    one `Err` value, tagged with the kind of validation that failed. */
module Outcomes {

  /** The validations the program performs, one constructor per kind of throw. */
  datatype Error =
    | InvalidSize       // a board or seed dimension below 1
    | SeedTooLarge      // the seed does not fit inside the game board
    | OutOfBounds       // a cell position outside the board
    | SizeMismatch      // a whole-board assignment of different dimensions
    | NotRectangular    // a whole-board assignment whose rows differ in length
    | OffsetOutOfRange  // the seed placed at the offsets would leave the board

  datatype Result<+T> = Ok(value: T) | Err(error: Error)

  datatype Option<+T> = None | Some(value: T)
}
