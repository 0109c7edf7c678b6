/** Failure-carrying results for the operations of the game that abort on misuse. */
module Outcomes {

  /** The ways an operation of the engine can fail. */
  datatype Error =
    | DeckEmpty       // a draw from a deck that has no cards left
    | PlayerNotFound  // a name lookup that matched no seated player
    | SeatOutOfRange  // a seat index past the fixed table of settle flags

  /** Either the value an operation computed or the error that stopped it. */
  datatype Result<+T> = Success(value: T) | Failure(error: Error)

  /** An optional value. */
  datatype Option<+T> = None | Some(value: T)
}
