/** Option, the error conditions the weighted graph raises, and the two
    result shapes its operations return instead of raising. */
module Wrappers {

  datatype Option<+T> = None | Some(value: T)

  /** The exceptions of the weighted-graph layer. */
  datatype Error =
    | NonPositiveWeight  // a weight <= 0 given to add_arista or set_peso (ValueError)
    | NoSuchNode         // the base graph's node lookup failed (KeyError)
    | NoSuchEdge         // set_peso on two nodes that share no edge (KeyError)
    | NoSuchSource       // Dijkstra started from an id that is not a node (KeyError)

  /** A value, or the exception that replaced it. */
  datatype Result<+T> = Ok(value: T) | Err(error: Error)

  /** Completion of an operation that returns nothing (None in Python). */
  datatype Outcome = Pass | Fail(error: Error)
}
