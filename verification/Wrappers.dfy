/** Result types shared by the models of the C++ backend. */
module Wrappers {

  datatype Option<+T> = None | Some(value: T) {
    function GetOr(default: T): T {
      match this
      case Some(v) => v
      case None => default
    }
  }

  /** What a call can end with instead of a value. `OutOfFuel` is never raised by the source: it marks a
      recursion that was cut off by the bound of a specification function. */
  datatype Error =
    | UniqueConstraint   // SQL: a row with that primary key exists
    | ForeignKey         // SQL: a foreign key names no row
    | OutOfRange         // std::out_of_range
    | InvalidArgument    // std::invalid_argument
    | MissingKey         // nlohmann::json::at on an absent key
    | TypeError          // nlohmann::json conversion from the wrong kind of value
    | OutOfFuel

  datatype Result<+R> = Ok(value: R) | Err(error: Error) {
    predicate IsFailure() {
      Err?
    }

    function PropagateFailure<U>(): Result<U>
      requires Err?
    {
      Err(error)
    }

    function Extract(): R
      requires Ok?
    {
      value
    }
  }
}
