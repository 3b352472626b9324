/** Outcome types shared by the estimator: an optional value and a result that
    carries the exception the Python code would have raised. */
module Results {

  datatype Option<+T> = None | Some(value: T)

  /** The exceptions the estimator can raise on its own inputs. */
  datatype Failure =
    | UnknownCode     // KeyError: the code name is not in the library
    | DivisionByZero  // ZeroDivisionError: n / k with k == 0
    | NotANumber      // ValueError: int() of the NaN that sqrt gives for n / k < 0

  datatype Result<+T> = Ok(value: T) | Err(error: Failure)
}
