/** Failure-aware results for the simulator model.

    The simulator raises Python exceptions (KeyError, IndexError, AttributeError)
    and, on a zero divisor inside numpy arithmetic, produces IEEE infinities.
    The model turns every such event into an explicit `Fault`.
 */
module Outcomes {

  /** A missing table cell or an optional attribute. */
  datatype Option<+T> = None | Some(value: T) {

    /** The value, or `fault` when there is none. */
    function ToResult(fault: Fault): (r: Result<T>)
      ensures r.Ok? <==> Some?
      ensures Some? ==> r == Ok(value)
      ensures None? ==> r == Err(fault)
    {
      if Some? then Ok(value) else Err(fault)
    }
  }

  /** Why an operation of the simulator stops. */
  datatype Fault =
    | KeyMissing(key: string)        // KeyError on a dict lookup
    | IndexOutOfRange                // IndexError on a list or array
    | DivisionByZero                 // a zero divisor (ZeroDivisionError or an IEEE infinity)
    | AttributeMissing(attr: string) // AttributeError on a method call
    | MissingTemperature             // a temperature axis with an empty cell

  /** Either a value or the fault that stopped its computation; usable with `:-`. */
  datatype Result<+T> = Ok(value: T) | Err(fault: Fault) {

    predicate IsFailure() {
      Err?
    }

    function PropagateFailure<U>(): Result<U>
      requires Err?
    {
      Err(fault)
    }

    function Extract(): T
      requires Ok?
    {
      value
    }
  }
}
