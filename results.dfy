/** Outcomes of the modelled Python code: a value, or the exception it raises. */
module Results {

  /** The Python exceptions the modelled code can raise on its own inputs. */
  datatype Failure =
    | IndexError         // `[0]` of an empty `re.findall`, `[1]` of a too-short split
    | KeyError           // `dict.pop` of a missing key
    | ZeroDivisionError  // dividing by a largest coordinate of 0
    | UnicodeError       // `.encode("ASCII")` of a designator with a non-ASCII character
    | TypeError          // Python 3 comparing two unequal dicts while sorting
    | ReError            // Python 2 `re.error`: a bad `re.sub` replacement template or group reference

  datatype Option<+T> = None | Some(value: T)

  datatype Result<+T> = Ok(value: T) | Err(failure: Failure) {
    predicate IsFailure() { Err? }

    function PropagateFailure<U>(): Result<U>
      requires Err?
    {
      Err(failure)
    }

    function Extract(): T
      requires Ok?
    {
      value
    }
  }
}
