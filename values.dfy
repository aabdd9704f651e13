/** Values shared by every enricher: optional values, the errors Python raises
    on malformed records, and the identity triple handed to the identity
    directory. */
module Values {

  /** `None` is Python's `None` (or a missing value); `Some` carries a value. */
  datatype Option<+T> = None | Some(value: T) {
    function GetOr(default: T): T {
      match this
      case Some(v) => v
      case None => default
    }
  }

  /** The exceptions the modelled code raises on input it cannot handle. */
  datatype Error =
    | KeyError(key: string)          // `d[key]` on a dict without that key
    | TypeError(what: string)        // an operation applied to `None` or to a value of the wrong type
    | IndexError(what: string)       // `xs[i]` past the end of a list
    | AttributeError(name: string)   // reading an attribute that was never set
    | DateError                      // a date conversion on text of the wrong form: `str_to_datetime` on non-ISO text, `unixtime_to_datetime` on ISO text
    | StopIteration                  // `next(it)` on an exhausted iterator

  /** The outcome of a computation that may raise one of the errors above. */
  datatype Result<+T> = Success(value: T) | Failure(error: Error) {
    predicate IsFailure() {
      Failure?
    }

    function PropagateFailure<U>(): Result<U>
      requires Failure?
    {
      Failure(error)
    }

    function Extract(): T
      requires Success?
    {
      value
    }
  }

  /** The identity dict `{username, email, name}` given to SortingHat. */
  datatype Identity = Identity(username: Option<string>, email: Option<string>, name: Option<string>)

  /** Python's `d[key]`: the value, or a KeyError. */
  function Lookup<V>(d: map<string, V>, key: string): (r: Result<V>)
    ensures r.Success? <==> key in d
    ensures r.Success? ==> r.value == d[key]
    ensures r.Failure? ==> r.error == KeyError(key)
  {
    if key in d then Success(d[key]) else Failure(KeyError(key))
  }

  /** Python truthiness of an optional string: not `None` and not empty. */
  predicate Truthy(s: Option<string>) {
    s.Some? && s.value != ""
  }
}
