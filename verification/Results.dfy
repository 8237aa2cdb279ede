/**
 The library reports errors by throwing exceptions. Here a throwing operation returns
 a `Result`, and `Error` names the exception classes and failed assertions.
 */
module Results {

  datatype Error =
    | DomainError       // std::domain_error
    | OutOfRange        // std::out_of_range
    | InvalidArgument   // std::invalid_argument
    | LengthError       // std::length_error, from growing an array to an absurd size
    | AssertionFailure  // assert(false) in the source
    | Undefined         // undefined behaviour: nothing is promised from here on
    | NotModelled       // a branch that this model leaves out (see README)

  datatype Result<+T> = Ok(value: T) | Err(error: Error) {

    predicate IsFailure() {
      Err?
    }

    function PropagateFailure<U>(): Result<U>
      requires Err?
    {
      Err(error)
    }

    function Extract(): T
      requires Ok?
    {
      value
    }
  }

  /** What comes before a list that is still to be computed. */
  function Prepend<T>(front: seq<T>, r: Result<seq<T>>): Result<seq<T>> {
    if r.Ok? then Ok(front + r.value) else r
  }

  lemma PrependNothing<T>(r: Result<seq<T>>)
    ensures Prepend([], r) == r
  {
    if r.Ok? { assert [] + r.value == r.value; }
  }

  lemma PrependPrepend<T>(a: seq<T>, b: seq<T>, r: Result<seq<T>>)
    ensures Prepend(a, Prepend(b, r)) == Prepend(a + b, r)
  {
    if r.Ok? { assert a + (b + r.value) == (a + b) + r.value; }
  }

  datatype Option<+T> = None | Some(value: T)
}
