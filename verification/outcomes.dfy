/** Optional values and the success-or-crash outcome of a classification.

    The detector is Java code: a few of its paths dereference a lookup that
    may be null, cast an element to a class it may not have, or index past
    the end of an array. Each of those throws, and the exception leaves
    `detect` altogether. `Result` makes that outcome explicit: `Crash`
    carries the kind of exception, and `:-` propagates it exactly as the
    exception would propagate. */
module Outcomes {

  datatype Option<+T> = None | Some(value: T)

  /** The Java exception a crashing path raises. */
  datatype Fault =
    | ClassCast          // a cast to a class the element does not have
    | NullDereference    // a method called on a null lookup result
    | IndexOutOfBounds   // an array indexed past its end

  datatype Result<+T> = Ok(value: T) | Crash(fault: Fault) {

    predicate IsFailure() {
      Crash?
    }

    function PropagateFailure<U>(): Result<U>
      requires Crash?
    {
      Crash(fault)
    }

    function Extract(): T
      requires Ok?
    {
      value
    }
  }

  /** A lookup whose result is dereferenced: `None` is a null dereference. */
  function Deref<T>(o: Option<T>): (r: Result<T>)
    ensures r.Ok? <==> o.Some?
    ensures r.Ok? ==> r.value == o.value
    ensures r.Crash? ==> r.fault == NullDereference
  {
    match o
    case Some(v) => Ok(v)
    case None => Crash(NullDereference)
  }
}
