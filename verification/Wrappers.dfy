/** Failure-carrying results for the source's exceptions and error returns. */
module Wrappers {
  datatype Option<+T> = None | Some(value: T)

  datatype Result<+T, +E> = Ok(value: T) | Err(error: E) {
    predicate IsFailure() {
      Err?
    }

    function PropagateFailure<U>(): Result<U, E>
      requires Err?
    {
      Err(error)
    }

    function Extract(): T
      requires Ok?
    {
      value
    }
  }

  /** What a loop has collected, in front of what the recursive specification still yields. */
  function Joined<T>(front: seq<T>, rest: Option<seq<T>>): Option<seq<T>> {
    if rest.None? then None else Some(front + rest.value)
  }

  lemma JoinedMore<T>(front: seq<T>, x: T, rest: Option<seq<T>>)
    ensures Joined(front, Joined([x], rest)) == Joined(front + [x], rest)
  {
    assert rest.Some? ==> front + ([x] + rest.value) == (front + [x]) + rest.value;
  }

  lemma JoinedEnds<T>(front: seq<T>)
    ensures Joined(front, Some([])) == Some(front) && Joined(front, None) == None
  {
    assert front + [] == front;
  }

  lemma JoinedStart<T>(rest: Option<seq<T>>)
    ensures Joined([], rest) == rest
  {
    assert rest.Some? ==> [] + rest.value == rest.value;
  }
}
