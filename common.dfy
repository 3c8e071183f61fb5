/** Option and Result values, and the helpers for loops over sets, shared by the modules of this model. */
module Common {

  datatype Option<T> = None | Some(value: T)

  /** The outcome of an operation that the source may abort with an exception. */
  datatype Result<T, E> = Ok(value: T) | Err(error: E)

  /** Some element of a non-empty set, the way a loop over a Python set or dict reaches its next key. */
  method Pick<T>(s: set<T>) returns (x: T)
    requires s != {}
    ensures x in s
  {
    x :| x in s;
  }

  /** Some element of a non-empty set, always the same one, for definitions and proofs. */
  ghost function Choose<T>(s: set<T>): (x: T)
    requires s != {}
    ensures x in s
  {
    var x :| x in s;
    x
  }

  /** Moving the element a loop picked from the elements still to visit to those visited. */
  lemma Visit<T>(all: set<T>, todo: set<T>, done: set<T>, y: T)
    requires todo <= all && done == all - todo && y in todo
    ensures todo - {y} <= all && done + {y} == all - (todo - {y}) && y !in done
  {
  }

  /** A loop over a set that has nothing left to visit has visited all of it. */
  lemma VisitedAll<T>(all: set<T>, todo: set<T>, done: set<T>)
    requires todo == {} && done == all - todo
    ensures done == all
  {
  }
}
