/** Failure-carrying values shared by the modules of the project. */
module Common {

  datatype Option<+T> = None | Some(value: T)

  /** A computation that either yields a value or raises one of the source's exceptions. */
  datatype Result<+T, +E> = Ok(value: T) | Err(error: E)

  ghost function SomeOf<T>(s: set<T>): (x: T)
    requires s != {}
    ensures x in s
  {
    var x :| x in s; x
  }

  /** Some element of a set, for loops over collections whose order the source does not fix. */
  method AnyOf<T>(s: set<T>) returns (x: T)
    requires s != {}
    ensures x in s
  {
    x :| x in s;
  }
}
