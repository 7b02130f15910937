/** Datatypes for Go's multiple return values and its error result. */
module Results {

  /** `(value, ok)`: what Find, First, Last and FindKey return. */
  datatype Lookup<T> = Lookup(value: T, ok: bool)

  /** `(item, index, ok)`: what FindIndexOf and FindLastIndexOf return. */
  datatype Hit<T> = Hit(item: T, index: int, ok: bool)

  datatype Option<T> = None | Some(value: T)

  /** The error Nth reports, carrying the requested index. */
  datatype NthError = OutOfBounds(index: int)

  /** `(value, err)`: what Nth returns; `err` is `None` for Go's nil error. */
  datatype Fetched<T> = Fetched(value: T, err: Option<NthError>)
}
