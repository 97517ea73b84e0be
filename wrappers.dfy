/** The `Option` and `Result` types of the Rust code. */
module Wrappers {

  /** An optional value, as Rust's `Option`. */
  datatype Option<+T> = None | Some(value: T)

  /** A value of type `T`, or an error of type `E`. */
  datatype Result<+T, +E> = Ok(value: T) | Err(error: E) {

    /** Applies `f` to the error and keeps a success value untouched, like Rust's `map_err`. */
    function MapErr<E2>(f: E -> E2): (r: Result<T, E2>)
      ensures r.Ok? <==> this.Ok?
      ensures r.Ok? ==> r.value == this.value
      ensures r.Err? ==> r.error == f(this.error)
    {
      match this
      case Ok(v) => Ok(v)
      case Err(e) => Err(f(e))
    }
  }
}
