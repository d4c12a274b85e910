/** The `Option` and `Result` shapes the library returns from fallible operations. */
module Options {

  datatype Option<+T> = None | Some(value: T)

  datatype Result<+T, +E> = Ok(value: T) | Err(error: E) {
    /** `Result::ok`: forgets the error. */
    function ToOption(): (r: Option<T>)
      ensures r.Some? <==> Ok?
      ensures Ok? ==> r.value == value
    {
      match this
      case Ok(v) => Some(v)
      case Err(_) => None
    }
  }
}
