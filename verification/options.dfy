/** The optional value used wherever the application code returns `nil`. */
module Options {

  datatype Option<+T> = None | Some(value: T) {

    /** Ruby's `a || b` on two lookups: the first present value wins, and the
        second is only looked at when the first is absent. */
    function OrElse(other: Option<T>): (r: Option<T>)
      ensures Some? ==> r == this
      ensures None? ==> r == other
    {
      match this
      case Some(_) => this
      case None => other
    }
  }
}
