/** A value that may be missing. It stands for JavaScript's `undefined` where an
    array is expected, and for `NaN` where a character code is expected. */
module Optional {

  datatype Option<T> = Missing | Present(value: T) {

    /** The value if present, `fallback` otherwise: JavaScript's `x || fallback`
        for an `x` that is either an array or `undefined`. */
    function ValueOr(fallback: T): T {
      if Present? then value else fallback
    }
  }
}
