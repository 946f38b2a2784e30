/** A value the original code may lack: an `undefined` field, a `null`
    result or a missing map key. */
module Optional {

  datatype Option<+T> = None | Some(value: T) {

    /** What JavaScript's `x || fallback` yields for an `x` that, when
        present, is never falsy. */
    function ValueOr(fallback: T): T {
      if Some? then value else fallback
    }
  }
}
