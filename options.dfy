/** A value that may be absent: Python's `None` result of a failed search,
    and Java's `null` for a reference-typed field or argument. */
module Options {

  datatype Option<+T> = None | Some(value: T)

}
