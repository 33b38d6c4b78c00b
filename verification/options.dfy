/** The optional value used for Go's nil-or-value results (a nil `error`,
    a panicking index). */
module Options {

  datatype Option<+T> = None | Some(value: T)
}
