/** The optional result used where the source returns a null pointer. */
module Options {

  datatype Option<+T> = None | Some(value: T)
}
