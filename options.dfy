/** The optional value used where the shell passes `None`. */
module Options {

  datatype Option<T> = None | Some(value: T)
}
