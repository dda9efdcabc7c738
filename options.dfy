/** The optional value used where the program can run out of input. */
module Options {

  datatype Option<T> = None | Some(value: T)
}
