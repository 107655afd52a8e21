/** The optional value used where the C code returns either a pointer or NULL. */
module Options {

  datatype Option<+T> = None | Some(value: T)

}
