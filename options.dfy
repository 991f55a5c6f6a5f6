/** The optional value used for every operation of the model that can fail. */
module Options {

  datatype Option<+T> = None | Some(value: T)
}
