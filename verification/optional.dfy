/** The Some/None datatype used for the error paths of the model. */
module Optional {

  datatype Option<+T> = None | Some(value: T)

}
