/** Small datatypes shared by all modules. */
module Base {
  datatype Option<+T> = None | Some(value: T)
}
