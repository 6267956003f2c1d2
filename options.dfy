/** The optional value used throughout the model: JavaScript's `undefined` and SQL's NULL are `None`. */
module Options {
  datatype Option<+T> = None | Some(value: T)
}
