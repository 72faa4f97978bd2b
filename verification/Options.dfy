/** An optional value: the model of a nullable column, a missing key or `None`. */
module Options {

  datatype Option<+T> = None | Some(value: T)
}
