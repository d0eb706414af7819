/** Swift's optional values (`T?`): either `nil` or a wrapped value. */
module Optional {

  datatype Option<+T> = None | Some(value: T)
}
