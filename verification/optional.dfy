/** The optional values the controller passes around: Swift's `T?`. */
module Optional {

  datatype Option<+T> = None | Some(value: T)
}
