/** An optional value: `None` stands for Go's `nil` (no error, no index found). */
module Options {

  datatype Option<+T> = None | Some(value: T)

}
