/** The optional value the build script writes as `null` / `undefined`. */
module Options {

  datatype Option<+T> = None | Some(value: T)
}
