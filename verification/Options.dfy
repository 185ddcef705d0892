/** The one container every part of the model shares. */
module Options {
  datatype Option<+T> = None | Some(value: T)
}
