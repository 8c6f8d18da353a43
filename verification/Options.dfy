/** An absent or a present value: null, undefined, or a value. */
module Options {
  datatype Option<T> = None | Some(value: T)
}
