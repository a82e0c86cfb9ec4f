/** An optional value: what the original signals by an exception or an absent field is None. */
module Options {

  datatype Option<T> = None | Some(value: T)
}
