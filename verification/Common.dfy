/** Types that several of the modules share. */
module Common {
  datatype Option<T> = None | Some(value: T)

  type Byte = b: nat | b < 256
}
