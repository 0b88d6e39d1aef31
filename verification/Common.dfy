/** Types that several modules share. */
module Common {

  type Byte = n: nat | n < 256

  datatype Option<T> = None | Some(value: T)
}
