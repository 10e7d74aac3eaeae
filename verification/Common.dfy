/** Types that several modules share. */
module Common {
  datatype Option<T> = None | Some(value: T)

  type byte = x: int | 0 <= x < 256
}
