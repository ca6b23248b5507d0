/** Small value types shared by the modules of this model. */
module Common {

  /** An optional value, used where the source returns a null pointer. */
  datatype Option<T> = None | Some(value: T)

  /** An unsigned octet: one `char` of a buffer, or an 8-bit field. */
  newtype byte = x: int | 0 <= x < 0x100
}
