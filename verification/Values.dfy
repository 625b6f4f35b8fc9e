/**
 Small types that several modules share.
 */
module Values {

  type Byte = x: int | 0 <= x < 256

  datatype Option<T> = None | Some(value: T)
}
