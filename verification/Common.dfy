// Shared vocabulary: the byte type of the C sources and the usual Option.
module Common {

  /** The C type `uchar`. */
  type Byte = x: int | 0 <= x < 256

  /** The C type `uint16`. */
  type UInt16 = x: int | 0 <= x < 0x1_0000

  datatype Option<+T> = None | Some(value: T)

}
