/** Types shared by every component. */
module Common {
  type Byte = n: nat | n < 0x100
  type Bytes = seq<Byte>

  datatype Option<+T> = None | Some(value: T)
}
