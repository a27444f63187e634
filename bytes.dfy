/** Octets, the unit `base64::encode` and a Rust `String`'s storage work on. */
module Bytes {

  type Byte = b: int | 0 <= b < 0x100
}
