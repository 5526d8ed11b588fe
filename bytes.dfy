/** Byte-level vocabulary shared by every part of the keyboard model. */
module Bytes {

  /** One octet as read from the terminal or written to the uhid device. */
  newtype Byte = x: int | 0 <= x < 256

  datatype Option<+T> = None | Some(value: T)

  /** `n` zero bytes, the padding `memset` leaves behind. */
  function Zeros(n: nat): (z: seq<Byte>)
    ensures |z| == n
    ensures forall i :: 0 <= i < n ==> z[i] == 0
  {
    seq(n, _ => 0)
  }
}
