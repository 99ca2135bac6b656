/** Bytes as bit vectors, and 16-byte cipher blocks. */
module Octets {
  type Octet = bv8

  type Block = s: seq<Octet> | |s| == 16 witness seq(16, _ => 0)
}
