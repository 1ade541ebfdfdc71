/** The hash functions of the library, of which nothing is known but the length of the digest. */
module Hashes {
  import opened Positional

  type Digest64 = d: seq<byte> | |d| == 64 witness Zeros(64)

  type Digest20 = d: seq<byte> | |d| == 20 witness Zeros(20)

  type Hash512 = seq<byte> -> Digest64

  type Hash160 = seq<byte> -> Digest20
}
