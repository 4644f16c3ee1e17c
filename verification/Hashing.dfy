/** SHA-256 and HMAC-SHA-256 as arbitrary functions: only their output length is known. */
module Hashing {
  import opened ByteStrings

  ghost predicate Hashes32(f: Bytes -> Bytes) {
    forall d: Bytes :: |f(d)| == 32
  }

  ghost predicate Macs32(f: (Bytes, Bytes) -> Bytes) {
    forall k: Bytes, d: Bytes :: |f(k, d)| == 32
  }

  type Sha256 = f: Bytes -> Bytes | Hashes32(f)
    witness (d: Bytes) => seq(32, i => 0)

  type Hmac256 = f: (Bytes, Bytes) -> Bytes | Macs32(f)
    witness (k: Bytes, d: Bytes) => seq(32, i => 0)
}
