/** The library calls the protocol code makes: arbitrary total functions, known only by their types. */
module Primitives {
  import opened Bytes

  type Digest = b: Bytes | |b| == 16 witness Zeros(16)

  datatype Primitives = Primitives(
    hmacMd5: (Bytes, Bytes) -> Digest,
    md5: Bytes -> Digest,
    md4: Bytes -> Digest,
    utf16: string -> Bytes,
    utf16Lossy: Bytes -> string,
    uppercase: string -> string,
    isUtf8: Bytes -> bool,
    utf8Lossy: Bytes -> Bytes)
}
