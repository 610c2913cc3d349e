/** The TLS layer as seen by the protocol handlers: an identity pipe. */
module Tls {
  import opened Bytes

  // The most that one read delivers.
  const TEMP_BUFFER_SIZE: nat := 4096

  // What a read answers: octets, nothing yet, or a failure.
  datatype TlsRead = Delivered(bytes: seq<byte>) | Again | TlsFailed
}
