// Error kinds and failure-carrying values shared by the codec.

module Results {

  /** The ValueError conditions raised by the codec, one constructor per cause. */
  datatype Error =
    | PayloadTooLarge   // build_header: payload length >= 2^32
    | NoCarriers        // encode_dense: host text is all whitespace
    | HeaderMissing     // decode_dense / parse_header: fewer than 40 hidden bits
    | PayloadTruncated  // decode_dense: fewer bits than the header's length asks for
    | CorruptPayload    // decode_dense: the compressed flag is set and decompression fails
    | MalformedBits     // bits_to_bytes: bit string length not a multiple of 8

  datatype Option<T> = None | Some(value: T)

  datatype Result<T> = Ok(value: T) | Err(error: Error)
}
