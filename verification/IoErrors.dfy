/** Error values a reader can end with. NoError stands for a nil error. */
module IoErrors {
  datatype IoError =
    | NoError
    | EOF
    | UnexpectedEOF
    | UploadTooLarge        // errUploadTooLarge, private to uploadTracker
    | ReadChunkHeader       // the four errors streamDecryptor.fill wraps
    | ReadChunkIV
    | ReadChunkCiphertext
    | DecryptChunk
    | Failure(code: int)    // anything else: network, disk, ...

  /** The two errors that the part loop and the encryptor take for the end of the stream. */
  predicate IsEnd(e: IoError) {
    e == EOF || e == UnexpectedEOF
  }
}
