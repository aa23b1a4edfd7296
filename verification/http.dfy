/** The responses the handlers produce. */
module Http {
  import opened Bytes

  datatype Response =
    /** A text/plain response with a status code. */
    | PlainText(status: nat, body: ByteString)
    /** A file served from disk with its Content-Disposition header. */
    | FileDownload(path: ByteString, disposition: ByteString)
    /** A text/html page. */
    | Html(body: ByteString)
}
