/** The result types shared by the whole model: the error every fallible
    network operation returns, `Result`, and `Option` for decoders that can
    only fail one way. */
module NetError {
  import opened LittleEndian

  datatype NetworkError =
    | IO                                  // the transport failed or ended early
    | InvalidHeader                       // a frame header carried the wrong magic
    | InvalidMessageKind(code: I32)       // the payload's leading code is not a known kind
    | UnexpectedHandshake(reason: string) // the peer deviated from the handshake

  datatype Result<T> = Ok(value: T) | Err(error: NetworkError)

  datatype Option<T> = None | Some(value: T)
}
