/** The client side of the channel-encryption handshake (`connect`): read the
    server's encrypt request, answer with the encrypted session key, read the
    server's encrypt result. The code stops there: after decoding the result it
    aborts, so no connection is ever handed back. */
module Handshake {
  import opened LittleEndian
  import opened NetError
  import opened MessageKind
  import opened FrameCodec
  import opened HandshakeBodies

  /** What `generate_session_key` returns: the key and its encrypted form. */
  datatype SessionKey = SessionKey(plain: seq<Byte>, encrypted: seq<Byte>)

  /** The collaborators the handshake relies on: the `EMsg` table, session-key
      generation from the server's nonce, and CRC-32 (IEEE). */
  datatype Env = Env(
    table: EMsgTable,
    sessionKey: seq<Byte> -> SessionKey,
    crc: seq<Byte> -> U32)

  /** `u64::max_value()`: the job id meaning "no job". */
  const NO_JOB: U64 := 0xFFFF_FFFF_FFFF_FFFF

  /** How `connect` ends: with an error, with the panic of `try_from` on a
      payload shorter than the kind code, or with the abort that follows the
      decoded result. */
  datatype ConnectOutcome =
    | Failed(error: NetworkError)
    | PanickedOnShortPayload
    | AbortedAfterResult(result: ChannelEncryptResultBody)

  /** The outcome, the frames written (one entry per write) and the bytes not consumed. */
  datatype Trace = Trace(outcome: ConnectOutcome, writes: seq<seq<Byte>>, rest: seq<Byte>)

  /** The response to a request: no job ids, the request's protocol, the encrypted key. */
  function ResponseTo(request: ChannelEncryptRequestBody, env: Env): ClientEncryptResponse
  {
    ClientEncryptResponse(NO_JOB, NO_JOB, request.protocol, env.sessionKey(request.nonce).encrypted)
  }

  /** The one frame the client writes in answer to a request. */
  function ResponseFrame(request: ChannelEncryptRequestBody, env: Env): seq<Byte>
  {
    EncodeFrame(EncodedResponse(ResponseTo(request, env), env.table.encryptResponse, env.crc))
  }

  /** The handshake over the bytes `s` the server sends, waiting for the
      encrypt request: anything but a 40-byte request body ends it with nothing
      written; otherwise the response is written and the result awaited. */
  function Handshake(s: seq<Byte>, env: Env): (t: Trace)
    ensures |t.writes| <= 1
    ensures |t.rest| <= |s| && t.rest == s[|s| - |t.rest|..]
  {
    var first := ReadMessage(s, env.table);
    match first.resolution
    case Panicked => Trace(PanickedOnShortPayload, [], first.rest)
    case Returned(Err(e)) => Trace(Failed(e), [], first.rest)
    case Returned(Ok(message)) =>
      if message.kind != env.table.encryptRequest then
        Trace(Failed(UnexpectedHandshake("Expected encrypt request")), [], first.rest)
      else if |message.data| != REQUEST_BODY_SIZE then
        Trace(Failed(UnexpectedHandshake("Malformed encrypt request")), [], first.rest)
      else
        var request := DecodeRequestBody(message.data);
        AwaitResult([ResponseFrame(request, env)], first.rest, env)
  }

  /** The handshake once the response frames `written` are sent: the next frame
      must be the encrypt result with a body of at least 20 bytes, after which
      the code aborts. Nothing more is written. */
  function AwaitResult(written: seq<seq<Byte>>, s: seq<Byte>, env: Env): (t: Trace)
    ensures t.writes == written
    ensures |t.rest| <= |s| && t.rest == s[|s| - |t.rest|..]
    ensures t.outcome.AbortedAfterResult? ==> ReadMessage(s, env.table).resolution.Returned?
    ensures t.outcome.AbortedAfterResult? ==> ReadMessage(s, env.table).resolution.result.Ok?
  {
    var second := ReadMessage(s, env.table);
    match second.resolution
    case Panicked => Trace(PanickedOnShortPayload, written, second.rest)
    case Returned(Err(e)) => Trace(Failed(e), written, second.rest)
    case Returned(Ok(message)) =>
      if message.kind != env.table.encryptResult then
        Trace(Failed(UnexpectedHandshake("Expected encrypt result")), written, second.rest)
      else
        match DecodeResultBody(message.data)
        case None => Trace(Failed(UnexpectedHandshake("Invalid encrypt result body")), written, second.rest)
        case Some(result) => Trace(AbortedAfterResult(result), written, second.rest)
  }

  /** `connect`, from the point the connection is open. */
  method Connect(reader: RawReader, writer: RawWriter, env: Env) returns (outcome: ConnectOutcome)
    modifies reader, writer
    ensures outcome == Handshake(old(reader.stream), env).outcome
    ensures writer.sent == old(writer.sent) + Handshake(old(reader.stream), env).writes
    ensures reader.stream == Handshake(old(reader.stream), env).rest
    ensures outcome.AbortedAfterResult?
        ==> reader.buff == ReadFrame(ReadFrame(old(reader.stream)).rest).result.value
  {
    var first := reader.Read(env.table);
    if first.Panicked? {
      return PanickedOnShortPayload;
    }
    if first.result.Err? {
      return Failed(first.result.error);
    }
    if first.result.value.kind != env.table.encryptRequest {
      return Failed(UnexpectedHandshake("Expected encrypt request"));
    }
    var encryptRequest := first.result.value.data;
    if |encryptRequest| != REQUEST_BODY_SIZE {
      return Failed(UnexpectedHandshake("Malformed encrypt request"));
    }
    var request := DecodeRequestBody(encryptRequest);
    var key := env.sessionKey(request.nonce);
    var responseBuf := new ByteVec();
    var response := ClientEncryptResponse(NO_JOB, NO_JOB, request.protocol, key.encrypted);
    Encode(response, env.table.encryptResponse, env.crc, responseBuf);
    assert responseBuf.bytes == EncodedResponse(ResponseTo(request, env), env.table.encryptResponse, env.crc);
    writer.WriteBuff(responseBuf.bytes);
    assert writer.sent == old(writer.sent) + [ResponseFrame(request, env)];
    var second := reader.Read(env.table);
    if second.Panicked? {
      return PanickedOnShortPayload;
    }
    if second.result.Err? {
      return Failed(second.result.error);
    }
    if second.result.value.kind != env.table.encryptResult {
      return Failed(UnexpectedHandshake("Expected encrypt result"));
    }
    var result := DecodeResultBody(second.result.value.data);
    if result.None? {
      return Failed(UnexpectedHandshake("Invalid encrypt result body"));
    }
    return AbortedAfterResult(result.value);
  }

  /** Reading a frame whose payload is the code `c` followed by `body`. */
  lemma ReadCodedFrame(c: I32, body: seq<Byte>, rest: seq<Byte>, table: EMsgTable)
    requires |body| + 4 < U32_LIMIT
    ensures ReadMessage(EncodeFrame(I32LE(c) + body) + rest, table)
         == MessageRead(Returned(TryFrom(I32LE(c) + body, table)), rest)
  {
    FrameRoundTrip(I32LE(c) + body, rest);
  }

  /** A first frame of any other kind ends the handshake before anything is
      written; an unknown code is reported as such. */
  lemma {:induction false} RequestKindRequired(c: I32, body: seq<Byte>, rest: seq<Byte>, env: Env)
    requires env.table.Valid()
    requires |body| + 4 < U32_LIMIT
    requires c != env.table.encryptRequest && c != -env.table.encryptRequest
    ensures var t := Handshake(EncodeFrame(I32LE(c) + body) + rest, env);
      && t.writes == []
      && t.rest == rest
      && t.outcome == Failed(
           if c != I32_MIN && (if c < 0 then -c else c) in env.table.values
           then UnexpectedHandshake("Expected encrypt request")
           else InvalidMessageKind(c))
  {
    ReadCodedFrame(c, body, rest, env.table);
    ResolveCode(c, body, env.table);
  }

  /** A frame carrying the encrypt request's code, of either sign: a body of
      any size but 40 bytes ends the handshake with nothing written; a 40-byte
      body is decoded, answered with exactly one frame, and the result awaited. */
  lemma {:induction false} RequestFrameHandled(c: I32, body: seq<Byte>, next: seq<Byte>, env: Env)
    requires env.table.Valid()
    requires c == env.table.encryptRequest || c == -env.table.encryptRequest
    requires |body| + 4 < U32_LIMIT
    ensures Handshake(EncodeFrame(I32LE(c) + body) + next, env)
         == if |body| != REQUEST_BODY_SIZE
            then Trace(Failed(UnexpectedHandshake("Malformed encrypt request")), [], next)
            else AwaitResult([ResponseFrame(DecodeRequestBody(body), env)], next, env)
  {
    ReadCodedFrame(c, body, next, env.table);
    ResolveCode(c, body, env.table);
  }

  /** The protobuf flag of the request frame plays no part: a request sent
      with a negative code is handled exactly like one sent with a positive code. */
  lemma ProtobufFlagIgnored(body: seq<Byte>, rest: seq<Byte>, env: Env)
    requires env.table.Valid()
    requires |body| + 4 < U32_LIMIT
    ensures Handshake(EncodeFrame(I32LE(-env.table.encryptRequest) + body) + rest, env)
         == Handshake(EncodeFrame(I32LE(env.table.encryptRequest) + body) + rest, env)
  {
    RequestFrameHandled(env.table.encryptRequest, body, rest, env);
    RequestFrameHandled(-env.table.encryptRequest, body, rest, env);
  }

  /** A request body of any size but 40 bytes ends the handshake before anything is written. */
  lemma MalformedRequestRejected(c: I32, body: seq<Byte>, rest: seq<Byte>, env: Env)
    requires env.table.Valid()
    requires |body| + 4 < U32_LIMIT && |body| != REQUEST_BODY_SIZE
    requires c == env.table.encryptRequest || c == -env.table.encryptRequest
    ensures Handshake(EncodeFrame(I32LE(c) + body) + rest, env)
         == Trace(Failed(UnexpectedHandshake("Malformed encrypt request")), [], rest)
  {
    RequestFrameHandled(c, body, rest, env);
  }

  /** A well-formed request frame, of either sign, is answered with exactly one
      frame, the response to it, after which the result is awaited. */
  lemma RequestAnswered(c: I32, request: ChannelEncryptRequestBody, next: seq<Byte>, env: Env)
    requires env.table.Valid()
    requires c == env.table.encryptRequest || c == -env.table.encryptRequest
    requires |request.nonce| == 16
    ensures Handshake(EncodeFrame(I32LE(c) + EncodeRequestBody(request)) + next, env)
         == AwaitResult([ResponseFrame(request, env)], next, env)
  {
    RequestFrameHandled(c, EncodeRequestBody(request), next, env);
    RequestRoundTrip(request);
  }

  /** Awaiting the result: a frame of another known kind, or a result body
      shorter than 20 bytes, fails the handshake; otherwise the first 20 bytes
      of the body are decoded, the rest are not looked at, and the code aborts. */
  lemma {:induction false} ResultAwaited(
    written: seq<seq<Byte>>, c: I32, body: seq<Byte>, rest: seq<Byte>, env: Env)
    requires env.table.Valid()
    requires |body| + 4 < U32_LIMIT
    requires c != I32_MIN && (if c < 0 then -c else c) in env.table.values
    ensures AwaitResult(written, EncodeFrame(I32LE(c) + body) + rest, env)
         == Trace(
              if c != env.table.encryptResult && c != -env.table.encryptResult
              then Failed(UnexpectedHandshake("Expected encrypt result"))
              else if |body| < RESULT_BODY_SIZE
              then Failed(UnexpectedHandshake("Invalid encrypt result body"))
              else AbortedAfterResult(DecodeResultBody(body[..RESULT_BODY_SIZE]).value),
              written, rest)
  {
    ReadCodedFrame(c, body, rest, env.table);
    ResolveCode(c, body, env.table);
    if |body| >= RESULT_BODY_SIZE {
      ResultIgnoresTrailing(body);
    }
  }

  /** Awaiting the result: a result frame, of either sign, with a body of at
      least 20 bytes is decoded from its first 20 bytes and the code aborts. */
  lemma ResultAccepted(
    written: seq<seq<Byte>>, c: I32, body: seq<Byte>, rest: seq<Byte>, env: Env)
    requires env.table.Valid()
    requires c == env.table.encryptResult || c == -env.table.encryptResult
    requires RESULT_BODY_SIZE <= |body| && |body| + 4 < U32_LIMIT
    ensures AwaitResult(written, EncodeFrame(I32LE(c) + body) + rest, env)
         == Trace(AbortedAfterResult(DecodeResultBody(body[..RESULT_BODY_SIZE]).value), written, rest)
  {
    assert c != I32_MIN && (if c < 0 then -c else c) == env.table.encryptResult;
    ResultAwaited(written, c, body, rest, env);
  }

  /** The whole exchange: a well-formed request is answered with exactly one
      frame, the response to it; the result frame is read and decoded, and the
      handshake aborts. Bytes after the first 20 of the result body are not looked at. */
  lemma FullExchange(
    c1: I32, request: ChannelEncryptRequestBody,
    c2: I32, resultBody: seq<Byte>,
    rest: seq<Byte>, env: Env)
    requires env.table.Valid()
    requires c1 == env.table.encryptRequest || c1 == -env.table.encryptRequest
    requires c2 == env.table.encryptResult || c2 == -env.table.encryptResult
    requires |request.nonce| == 16
    requires RESULT_BODY_SIZE <= |resultBody| && |resultBody| + 4 < U32_LIMIT
    ensures Handshake(
              EncodeFrame(I32LE(c1) + EncodeRequestBody(request))
              + (EncodeFrame(I32LE(c2) + resultBody) + rest), env)
         == Trace(AbortedAfterResult(DecodeResultBody(resultBody[..RESULT_BODY_SIZE]).value),
                  [ResponseFrame(request, env)], rest)
  {
    RequestAnswered(c1, request, EncodeFrame(I32LE(c2) + resultBody) + rest, env);
    ResultAccepted([ResponseFrame(request, env)], c2, resultBody, rest, env);
  }

  /** Whatever the server sends, the client writes at most one frame, and only
      after a first frame that resolves to the encrypt request with a 40-byte
      body; that frame is the response to that request. */
  lemma {:induction false} WritesOnlyTheResponse(s: seq<Byte>, env: Env)
    requires Handshake(s, env).writes != []
    ensures ReadFrame(s).result.Ok?
    ensures |ReadFrame(s).result.value| == 4 + REQUEST_BODY_SIZE
    ensures TryFrom(ReadFrame(s).result.value, env.table).Ok?
    ensures TryFrom(ReadFrame(s).result.value, env.table).value.kind == env.table.encryptRequest
    ensures Handshake(s, env).writes
         == [ResponseFrame(DecodeRequestBody(ReadFrame(s).result.value[4..]), env)]
  {
    var first := ReadMessage(s, env.table);
    var p := ReadFrame(s).result.value;
    assert first.resolution == Returned(TryFrom(p, env.table));
  }

  /** The response frame's header: its length is the encoded response size,
      36 bytes plus the encrypted key, and it carries the magic; the payload is
      the encoded response. */
  lemma ResponseFrameHeader(request: ChannelEncryptRequestBody, env: Env)
    requires |env.sessionKey(request.nonce).encrypted| + 36 < U32_LIMIT
    ensures |ResponseFrame(request, env)| == HEADER_SIZE + 36 + |env.sessionKey(request.nonce).encrypted|
    ensures ParseHeader(ResponseFrame(request, env)[..HEADER_SIZE])
         == Header(36 + |env.sessionKey(request.nonce).encrypted|, MAGIC)
    ensures ResponseFrame(request, env)[HEADER_SIZE..]
         == EncodedResponse(ResponseTo(request, env), env.table.encryptResponse, env.crc)
  {
    var payload := EncodedResponse(ResponseTo(request, env), env.table.encryptResponse, env.crc);
    var k := |env.sessionKey(request.nonce).encrypted|;
    assert |payload| == 36 + k && |payload| % U32_LIMIT == 36 + k;
    FrameHeaderOfPayload(payload);
  }

  /** A first frame whose payload is shorter than the 4-byte kind code makes
      `try_from` panic before anything is written. */
  lemma ShortRequestPanics(payload: seq<Byte>, rest: seq<Byte>, env: Env)
    requires |payload| < 4
    ensures Handshake(EncodeFrame(payload) + rest, env) == Trace(PanickedOnShortPayload, [], rest)
  {
    FrameRoundTrip(payload, rest);
  }

  /** A result frame whose payload is shorter than the 4-byte kind code makes
      `try_from` panic; the response is already written by then. */
  lemma ShortResultPanics(written: seq<seq<Byte>>, payload: seq<Byte>, rest: seq<Byte>, env: Env)
    requires |payload| < 4
    ensures AwaitResult(written, EncodeFrame(payload) + rest, env)
         == Trace(PanickedOnShortPayload, written, rest)
  {
    FrameRoundTrip(payload, rest);
  }

  /** A well-formed request followed by a frame with a short payload: the
      response is written, then the client panics. */
  lemma PanicAfterResponse(
    c: I32, request: ChannelEncryptRequestBody, payload: seq<Byte>, rest: seq<Byte>, env: Env)
    requires env.table.Valid()
    requires c == env.table.encryptRequest || c == -env.table.encryptRequest
    requires |request.nonce| == 16 && |payload| < 4
    ensures Handshake(
              EncodeFrame(I32LE(c) + EncodeRequestBody(request))
              + (EncodeFrame(payload) + rest), env)
         == Trace(PanickedOnShortPayload, [ResponseFrame(request, env)], rest)
  {
    RequestAnswered(c, request, EncodeFrame(payload) + rest, env);
    ShortResultPanics([ResponseFrame(request, env)], payload, rest, env);
  }

  /** A first read that fails (the stream ends early, or the magic is wrong)
      ends the handshake with that same error, nothing written, and the bytes
      the frame read left. */
  lemma FirstReadFailed(s: seq<Byte>, env: Env)
    requires ReadFrame(s).result.Err?
    ensures Handshake(s, env) == Trace(Failed(ReadFrame(s).result.error), [], ReadFrame(s).rest)
  {
  }

  /** Once the response is written, a read error on the next message, from
      the frame or from resolving its kind, ends the handshake with that same
      error; the frames written stay written. */
  lemma SecondReadFailed(written: seq<seq<Byte>>, s: seq<Byte>, e: NetworkError, env: Env)
    requires ReadMessage(s, env.table).resolution == Returned(Err(e))
    ensures AwaitResult(written, s, env) == Trace(Failed(e), written, ReadFrame(s).rest)
  {
  }

  /** A result frame whose code is not a known kind is reported with that code. */
  lemma {:induction false} UnknownResultCodeReported(
    written: seq<seq<Byte>>, c: I32, body: seq<Byte>, rest: seq<Byte>, env: Env)
    requires env.table.Valid()
    requires |body| + 4 < U32_LIMIT
    requires c == I32_MIN || (if c < 0 then -c else c) !in env.table.values
    ensures AwaitResult(written, EncodeFrame(I32LE(c) + body) + rest, env)
         == Trace(Failed(InvalidMessageKind(c)), written, rest)
  {
    ReadCodedFrame(c, body, rest, env.table);
    ResolveCode(c, body, env.table);
    SecondReadFailed(written, EncodeFrame(I32LE(c) + body) + rest, InvalidMessageKind(c), env);
  }
}
