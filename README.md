# steam-vent network core, in Dafny

This project models the network layer of the steam-vent client (`src/net.rs`).
It covers four parts of the code and two behaviours of `connect`:

- **Frame codec.** Every message travels as an 8-byte header followed by a
  payload. The header holds the payload length as a little-endian `u32`, then
  the magic `"VT01"`.
  - `RawSteamReader` is modelled as the class `FrameCodec.RawReader`. Its
    `stream` field holds the bytes the peer has sent that are not yet consumed.
    Its `buff` field is the reused receive buffer.
  - `RawSteamWriter` is modelled as `FrameCodec.RawWriter`. Its `sent` field
    records each frame handed to the connection, one entry per write.
  - The methods `ReadBuff`, `Read` and `WriteBuff` are proved against the pure
    functions `ReadFrame`, `ReadMessage` and `EncodeFrame`.
- **Message-kind resolver.** The first four payload bytes are a signed
  little-endian code. Its sign is the protobuf flag and its magnitude names an
  `EMsg`.
- **Handshake bodies.** The 40-byte encrypt request and the encrypt result,
  whose first 20 bytes are read, are decoded. The client's encrypt response is
  encoded through a growable byte vector (`LittleEndian.ByteVec`).
- **Handshake.** `connect` is modelled from the point where the connection is
  open. The method `Handshake.Connect` is proved against the function
  `Handshake.Handshake`, which maps the server's bytes to three things:
  - the outcome;
  - the frames the client wrote;
  - the bytes left unread.
- **Abort at the end.** After decoding the result the code aborts, so no
  connection is ever returned. The model's last state is therefore
  `AbortedAfterResult`. There is no "established" state.
- **Panic on a short payload.** `read` resolves every payload with `try_from`
  as written. A frame whose payload is shorter than the 4-byte kind code makes
  it panic, and the handshake then ends in `PanickedOnShortPayload`. For the
  result frame this happens after the response has been written (see
  "## Findings").

Collaborators appear as parameters of `Handshake.Env`:

- the `EMsg` enumeration, as a table of known codes with the three handshake
  codes named;
- `generate_session_key`;
- CRC-32.

An `EMsg` is identified with its numeric value.

Integers are unbounded, so widths are written out explicitly:

- the frame length and the key length are cut to 32 bits (`as u32`);
- codes are two's-complement `i32`;
- `i32::MIN.abs()` wraps to `i32::MIN`, as in a release build. That code is
  then not a known kind and is reported as `InvalidMessageKind(i32::MIN)`.

Two details of the response encoding:

- The response leads with the response kind's code as `value()` gives it, not
  negated (`src/net.rs:233`).
- The response buffer is 36 bytes plus the encrypted key, as its capacity at
  `src/net.rs:195` says.

## Model

| member | source | states |
|---|---|---|
| LittleEndian.FromToLE | src/net.rs:129 | Decoding the `n` little-endian bytes of a value below 256^n gives the value back |
| LittleEndian.ToFromLE | src/net.rs:103 | Re-encoding a decoded byte string gives the same bytes |
| LittleEndian.U32RoundTrip | src/net.rs:129 | `write_u32::<LittleEndian>` followed by a little-endian `u32` read gives the value back |
| LittleEndian.U32BytesRoundTrip | src/net.rs:103 | Every 4 bytes are the `u32` encoding of what they read as |
| LittleEndian.U64RoundTrip | src/net.rs:234-235 | A `u64` written little-endian reads back as itself |
| LittleEndian.U64BytesRoundTrip | src/net.rs:141-148 | Every 8 bytes are the `u64` encoding of what they read as |
| LittleEndian.I32RoundTrip | src/net.rs:73-77 | An `i32` written in two's complement reads back through `i32::from_le_bytes` as itself, negative values included |
| LittleEndian.I32BytesRoundTrip | src/net.rs:73-77 | Every 4 bytes are the two's-complement encoding of the `i32` they read as |
| LittleEndian.I32SignBit | src/net.rs:79 | A little-endian `i32` is negative exactly when the top bit of its fourth byte is set |
| LittleEndian.ByteVec.WriteU32 | src/net.rs:129 | Writing a `u32` appends exactly its 4 little-endian bytes |
| LittleEndian.ByteVec.WriteU64 | src/net.rs:234 | Writing a `u64` appends exactly its 8 little-endian bytes |
| LittleEndian.ByteVec.WriteI32 | src/net.rs:233 | Writing an `i32` appends exactly its 4 two's-complement bytes |
| LittleEndian.ByteVec.WriteAll | src/net.rs:130-131 | `write_all` on a vector appends the data unchanged |
| FrameCodec.Header.Validate | src/net.rs:52-60 | A header is rejected with `InvalidHeader` exactly when its magic is not "VT01"; the length plays no part |
| FrameCodec.ParseHeader | src/net.rs:45-50 | Reading the 8 header bytes yields a 4-byte magic |
| FrameCodec.EncodeFrame | src/net.rs:128-131 | A frame is 8 bytes longer than its payload, with the magic at bytes 4..8 and the payload after it |
| FrameCodec.FrameHeaderOfPayload | src/net.rs:128-131 | The header of a written frame reads back as the payload length cut to 32 bits, with the magic |
| FrameCodec.ReadFrame | src/net.rs:100-111 | Reading a frame consumes a prefix of the stream; on success the stream is the header, the payload and the rest. It fails with `InvalidHeader` exactly when the header is complete and its magic is wrong, and with `IO` exactly when the stream ends before the header or before the payload it announces |
| FrameCodec.FrameRoundTrip | src/net.rs:100-111 | Reading a written frame, with any bytes after it, gives back the payload and leaves exactly those bytes |
| FrameCodec.FrameReadSound | src/net.rs:100-111 | Every successfully read frame is the encoding of its payload, followed by the rest of the stream |
| FrameCodec.WrongMagicRejected | src/net.rs:102-104 | A header with the wrong magic is rejected whatever its length says, and nothing after the header is consumed |
| FrameCodec.Resize | src/net.rs:108 | `BytesMut::resize` to `n` keeps the first `n` bytes and zero-fills any growth |
| FrameCodec.ReadMessage | src/net.rs:113-115 | Reading a message consumes exactly what reading its frame does. A frame error (`IO`, `InvalidHeader`) is returned unchanged. A payload shorter than 4 bytes panics. Any other payload resolves as `try_from` does |
| FrameCodec.RawReader.ReadBuff | src/net.rs:100-111 | `read_buff` returns what `ReadFrame` gives on the stream and leaves its rest. On success the buffer holds the payload. A short header or a bad magic leaves the buffer as it was. A short payload leaves the buffer resized to the header's length, with the bytes that did arrive at its start |
| FrameCodec.RawReader.Read | src/net.rs:113-115 | `read` resolves, panics or fails as `ReadMessage` does on the stream and consumes the same bytes. Whenever the frame was read, the buffer holds its payload, which the returned message borrows |
| FrameCodec.RawWriter.WriteBuff | src/net.rs:123-138 | `write_buff` hands the connection exactly one write: the encoded frame of the data |
| MessageKind.WrappingAbs | src/net.rs:81 | `abs` of `i32::MIN` wraps to `i32::MIN`; otherwise the result is non-negative and equals the code or its negation |
| MessageKind.TryFrom | src/net.rs:72-91 | The corrected resolver: a payload shorter than 4 bytes fails with `InvalidMessageKind(0)`; every error is an `InvalidMessageKind`; on success the body is the payload after the 4-byte code |
| MessageKind.TryFromAsWritten | src/net.rs:72-91 | The resolver as written, which `read` uses, panics exactly on payloads shorter than 4 bytes and otherwise behaves as `TryFrom` |
| MessageKind.ShortPayloadPanics | src/net.rs:73-77 | The 2-byte payload `[1, 0]` makes the code as written panic, where the corrected resolver reports `InvalidMessageKind(0)` |
| MessageKind.ResolveCode | src/net.rs:72-91 | A payload led by code `c` resolves exactly when `c` is not `i32::MIN` and `abs(c)` is a known kind. The result then has kind `abs(c)`, protobuf flag `c < 0` and the rest of the payload as body. Otherwise it fails with `InvalidMessageKind(c)` |
| MessageKind.ProtobufFlagIsTopBit | src/net.rs:79 | The protobuf flag of a resolved message is the top bit of the fourth payload byte |
| HandshakeBodies.DecodeRequestBody | src/net.rs:141-148 | Decoding a request body yields a 16-byte nonce |
| HandshakeBodies.EncodeRequestBody | src/net.rs:141-148 | A request body takes exactly 40 bytes |
| HandshakeBodies.RequestRoundTrip | src/net.rs:189-191 | A request body decodes to what was encoded |
| HandshakeBodies.RequestBytesRoundTrip | src/net.rs:183-191 | Every 40-byte body is the encoding of what it decodes to, so the decode after the size check cannot fail |
| HandshakeBodies.RequestFieldsInPayload | src/net.rs:189-199 | In a request payload, the protocol echoed in the response is the `u32` at bytes 20..24 and the nonce is bytes 28..44 |
| HandshakeBodies.DecodeResultBody | src/net.rs:215-217 | Decoding a result body succeeds exactly when it has at least 20 bytes |
| HandshakeBodies.EncodeResultBody | src/net.rs:150-155 | A result body takes exactly 20 bytes |
| HandshakeBodies.ResultRoundTrip | src/net.rs:215-217 | A result body decodes to what was encoded, whatever bytes trail it |
| HandshakeBodies.ResultIgnoresTrailing | src/net.rs:215-217 | Only the first 20 bytes of a result body are read, and they are the encoding of the decoded result |
| HandshakeBodies.EncodedResponse | src/net.rs:195 | The encoded response is 4+8+8+4+4 bytes, plus the key, plus 4+4 bytes, matching the buffer's capacity |
| HandshakeBodies.Encode | src/net.rs:231-243 | `encode` appends exactly the encoded response to the writer and changes nothing before it |
| HandshakeBodies.ResponseLayout | src/net.rs:231-243 | The encoded response is 36 bytes plus the key. Its fields read back as the code, both job ids, the protocol, the key length, the key, its CRC-32 and a zero word, in that order |
| Handshake.Handshake | src/net.rs:167-222 | The client writes at most one frame and consumes a prefix of the server's bytes |
| Handshake.AwaitResult | src/net.rs:206-221 | After the response, nothing more is written and the stream is only consumed; the handshake reaches the abort only if the next message was read and resolved |
| Handshake.Connect | src/net.rs:167-222 | `connect` ends with the outcome of `Handshake` on the server's bytes, writes exactly its frames, and leaves exactly its unread bytes. When it reaches the abort, the reader's buffer holds the result frame's payload |
| Handshake.ReadCodedFrame | src/net.rs:113-115 | Reading a frame whose payload is code `c` and a body never panics. It resolves that payload and leaves what follows the frame |
| Handshake.RequestKindRequired | src/net.rs:170-181 | A first frame that is not the encrypt request ends the handshake with nothing written. A known kind gives "Expected encrypt request"; an unknown code gives `InvalidMessageKind` |
| Handshake.RequestFrameHandled | src/net.rs:170-204 | After an encrypt-request frame, a body not of 40 bytes fails with nothing written; a 40-byte body is answered with its response frame and the result is awaited |
| Handshake.ProtobufFlagIgnored | src/net.rs:170-181 | A request sent with a negative (protobuf) code is handled exactly like one with the positive code |
| Handshake.MalformedRequestRejected | src/net.rs:183-187 | A request body of any size but 40 bytes fails with "Malformed encrypt request" and nothing written |
| Handshake.RequestAnswered | src/net.rs:189-204 | A well-formed request is answered with exactly one frame, the response to that request, and then the result is awaited |
| Handshake.ResultAwaited | src/net.rs:206-221 | After the response, another known kind gives "Expected encrypt result" and a body under 20 bytes gives "Invalid encrypt result body". Otherwise the first 20 bytes are decoded and the code aborts |
| Handshake.ResultAccepted | src/net.rs:206-221 | A result frame with at least 20 body bytes, of either sign, leads to the abort with the decoded result |
| Handshake.FullExchange | src/net.rs:167-222 | A request frame and then a result frame produce exactly one written frame, the response to the request, then the abort with the decoded result, leaving the bytes after them unread |
| Handshake.WritesOnlyTheResponse | src/net.rs:170-204 | Whatever the server sends, the client writes something only after a first frame that resolves to the encrypt request with a 40-byte body; it then writes exactly the response to that request |
| Handshake.ShortRequestPanics | src/net.rs:170 | A first frame whose payload is shorter than 4 bytes makes `read` panic before anything is written, leaving the bytes after the frame |
| Handshake.ShortResultPanics | src/net.rs:206 | A result frame whose payload is shorter than 4 bytes makes `read` panic; the frames already written stay written |
| Handshake.PanicAfterResponse | src/net.rs:170-206 | A well-formed request followed by a frame with a short payload: exactly the response is written, and then the client panics |
| Handshake.FirstReadFailed | src/net.rs:170 | A first frame that cannot be read ends the handshake with that same error (`IO` or `InvalidHeader`), nothing written |
| Handshake.SecondReadFailed | src/net.rs:206 | After the response, any error from reading the next message ends the handshake with that same error; the written frames stay |
| Handshake.UnknownResultCodeReported | src/net.rs:206 | A result frame whose code is not a known kind ends the handshake with `InvalidMessageKind` of that signed code |
| Handshake.ResponseFrameHeader | src/net.rs:195-204 | The response frame is 8 + 36 bytes plus the key; its header carries that length and the magic, and its payload is the encoded response |

## Left out

- Opening the TCP connection (`raw_connect`), buffered I/O and `flush` are left out. The model starts from the bytes the peer sends and the frames handed to the connection.
- Asynchrony is left out: the model reads and writes in sequence.
- Write errors on the connection are not modelled; every write succeeds.
- `IO` errors carry no detail.
- A read cut short by the end of the connection is modelled as using up everything left on it.
- Handshake.Connect: the reader's buffer is stated only when the handshake reaches the abort. On every other path `connect` returns or panics and drops the reader along with its buffer.
- `generate_session_key` and `crc32::checksum_ieee` are parameters of `Handshake.Env`, because their code is not part of this model. The plain session key is unused, as in the source.
- The generated `EMsg` enumeration is a table of known codes (`MessageKind.EMsgTable`), because its listing is not part of this model.
- `dbg!` output is left out.
- The final `panic!` is modelled as the outcome `AbortedAfterResult`.
- `SteamReader` and `SteamWriter` are never built by the code, so they are not modelled.
- MessageKind.WrappingAbs: models a release build, where `i32::MIN.abs()` wraps. A debug build would panic there instead.
- The "Invalid encrypt request body" error is not modelled, because it is unreachable: every 40-byte body decodes (`HandshakeBodies.RequestBytesRoundTrip`).
- `EncodeFrame` and `EncodedResponse` cut lengths to 32 bits as the code does. The round-trip lemmas assume lengths below 2^32.

## Findings

| source | as written | input that shows it | evidently intended | confidence | as-written member | corrected member |
|---|---|---|---|---|---|---|
| src/net.rs:73-77 | `value[0..4]` panics on a payload shorter than 4 bytes, before `try_into().map_err(...)` can apply | a frame whose 2-byte payload is `[1, 0]` | reject the payload with `InvalidMessageKind(0)`, as the error mapping says; `read` and `connect` are modelled as written and end in `PanickedOnShortPayload` | not executed | MessageKind.TryFromAsWritten | MessageKind.TryFrom |
