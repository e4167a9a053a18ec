/** The fixed little-endian layouts of the three encryption-handshake bodies:
    the server's request and result, which the client decodes, and the
    client's response, which it encodes. */
module HandshakeBodies {
  import opened LittleEndian
  import opened NetError

  const REQUEST_BODY_SIZE: nat := 40
  const RESULT_BODY_SIZE: nat := 20

  /** The server's opening message: job ids, protocol version, universe and a 16-byte nonce. */
  datatype ChannelEncryptRequestBody = ChannelEncryptRequestBody(
    targetJobId: U64,
    sourceJobId: U64,
    protocol: U32,
    universe: U32,
    nonce: seq<Byte>)

  /** `read_le` of a request body: the fields in declaration order. It reads
      the first 40 bytes; it is only applied to a body of exactly that size. */
  function DecodeRequestBody(s: seq<Byte>): (b: ChannelEncryptRequestBody)
    requires |s| >= REQUEST_BODY_SIZE
    ensures |b.nonce| == 16
  {
    ChannelEncryptRequestBody(
      ReadU64(s[0..8]), ReadU64(s[8..16]), ReadU32(s[16..20]), ReadU32(s[20..24]), s[24..40])
  }

  /** The layout the server writes a request body in. */
  function EncodeRequestBody(b: ChannelEncryptRequestBody): (r: seq<Byte>)
    requires |b.nonce| == 16
    ensures |r| == REQUEST_BODY_SIZE
  {
    LE64(b.targetJobId) + LE64(b.sourceJobId) + LE32(b.protocol) + LE32(b.universe) + b.nonce
  }

  lemma RequestRoundTrip(b: ChannelEncryptRequestBody)
    requires |b.nonce| == 16
    ensures DecodeRequestBody(EncodeRequestBody(b)) == b
  {
    var s := EncodeRequestBody(b);
    assert s[0..8] == LE64(b.targetJobId);
    assert s[8..16] == LE64(b.sourceJobId);
    assert s[16..20] == LE32(b.protocol);
    assert s[20..24] == LE32(b.universe);
    assert s[24..40] == b.nonce;
    U64RoundTrip(b.targetJobId);
    U64RoundTrip(b.sourceJobId);
    U32RoundTrip(b.protocol);
    U32RoundTrip(b.universe);
  }

  /** Every 40-byte body is the encoding of what it decodes to. */
  lemma RequestBytesRoundTrip(s: seq<Byte>)
    requires |s| == REQUEST_BODY_SIZE
    ensures EncodeRequestBody(DecodeRequestBody(s)) == s
  {
    U64BytesRoundTrip(s[0..8]);
    U64BytesRoundTrip(s[8..16]);
    U32BytesRoundTrip(s[16..20]);
    U32BytesRoundTrip(s[20..24]);
    assert s == s[0..8] + s[8..16] + s[16..20] + s[20..24] + s[24..40];
  }

  /** Within a payload that carries the 4-byte kind code first, the request's
      protocol is the `u32` at payload bytes 20..24 and its nonce is bytes 28..44. */
  lemma RequestFieldsInPayload(payload: seq<Byte>)
    requires |payload| == 4 + REQUEST_BODY_SIZE
    ensures DecodeRequestBody(payload[4..]).protocol == ReadU32(payload[20..24])
    ensures DecodeRequestBody(payload[4..]).nonce == payload[28..44]
  {
    assert payload[4..][16..20] == payload[20..24];
    assert payload[4..][24..40] == payload[28..44];
  }

  /** The server's confirmation: job ids and a result code. */
  datatype ChannelEncryptResultBody = ChannelEncryptResultBody(
    targetJobId: U64,
    sourceJobId: U64,
    result: U32)

  /** `read_le` of a result body: it fails on fewer than 20 bytes and ignores
      any bytes after the first 20. */
  function DecodeResultBody(s: seq<Byte>): (r: Option<ChannelEncryptResultBody>)
    ensures r.Some? <==> |s| >= RESULT_BODY_SIZE
  {
    if |s| < RESULT_BODY_SIZE then None
    else Some(ChannelEncryptResultBody(ReadU64(s[0..8]), ReadU64(s[8..16]), ReadU32(s[16..20])))
  }

  /** The layout the server writes a result body in. */
  function EncodeResultBody(b: ChannelEncryptResultBody): (r: seq<Byte>)
    ensures |r| == RESULT_BODY_SIZE
  {
    LE64(b.targetJobId) + LE64(b.sourceJobId) + LE32(b.result)
  }

  /** A result body decodes to what was encoded, whatever bytes trail it. */
  lemma ResultRoundTrip(b: ChannelEncryptResultBody, trailing: seq<Byte>)
    ensures DecodeResultBody(EncodeResultBody(b) + trailing) == Some(b)
  {
    var s := EncodeResultBody(b) + trailing;
    assert s[0..8] == LE64(b.targetJobId);
    assert s[8..16] == LE64(b.sourceJobId);
    assert s[16..20] == LE32(b.result);
    U64RoundTrip(b.targetJobId);
    U64RoundTrip(b.sourceJobId);
    U32RoundTrip(b.result);
  }

  /** Only the first 20 bytes of a result body matter. */
  lemma ResultIgnoresTrailing(s: seq<Byte>)
    requires |s| >= RESULT_BODY_SIZE
    ensures DecodeResultBody(s) == DecodeResultBody(s[..RESULT_BODY_SIZE])
    ensures EncodeResultBody(DecodeResultBody(s).value) == s[..RESULT_BODY_SIZE]
  {
    U64BytesRoundTrip(s[0..8]);
    U64BytesRoundTrip(s[8..16]);
    U32BytesRoundTrip(s[16..20]);
    var prefix := s[..RESULT_BODY_SIZE];
    assert prefix[0..8] == s[0..8] && prefix[8..16] == s[8..16] && prefix[16..20] == s[16..20];
    assert prefix == s[0..8] + s[8..16] + s[16..20];
  }

  /** The client's answer: job ids, the echoed protocol and the encrypted session key. */
  datatype ClientEncryptResponse = ClientEncryptResponse(
    targetJobId: U64,
    sourceJobId: U64,
    protocol: U32,
    encryptedKey: seq<Byte>)

  /** The response on the wire, led by the response kind's code as given (not
      negated); the key length is cut to 32 bits (`as u32`) and the key is
      followed by its CRC-32 and a zero word. */
  function EncodedResponse(r: ClientEncryptResponse, code: I32, crc: seq<Byte> -> U32): (b: seq<Byte>)
    ensures |b| == 4 + 8 + 8 + 4 + 4 + |r.encryptedKey| + 4 + 4
  {
    I32LE(code) + LE64(r.targetJobId) + LE64(r.sourceJobId) + LE32(r.protocol)
      + LE32(|r.encryptedKey| % U32_LIMIT) + r.encryptedKey
      + LE32(crc(r.encryptedKey)) + LE32(0)
  }

  /** `ClientEncryptResponse::encode`: the fields appended one after another. */
  method Encode(r: ClientEncryptResponse, code: I32, crc: seq<Byte> -> U32, writer: ByteVec)
    modifies writer
    ensures writer.bytes == old(writer.bytes) + EncodedResponse(r, code, crc)
  {
    ghost var start := writer.bytes;
    ghost var head := I32LE(code) + LE64(r.targetJobId) + LE64(r.sourceJobId) + LE32(r.protocol);
    ghost var tail := LE32(|r.encryptedKey| % U32_LIMIT) + r.encryptedKey + LE32(crc(r.encryptedKey)) + LE32(0);
    writer.WriteI32(code);
    writer.WriteU64(r.targetJobId);
    writer.WriteU64(r.sourceJobId);
    writer.WriteU32(r.protocol);
    assert writer.bytes == start + head;
    writer.WriteU32(|r.encryptedKey| % U32_LIMIT);
    writer.WriteAll(r.encryptedKey);
    assert writer.bytes == start + head + (LE32(|r.encryptedKey| % U32_LIMIT) + r.encryptedKey);
    writer.WriteU32(crc(r.encryptedKey));
    writer.WriteU32(0);
    assert writer.bytes == start + head + tail;
    assert EncodedResponse(r, code, crc) == head + tail;
  }

  /** Where each field sits in an encoded response and what it reads back as:
      36 bytes plus the key, the code first, the checksum of the key right after it,
      a zero word last. */
  lemma ResponseLayout(r: ClientEncryptResponse, code: I32, crc: seq<Byte> -> U32, b: seq<Byte>)
    requires |r.encryptedKey| < U32_LIMIT
    requires b == EncodedResponse(r, code, crc)
    ensures |b| == 36 + |r.encryptedKey|
    ensures ReadI32(b[0..4]) == code
    ensures ReadU64(b[4..12]) == r.targetJobId
    ensures ReadU64(b[12..20]) == r.sourceJobId
    ensures ReadU32(b[20..24]) == r.protocol
    ensures ReadU32(b[24..28]) == |r.encryptedKey|
    ensures b[28..28 + |r.encryptedKey|] == r.encryptedKey
    ensures ReadU32(b[28 + |r.encryptedKey|..32 + |r.encryptedKey|]) == crc(r.encryptedKey)
    ensures ReadU32(b[32 + |r.encryptedKey|..]) == 0
  {
    var k := |r.encryptedKey|;
    assert b[0..4] == I32LE(code);
    assert b[4..12] == LE64(r.targetJobId);
    assert b[12..20] == LE64(r.sourceJobId);
    assert b[20..24] == LE32(r.protocol);
    assert b[24..28] == LE32(k);
    assert b[28..28 + k] == r.encryptedKey;
    assert b[28 + k..32 + k] == LE32(crc(r.encryptedKey));
    assert b[32 + k..] == LE32(0);
    I32RoundTrip(code);
    U64RoundTrip(r.targetJobId);
    U64RoundTrip(r.sourceJobId);
    U32RoundTrip(r.protocol);
    U32RoundTrip(k);
    U32RoundTrip(crc(r.encryptedKey));
    U32RoundTrip(0);
  }
}
