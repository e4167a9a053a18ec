/** The frame codec: every message travels as an 8-byte header (a little-endian
    `u32` payload length, then the magic "VT01") followed by the payload.
    The reader consumes frames from the bytes the peer sent; the writer appends
    each frame to the connection in one write. */
module FrameCodec {
  import opened LittleEndian
  import opened NetError
  import opened MessageKind

  /** The ASCII bytes of "VT01". */
  const MAGIC: seq<Byte> := [0x56, 0x54, 0x30, 0x31]

  const HEADER_SIZE: nat := 8

  datatype Header = Header(length: U32, magic: seq<Byte>)
  {
    /** A header is accepted exactly when it carries the magic; its length plays no part. */
    function Validate(): (r: Result<()>)
      ensures r.Err? <==> magic != MAGIC
      ensures r.Err? ==> r.error == InvalidHeader
    {
      if magic != MAGIC then Err(InvalidHeader) else Ok(())
    }
  }

  /** `read_le` of the 8 header bytes: the length first, then the magic. */
  function ParseHeader(b: seq<Byte>): (h: Header)
    requires |b| == HEADER_SIZE
    ensures |h.magic| == 4
  {
    Header(ReadU32(b[0..4]), b[4..8])
  }

  /** The bytes `write_buff` sends for a payload; the length is cut to 32 bits (`as u32`). */
  function EncodeFrame(data: seq<Byte>): (r: seq<Byte>)
    ensures |r| == |data| + HEADER_SIZE
    ensures r[4..8] == MAGIC && r[8..] == data
  {
    LE32(|data| % U32_LIMIT) + MAGIC + data
  }

  /** The header of a written frame carries the payload length, cut to 32 bits, and the magic. */
  lemma FrameHeaderOfPayload(data: seq<Byte>)
    ensures ParseHeader(EncodeFrame(data)[..HEADER_SIZE]) == Header(|data| % U32_LIMIT, MAGIC)
  {
    assert EncodeFrame(data)[..HEADER_SIZE][0..4] == LE32(|data| % U32_LIMIT);
    U32RoundTrip(|data| % U32_LIMIT);
  }

  /** What one `read_buff` yields, and the bytes left on the connection after it. */
  datatype FrameRead = FrameRead(result: Result<seq<Byte>>, rest: seq<Byte>)

  /** Reading one frame from the bytes `s` the peer has sent. A connection that
      ends before the header or the payload is complete fails with `IO`, and
      everything left on it is used up; a wrong magic fails once the header is read. */
  function ReadFrame(s: seq<Byte>): (f: FrameRead)
    ensures |f.rest| <= |s| && f.rest == s[|s| - |f.rest|..]
    ensures f.result.Ok? ==> |s| == HEADER_SIZE + |f.result.value| + |f.rest|
    ensures f.result.Err? ==> f.result.error in {IO, InvalidHeader}
    ensures f.result == Err(InvalidHeader) <==> |s| >= HEADER_SIZE && s[4..8] != MAGIC
    ensures f.result == Err(IO)
        <==> |s| < HEADER_SIZE || (s[4..8] == MAGIC && |s| - HEADER_SIZE < ReadU32(s[0..4]))
  {
    if |s| < HEADER_SIZE then
      FrameRead(Err(IO), [])
    else
      var header := ParseHeader(s[..HEADER_SIZE]);
      assert s[..HEADER_SIZE][0..4] == s[0..4] && s[..HEADER_SIZE][4..8] == s[4..8];
      match header.Validate()
      case Err(e) => FrameRead(Err(e), s[HEADER_SIZE..])
      case Ok(_) =>
        if |s| - HEADER_SIZE < header.length then FrameRead(Err(IO), [])
        else FrameRead(Ok(s[HEADER_SIZE..HEADER_SIZE + header.length]),
                       s[HEADER_SIZE + header.length..])
  }

  /** Reading a written frame gives back its payload and consumes exactly its bytes. */
  lemma FrameRoundTrip(data: seq<Byte>, rest: seq<Byte>)
    requires |data| < U32_LIMIT
    ensures ReadFrame(EncodeFrame(data) + rest) == FrameRead(Ok(data), rest)
  {
    var s := EncodeFrame(data) + rest;
    assert s[..HEADER_SIZE][0..4] == LE32(|data|);
    U32RoundTrip(|data|);
    assert s[..HEADER_SIZE][4..8] == MAGIC;
    assert s[HEADER_SIZE..HEADER_SIZE + |data|] == data;
    assert s[HEADER_SIZE + |data|..] == rest;
  }

  /** Every frame that is read successfully is the encoding of its payload. */
  lemma FrameReadSound(s: seq<Byte>)
    requires ReadFrame(s).result.Ok?
    ensures s == EncodeFrame(ReadFrame(s).result.value) + ReadFrame(s).rest
  {
    var f := ReadFrame(s);
    var data := f.result.value;
    assert s[..HEADER_SIZE][0..4] == s[0..4];
    assert |data| == ReadU32(s[0..4]) && |data| % U32_LIMIT == |data|;
    U32BytesRoundTrip(s[0..4]);
    assert s[4..8] == MAGIC;
    assert s == s[0..4] + s[4..8] + data + f.rest;
  }

  /** A header whose magic is not "VT01" is rejected whatever its length field
      says, and none of the payload is consumed. */
  lemma WrongMagicRejected(header: seq<Byte>, rest: seq<Byte>)
    requires |header| == HEADER_SIZE && header[4..8] != MAGIC
    ensures ReadFrame(header + rest) == FrameRead(Err(InvalidHeader), rest)
  {
    var s := header + rest;
    assert s[..HEADER_SIZE] == header;
    assert s[HEADER_SIZE..] == rest;
  }

  /** `BytesMut::resize`: cut to `n` bytes, or grow to `n` with zero bytes. */
  function Resize(b: seq<Byte>, n: nat): (r: seq<Byte>)
    ensures |r| == n
    ensures forall i :: 0 <= i < n ==> r[i] == (if i < |b| then b[i] else 0)
  {
    if n <= |b| then b[..n] else b + seq(n - |b|, _ => 0)
  }

  /** A frame and what resolving its payload does, with the bytes left after it.
      A frame that cannot be read is `Returned(Err(..))`; a payload too short
      for the kind code makes `try_from` panic. */
  datatype MessageRead = MessageRead(resolution: Resolution, rest: seq<Byte>)

  /** `read`: one frame, whose payload is then resolved by `try_from` as written. */
  function ReadMessage(s: seq<Byte>, table: EMsgTable): (m: MessageRead)
    ensures m.rest == ReadFrame(s).rest
    ensures m.resolution.Panicked?
        <==> ReadFrame(s).result.Ok? && |ReadFrame(s).result.value| < 4
    ensures m.resolution.Returned? && m.resolution.result.Ok? ==> ReadFrame(s).result.Ok?
    ensures ReadFrame(s).result.Err? ==> m.resolution == Returned(Err(ReadFrame(s).result.error))
    ensures ReadFrame(s).result.Ok? && |ReadFrame(s).result.value| >= 4
        ==> m.resolution == Returned(TryFrom(ReadFrame(s).result.value, table))
  {
    var f := ReadFrame(s);
    match f.result
    case Err(e) => MessageRead(Returned(Err(e)), f.rest)
    case Ok(payload) => MessageRead(TryFromAsWritten(payload, table), f.rest)
  }

  /** The receiving half of a connection. */
  class RawReader {
    /** The bytes the peer has sent that are not consumed yet. */
    var stream: seq<Byte>
    /** The receive buffer, reused and resized for every frame. */
    var buff: seq<Byte>

    constructor (incoming: seq<Byte>)
      ensures stream == incoming && buff == []
    {
      stream := incoming;
      buff := [];
    }

    /** `read_buff`: read the header, validate it, resize the buffer to the
        payload length and fill it from the connection. */
    method ReadBuff() returns (r: Result<seq<Byte>>)
      modifies this
      ensures r == ReadFrame(old(stream)).result
      ensures stream == ReadFrame(old(stream)).rest
      ensures r.Ok? ==> buff == r.value
      ensures |old(stream)| < HEADER_SIZE || r == Err(InvalidHeader) ==> buff == old(buff)
      ensures |old(stream)| >= HEADER_SIZE && r == Err(IO) ==>
        var n := ParseHeader(old(stream)[..HEADER_SIZE]).length;
        var arrived := old(stream)[HEADER_SIZE..];
        && |arrived| < n
        && buff == arrived + Resize(old(buff), n)[|arrived|..]
    {
      if |stream| < HEADER_SIZE {
        stream := [];
        return Err(IO);
      }
      ghost var incoming := stream;
      var headerBytes := stream[..HEADER_SIZE];
      stream := stream[HEADER_SIZE..];
      var header := ParseHeader(headerBytes);
      var valid := header.Validate();
      if valid.Err? {
        return Err(valid.error);
      }
      buff := Resize(buff, header.length);
      if |stream| < header.length {
        // read_exact meets the end of the connection: what did arrive is in the buffer
        buff := stream + buff[|stream|..];
        stream := [];
        return Err(IO);
      }
      buff := stream[..header.length];
      stream := stream[header.length..];
      assert buff == incoming[HEADER_SIZE..HEADER_SIZE + header.length];
      return Ok(buff);
    }

    /** `read`: one frame, resolved to a message. */
    method Read(table: EMsgTable) returns (r: Resolution)
      modifies this
      ensures r == ReadMessage(old(stream), table).resolution
      ensures stream == ReadMessage(old(stream), table).rest
      ensures ReadFrame(old(stream)).result.Ok? ==> buff == ReadFrame(old(stream)).result.value
    {
      var payload := ReadBuff();
      match payload
      case Err(e) => return Returned(Err(e));
      case Ok(p) => return TryFromAsWritten(p, table);
    }
  }

  /** The sending half of a connection. */
  class RawWriter {
    /** What was handed to the connection, one entry per `write_all`. */
    var sent: seq<seq<Byte>>

    constructor ()
      ensures sent == []
    {
      sent := [];
    }

    /** `write_buff`: assemble header and payload in one vector and send it in one write. */
    method WriteBuff(data: seq<Byte>)
      modifies this
      ensures sent == old(sent) + [EncodeFrame(data)]
    {
      var full := new ByteVec();
      full.WriteU32(|data| % U32_LIMIT);
      full.WriteAll(MAGIC);
      full.WriteAll(data);
      assert full.bytes == EncodeFrame(data);
      sent := sent + [full.bytes];
    }
  }
}
