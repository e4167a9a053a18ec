/** The message-kind resolver: a frame payload starts with a signed 32-bit
    little-endian code whose sign marks a protobuf body and whose magnitude
    names the kind of message (`TryFrom<&[u8]> for RawNetMessage`). */
module MessageKind {
  import opened LittleEndian
  import opened NetError

  /** The generated `EMsg` enumeration. An `EMsg` is identified here with its
      numeric value: `EMsg::from_i32(n)` yields the variant whose `value()` is
      `n` when `n` is one of `values`, and nothing otherwise. The three codes of
      the encryption handshake are named. */
  datatype EMsgTable = EMsgTable(
    values: set<I32>,
    encryptRequest: I32,
    encryptResponse: I32,
    encryptResult: I32)
  {
    /** The enumeration's values are non-negative and hold the three distinct handshake codes. */
    predicate Valid() {
      && (forall v :: v in values ==> v >= 0)
      && encryptRequest in values && encryptResponse in values && encryptResult in values
      && encryptRequest != encryptResponse
      && encryptRequest != encryptResult
      && encryptResponse != encryptResult
    }
  }

  /** A decoded payload: the kind, whether the body is protobuf-encoded, and the body. */
  datatype RawNetMessage = RawNetMessage(kind: I32, isProtobuf: bool, data: seq<Byte>)

  /** `i32::abs` with wrap-around (release build): `i32::MIN` stays `i32::MIN`. */
  function WrappingAbs(c: I32): (a: I32)
    ensures c == I32_MIN ==> a == c
    ensures c != I32_MIN ==> a >= 0 && (a == c || a + c == 0)
  {
    if c == I32_MIN then c else if c < 0 then -c else c
  }

  /** Resolves a payload (corrected: a payload shorter than the 4-byte code is
      rejected with `InvalidMessageKind(0)`, as the error mapping beside the
      slice intends, instead of panicking at the slice). */
  function TryFrom(value: seq<Byte>, table: EMsgTable): (r: Result<RawNetMessage>)
    ensures r.Err? ==> r.error.InvalidMessageKind?
    ensures r.Ok? ==> |value| >= 4 && r.value.data == value[4..]
    ensures |value| < 4 ==> r == Err(InvalidMessageKind(0))
  {
    if |value| < 4 then
      Err(InvalidMessageKind(0))
    else
      var code := ReadI32(value[0..4]);
      var isProtobuf := code < 0;
      var kind := WrappingAbs(code);
      if kind !in table.values then Err(InvalidMessageKind(code))
      else Ok(RawNetMessage(kind, isProtobuf, value[4..]))
  }

  /** What `try_from` does when it is handed a payload. */
  datatype Resolution = Returned(result: Result<RawNetMessage>) | Panicked

  /** `try_from` as written: `value[0..4]` panics on a payload shorter than
      4 bytes before the `map_err` can apply; longer payloads resolve as `TryFrom`. */
  function TryFromAsWritten(value: seq<Byte>, table: EMsgTable): (r: Resolution)
    ensures r.Panicked? <==> |value| < 4
    ensures |value| >= 4 ==> r == Returned(TryFrom(value, table))
  {
    if |value| < 4 then Panicked
    else Returned(TryFrom(value, table))
  }

  /** A two-byte payload makes the code as written panic, where the corrected
      resolver reports `InvalidMessageKind(0)`. */
  lemma ShortPayloadPanics(table: EMsgTable)
    ensures TryFromAsWritten([1, 0], table) == Panicked
    ensures TryFrom([1, 0], table) == Err(InvalidMessageKind(0))
  {
  }

  /** Resolving a payload that starts with the code `c`: the protobuf flag is the
      sign of `c`, the kind is `|c|`, the body is what follows, and an unknown
      `|c|` (including the wrapped `|i32::MIN|`) is reported with the signed `c`. */
  lemma ResolveCode(c: I32, body: seq<Byte>, table: EMsgTable)
    requires table.Valid()
    ensures var r := TryFrom(I32LE(c) + body, table);
      && (r.Ok? <==> c != I32_MIN && (if c < 0 then -c else c) in table.values)
      && (r.Ok? ==> r.value == RawNetMessage(if c < 0 then -c else c, c < 0, body))
      && (r.Err? ==> r.error == InvalidMessageKind(c))
  {
    var value := I32LE(c) + body;
    assert value[0..4] == I32LE(c);
    assert value[4..] == body;
    I32RoundTrip(c);
  }

  /** The protobuf flag is the top bit of the fourth payload byte. */
  lemma ProtobufFlagIsTopBit(value: seq<Byte>, table: EMsgTable)
    requires TryFrom(value, table).Ok?
    ensures TryFrom(value, table).value.isProtobuf <==> value[3] >= 128
  {
    I32SignBit(value[0..4]);
  }
}
