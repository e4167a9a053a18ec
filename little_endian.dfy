/** Fixed-width little-endian integers over byte sequences: what the `byteorder`
    writer methods append (`write_u32::<LittleEndian>` and friends) and what
    `binread`'s `read_le` and `i32::from_le_bytes` read back. */
module LittleEndian {

  type Byte = b: int | 0 <= b < 256

  const U32_LIMIT: int := 0x1_0000_0000
  const U64_LIMIT: int := 0x1_0000_0000_0000_0000
  const I32_MIN: int := -0x8000_0000

  type U32 = x: int | 0 <= x < 0x1_0000_0000
  type U64 = x: int | 0 <= x < 0x1_0000_0000_0000_0000
  type I32 = x: int | -0x8000_0000 <= x < 0x8000_0000

  function Pow256(n: nat): (p: nat)
    ensures p >= 1
  {
    if n == 0 then 1 else 256 * Pow256(n - 1)
  }

  lemma Pow256Widths()
    ensures Pow256(4) == U32_LIMIT && Pow256(8) == U64_LIMIT
  {
    assert Pow256(2) == 0x1_0000;
    assert Pow256(4) == 0x1_0000_0000;
    assert Pow256(6) == 0x1_0000_0000_0000;
  }

  /** The `n` low-order bytes of `x`, least significant first. */
  function ToLE(x: nat, n: nat): (r: seq<Byte>)
    ensures |r| == n
  {
    if n == 0 then [] else [x % 256] + ToLE(x / 256, n - 1)
  }

  /** The unsigned value of a little-endian byte string. */
  function FromLE(s: seq<Byte>): (v: nat)
    ensures v < Pow256(|s|)
  {
    if s == [] then 0 else s[0] + 256 * FromLE(s[1..])
  }

  /** Decoding what was encoded gives the value back, whenever it fits. */
  lemma {:induction false} FromToLE(x: nat, n: nat)
    requires x < Pow256(n)
    ensures FromLE(ToLE(x, n)) == x
  {
    if n > 0 {
      FromToLE(x / 256, n - 1);
      assert ToLE(x, n)[1..] == ToLE(x / 256, n - 1);
    }
  }

  lemma SplitLowByte(b: Byte, f: nat)
    ensures (b + 256 * f) % 256 == b && (b + 256 * f) / 256 == f
  {
  }

  /** Encoding what was decoded gives the bytes back. */
  lemma {:induction false} ToFromLE(s: seq<Byte>)
    ensures ToLE(FromLE(s), |s|) == s
  {
    if s != [] {
      var f := FromLE(s[1..]);
      SplitLowByte(s[0], f);
      assert ToLE(FromLE(s), |s|) == [s[0]] + ToLE(f, |s| - 1);
      ToFromLE(s[1..]);
      assert s == [s[0]] + s[1..];
    }
  }

  function LE32(x: U32): (r: seq<Byte>)
    ensures |r| == 4
  {
    ToLE(x, 4)
  }

  function LE64(x: U64): (r: seq<Byte>)
    ensures |r| == 8
  {
    ToLE(x, 8)
  }

  /** Two's complement little-endian form of a signed 32-bit value. */
  function I32LE(x: I32): (r: seq<Byte>)
    ensures |r| == 4
  {
    ToLE(if x < 0 then x + U32_LIMIT else x, 4)
  }

  function ReadU32(s: seq<Byte>): (v: U32)
    requires |s| == 4
  {
    Pow256Widths();
    FromLE(s)
  }

  function ReadU64(s: seq<Byte>): (v: U64)
    requires |s| == 8
  {
    Pow256Widths();
    FromLE(s)
  }

  /** `i32::from_le_bytes`: the unsigned reading, shifted down when the top bit is set. */
  function ReadI32(s: seq<Byte>): (v: I32)
    requires |s| == 4
  {
    var u := ReadU32(s);
    if u >= 0x8000_0000 then u - U32_LIMIT else u
  }

  lemma U32RoundTrip(x: U32)
    ensures ReadU32(LE32(x)) == x
  {
    Pow256Widths();
    FromToLE(x, 4);
  }

  lemma U32BytesRoundTrip(s: seq<Byte>)
    requires |s| == 4
    ensures LE32(ReadU32(s)) == s
  {
    ToFromLE(s);
  }

  lemma U64RoundTrip(x: U64)
    ensures ReadU64(LE64(x)) == x
  {
    Pow256Widths();
    FromToLE(x, 8);
  }

  lemma U64BytesRoundTrip(s: seq<Byte>)
    requires |s| == 8
    ensures LE64(ReadU64(s)) == s
  {
    ToFromLE(s);
  }

  lemma I32RoundTrip(x: I32)
    ensures ReadI32(I32LE(x)) == x
  {
    Pow256Widths();
    FromToLE(if x < 0 then x + U32_LIMIT else x, 4);
  }

  lemma I32BytesRoundTrip(s: seq<Byte>)
    requires |s| == 4
    ensures I32LE(ReadI32(s)) == s
  {
    ToFromLE(s);
  }

  /** A little-endian `i32` is negative exactly when the top bit of its last byte is set. */
  lemma {:induction false} I32SignBit(s: seq<Byte>)
    requires |s| == 4
    ensures ReadI32(s) < 0 <==> s[3] >= 128
  {
    var b0: int, b1: int, b2: int, b3: int := s[0], s[1], s[2], s[3];
    assert s[1..][1..][1..][1..] == [];
    assert FromLE(s[1..][1..][1..]) == b3;
    assert FromLE(s[1..][1..]) == b2 + 256 * b3;
    assert FromLE(s[1..]) == b1 + 256 * b2 + 65536 * b3;
    assert FromLE(s) == b0 + 256 * b1 + 65536 * b2 + 16777216 * b3;
    Pow256Widths();
  }

  /** A growable byte vector, written to the way `Vec<u8>` is through
      `std::io::Write` and `byteorder::WriteBytesExt`. Writes to it never fail. */
  class ByteVec {
    var bytes: seq<Byte>

    /** `Vec::with_capacity`: the capacity is not observable, the vector starts empty. */
    constructor ()
      ensures bytes == []
    {
      bytes := [];
    }

    method WriteU32(x: U32)
      modifies this
      ensures bytes == old(bytes) + LE32(x)
    {
      bytes := bytes + LE32(x);
    }

    method WriteU64(x: U64)
      modifies this
      ensures bytes == old(bytes) + LE64(x)
    {
      bytes := bytes + LE64(x);
    }

    method WriteI32(x: I32)
      modifies this
      ensures bytes == old(bytes) + I32LE(x)
    {
      bytes := bytes + I32LE(x);
    }

    method WriteAll(data: seq<Byte>)
      modifies this
      ensures bytes == old(bytes) + data
    {
      bytes := bytes + data;
    }
  }
}
