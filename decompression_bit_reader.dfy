/** `decompression/bit_reader.py`: the bits of a byte stream as a generator,
    and a reader that takes them one at a time. */
module DecompressionBitReader {
  import opened Bits
  import opened Prelude
  import opened ResultTypes

  /** `bits_from_stream`: for each byte read, `(byte >> (7 - i)) & 1` for i = 0 .. 7;
      the generator ends when `read(1)` returns no byte. */
  method BitsFromStream(inputStream: seq<Byte>) returns (bits: seq<Bit>)
    ensures bits == StreamBits(inputStream)
  {
    bits := [];
    var position := 0;
    while true
      invariant 0 <= position <= |inputStream|
      invariant bits == StreamBits(inputStream[..position])
      decreases |inputStream| - position
    {
      if position == |inputStream| {
        assert inputStream[..position] == inputStream;
        return;
      }
      var byteValue := inputStream[position];
      position := position + 1;
      for i := 0 to 8
        invariant bits == StreamBits(inputStream[..position - 1]) + ByteBits(byteValue)[..i]
      {
        var bit: Bit := Shr(byteValue, 7 - i) % 2;
        NatBitsShr(byteValue, 8, i);
        NextBit(StreamBits(inputStream[..position - 1]), ByteBits(byteValue), i);
        bits := bits + [bit];
      }
      StreamBitsStep(inputStream, position);
    }
  }

  /** One more bit of the current byte. */
  lemma NextBit(done: seq<Bit>, byteBits: seq<Bit>, i: nat)
    requires i < |byteBits|
    ensures done + byteBits[..i] + [byteBits[i]] == done + byteBits[..i + 1]
  {
    assert byteBits[..i + 1] == byteBits[..i] + [byteBits[i]];
  }

  /** The bits of one more byte of the stream. */
  lemma StreamBitsStep(inputStream: seq<Byte>, position: nat)
    requires 0 < position <= |inputStream|
    ensures StreamBits(inputStream[..position])
         == StreamBits(inputStream[..position - 1]) + ByteBits(inputStream[position - 1])[..8]
  {
    var b := inputStream[position - 1];
    assert inputStream[..position] == inputStream[..position - 1] + [b];
    StreamBitsAppend(inputStream[..position - 1], [b]);
    assert StreamBits([b]) == ByteBits(b) + StreamBits([]);
    assert ByteBits(b)[..8] == ByteBits(b);
  }

  /** The reader of `decompression/bit_reader.py`, holding what the generator has
      not yielded yet. */
  class BitReader {
    var bits: seq<Bit>

    constructor(inputStream: seq<Byte>)
      ensures bits == StreamBits(inputStream)
    {
      var all := BitsFromStream(inputStream);
      bits := all;
    }

    /** `read_bit`: the next bit of the generator; once it is exhausted, EOFError. */
    method ReadBit() returns (r: Result<Bit, Exception>)
      modifies this
      ensures old(bits) == [] ==> r == Err(EOFError) && bits == old(bits)
      ensures old(bits) != [] ==> r == Ok(old(bits)[0]) && bits == old(bits)[1..]
    {
      if bits == [] {
        return Err(EOFError);
      }
      r := Ok(bits[0]);
      bits := bits[1..];
    }
  }

  /** Bit k of a stream is bit k % 8 of byte k / 8: eight bits per byte, byte by byte. */
  lemma {:induction false} StreamBitsAt(bytes: seq<Byte>, k: nat)
    requires k < 8 * |bytes|
    ensures StreamBits(bytes)[k] == ByteBits(bytes[k / 8])[k % 8]
    decreases |bytes|
  {
    var head, rest := ByteBits(bytes[0]), StreamBits(bytes[1..]);
    assert StreamBits(bytes) == head + rest && |head| == 8;
    if k >= 8 {
      var j := k - 8;
      StreamBitsAt(bytes[1..], j);
      assert j / 8 + 1 == k / 8 && j % 8 == k % 8;
      assert bytes[1..][j / 8] == bytes[k / 8];
    }
  }

  /** Each value the generator yields is `(byte >> (7 - i)) & 1` of its byte. */
  lemma StreamBitsShr(bytes: seq<Byte>, k: nat)
    requires k < 8 * |bytes|
    ensures StreamBits(bytes)[k] == Shr(bytes[k / 8], 7 - k % 8) % 2
  {
    StreamBitsAt(bytes, k);
    NatBitsShr(bytes[k / 8], 8, k % 8);
  }
}
