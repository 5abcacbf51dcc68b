/** `bit_reader.py`: reads a byte stream bit by bit, MSB first, through a
    one-byte buffer. */
module BitReader {
  import opened Bits
  import opened Prelude
  import opened ResultTypes

  class BitReader {
    /** The bytes of the input stream not read yet. */
    var stream: seq<Byte>
    var buffer: Byte
    var bitsInBuffer: nat

    ghost predicate Valid()
      reads this
    {
      bitsInBuffer <= 8
    }

    /** The bits still to come: the unread bits of the buffer, then the rest of the stream. */
    ghost function Remaining(): seq<Bit>
      requires Valid()
      reads this
    {
      ByteBits(buffer)[..bitsInBuffer] + StreamBits(stream)
    }

    constructor(input: seq<Byte>)
      ensures Valid() && stream == input && buffer == 0 && bitsInBuffer == 0
      ensures Remaining() == StreamBits(input)
    {
      stream := input;
      buffer := 0;
      bitsInBuffer := 0;
    }

    /** `read_bit`: the next bit, refilling the buffer first when it is empty. With the buffer
        empty and the stream exhausted, `byte_data[0]` raises IndexError and nothing changes. */
    method ReadBit() returns (r: Result<Bit, Exception>)
      requires Valid()
      modifies this
      ensures Valid()
      ensures old(Remaining()) == [] ==>
        r == Err(IndexError) && stream == old(stream) && buffer == old(buffer) && bitsInBuffer == old(bitsInBuffer)
      ensures old(Remaining()) != [] ==> r == Ok(old(Remaining())[0]) && Remaining() == old(Remaining())[1..]
      ensures old(bitsInBuffer) > 0 ==> stream == old(stream)
      ensures old(bitsInBuffer) == 0 && r.Ok? ==> stream == old(stream)[1..]
    {
      if NeedsNewByte() {
        var loaded := LoadNextByte();
        if loaded.Err? {
          return Err(loaded.error);
        }
      }
      var bit := ExtractNextBit();
      return Ok(bit);
    }

    /** `_needs_new_byte`: the buffer has no unread bit left, so the bits still to come
        are exactly those of the unread stream. */
    predicate NeedsNewByte()
      reads this
      ensures Valid() ==> (NeedsNewByte() <==> Remaining() == StreamBits(stream))
    {
      bitsInBuffer == 0
    }

    /** `_load_next_byte`: moves the next byte of the stream into the buffer; the bits still
        to come stay the same. On an exhausted stream it fails with IndexError. */
    method LoadNextByte() returns (r: Result<(), Exception>)
      requires Valid() && bitsInBuffer == 0
      modifies this
      ensures Valid()
      ensures old(stream) == [] ==>
        r == Err(IndexError) && stream == old(stream) && buffer == old(buffer) && bitsInBuffer == 0
      ensures old(stream) != [] ==>
        r == Ok(()) && buffer == old(stream)[0] && stream == old(stream)[1..] && bitsInBuffer == 8
      ensures Remaining() == old(Remaining())
    {
      if stream == [] {
        return Err(IndexError);
      }
      buffer := stream[0];
      stream := stream[1..];
      bitsInBuffer := 8;
      return Ok(());
    }

    /** `_extract_next_bit`: `(buffer >> 7) & 1`, then `buffer := (buffer << 1) & 0xFF`. */
    method ExtractNextBit() returns (bit: Bit)
      requires Valid() && bitsInBuffer > 0
      modifies this
      ensures Valid()
      ensures bit == old(Remaining())[0] && Remaining() == old(Remaining())[1..]
      ensures buffer == (old(buffer) * 2) % 256 && bitsInBuffer == old(bitsInBuffer) - 1
      ensures stream == old(stream)
    {
      BufferShift(buffer, bitsInBuffer, StreamBits(stream));
      bit := (buffer / 128) % 2;
      buffer := (buffer * 2) % 256;
      bitsInBuffer := bitsInBuffer - 1;
    }
  }

  /** Taking the top bit of the buffer and shifting the buffer left within 8 bits removes
      the first of the bits still to come. */
  lemma BufferShift(b: Byte, k: nat, rest: seq<Bit>)
    requires 0 < k <= 8
    ensures (ByteBits(b)[..k] + rest)[0] == (b / 128) % 2
    ensures ByteBits((b * 2) % 256)[..k - 1] + rest == (ByteBits(b)[..k] + rest)[1..]
  {
    var before := ByteBits(b);
    ByteBitsShift(b);
    var after := ByteBits((b * 2) % 256);
    assert after == before[1..] + [0];
    assert after[..k - 1] == before[1..k];
    var whole := before[..k] + rest;
    assert whole[0] == before[0];
    assert whole[1..] == before[1..k] + rest;
  }

  /** The first bit read from 'a' (0x61) is 0. */
  method FirstBitOfA() returns (bit: Result<Bit, Exception>)
    ensures bit == Ok(0)
  {
    var reader := new BitReader([97]);
    assert ByteBits(97) == [0, 1, 1, 0, 0, 0, 0, 1];
    bit := reader.ReadBit();
  }
}
