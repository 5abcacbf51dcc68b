/** `compression/bit_writer.py`: packs a bit list into bytes, eight bits to a
    byte MSB first with the last byte padded by zeros, and a writer that
    collects bits and packs them into its output stream on `flush`. */
module CompressionBitWriter {
  import opened Bits
  import Streams

  /** The chunks `chunk_bits` yields: consecutive slices of `size` bits, the
      last one possibly shorter; nothing at all when `size` is 0. */
  function Chunks(bits: seq<Bit>, size: nat): (r: seq<seq<Bit>>)
    ensures r == [] <==> bits == [] || size == 0
    ensures size > 0 ==> |r| <= |bits|
    decreases |bits|
  {
    if bits == [] || size == 0 then []
    else if |bits| <= size then [bits]
    else [bits[..size]] + Chunks(bits[size..], size)
  }

  /** The chunks laid end to end. */
  function Flatten(chunks: seq<seq<Bit>>): seq<Bit>
  {
    if chunks == [] then [] else chunks[0] + Flatten(chunks[1..])
  }

  lemma {:induction false} FlattenSnoc(chunks: seq<seq<Bit>>, c: seq<Bit>)
    ensures Flatten(chunks + [c]) == Flatten(chunks) + c
    decreases |chunks|
  {
    if chunks == [] {
      assert [] + [c] == [c];
    } else {
      assert (chunks + [c])[1..] == chunks[1..] + [c];
      FlattenSnoc(chunks[1..], c);
    }
  }

  /** `list(islice(it, size))`: the next `size` bits, or all that are left. */
  function Take(bits: seq<Bit>, size: nat): (chunk: seq<Bit>)
    ensures chunk <= bits && |chunk| == if |bits| < size then |bits| else size
  {
    if |bits| < size then bits else bits[..size]
  }

  /** Taking one slice off the front leaves the chunks of the rest. */
  lemma ChunksStep(rest: seq<Bit>, size: nat)
    requires size > 0 && rest != []
    ensures Take(rest, size) != []
    ensures Chunks(rest, size) == [Take(rest, size)] + Chunks(rest[|Take(rest, size)|..], size)
  {
    if |rest| <= size {
      assert rest[..|rest|] == rest;
      assert Take(rest, size) == rest;
      assert rest[|rest|..] == [];
      assert Chunks(rest, size) == [rest] == [rest] + Chunks([], size);
    }
  }

  /** `chunk_bits`: slices the bits `size` at a time until a slice comes back empty. */
  method ChunkBits(bits: seq<Bit>, size: nat) returns (chunks: seq<seq<Bit>>)
    ensures chunks == Chunks(bits, size)
  {
    chunks := [];
    var rest := bits;
    while true
      invariant chunks + Chunks(rest, size) == Chunks(bits, size)
      decreases |rest|
    {
      var chunk := Take(rest, size);
      if chunk == [] {
        assert Chunks(rest, size) == [];
        assert chunks + [] == chunks;
        return;
      }
      ChunksStep(rest, size);
      var next := rest[|chunk|..];
      assert chunks + [chunk] + Chunks(next, size) == chunks + ([chunk] + Chunks(next, size));
      chunks := chunks + [chunk];
      rest := next;
    }
  }

  /** The chunks of a positive size give back the bits; each has between 1 and `size`
      bits, and every one but the last exactly `size`. */
  lemma {:induction false} ChunksPartition(bits: seq<Bit>, size: nat)
    requires size > 0
    ensures Flatten(Chunks(bits, size)) == bits
    ensures forall i | 0 <= i < |Chunks(bits, size)| :: 0 < |Chunks(bits, size)[i]| <= size
    ensures forall i | 0 <= i < |Chunks(bits, size)| - 1 :: |Chunks(bits, size)[i]| == size
    decreases |bits|
  {
    var c := Chunks(bits, size);
    if bits == [] {
    } else if |bits| <= size {
      assert c == [bits];
      assert Flatten(c) == bits + Flatten([]);
    } else {
      var tail := Chunks(bits[size..], size);
      ChunksPartition(bits[size..], size);
      assert c == [bits[..size]] + tail;
      assert c[1..] == tail;
      assert Flatten(c) == bits[..size] + Flatten(tail);
      assert bits == bits[..size] + bits[size..];
      forall i | 0 <= i < |c| ensures 0 < |c[i]| <= size {
        if i > 0 { assert c[i] == tail[i - 1]; }
      }
      forall i | 0 <= i < |c| - 1 ensures |c[i]| == size {
        if i > 0 { assert c[i] == tail[i - 1]; }
      }
    }
  }

  /** `bits_to_byte`: the chunk padded on the right with zeros to eight bits, read MSB first. */
  function BitsToByte(chunk: seq<Bit>): (b: Byte)
    requires |chunk| <= 8
    ensures ByteBits(b) == chunk + Zeros(8 - |chunk|)
  {
    var padded := chunk + Zeros(8 - |chunk|);
    ValueByteBits(padded);
    BitsValue(padded)
  }

  /** A chunk of at most eight bits packs into the byte whose bits are the chunk padded
      with zeros. */
  lemma PackByte(chunk: seq<Bit>, b: Byte)
    requires |chunk| <= 8 && ByteBits(b) == chunk + Zeros(8 - |chunk|)
    ensures BitsToByte(chunk) == b
  {
    ByteBitsValue(b);
    ByteBitsValue(BitsToByte(chunk));
  }

  /** `bits_to_bytes`: `bits_to_byte` of each chunk of eight. */
  function BitsToBytes(bits: seq<Bit>): (bytes: seq<Byte>)
    ensures |bits| <= 8 * |bytes| < |bits| + 8
    decreases |bits|
  {
    if bits == [] then []
    else if |bits| <= 8 then [BitsToByte(bits)]
    else [BitsToByte(bits[..8])] + BitsToBytes(bits[8..])
  }

  /** The packed bytes are the chunks of eight, each packed by `bits_to_byte`. */
  lemma {:induction false} BitsToBytesChunks(bits: seq<Bit>)
    ensures |BitsToBytes(bits)| == |Chunks(bits, 8)|
    ensures forall i | 0 <= i < |BitsToBytes(bits)| ::
      |Chunks(bits, 8)[i]| <= 8 && BitsToBytes(bits)[i] == BitsToByte(Chunks(bits, 8)[i])
    decreases |bits|
  {
    if |bits| > 8 {
      BitsToBytesChunks(bits[8..]);
    }
  }

  /** The zero bits that fill out the last byte of n bits. */
  function PadLength(n: nat): (k: nat)
    ensures k < 8 && (n + k) % 8 == 0
  {
    (8 - n % 8) % 8
  }

  /** Eight more bits need the same padding. */
  lemma PadLengthStep(n: nat)
    ensures PadLength(n + 8) == PadLength(n)
    ensures (n + 8 + 7) / 8 == (n + 7) / 8 + 1
  {
    assert (n + 8) % 8 == n % 8;
  }

  /** n bits pack into ceil(n / 8) bytes, and unpacking them MSB first gives the
      bits back followed by fewer than eight zeros. */
  lemma {:induction false} PackUnpack(bits: seq<Bit>)
    ensures |BitsToBytes(bits)| == (|bits| + 7) / 8
    ensures StreamBits(BitsToBytes(bits)) == bits + Zeros(PadLength(|bits|))
    decreases |bits|
  {
    if bits == [] {
    } else if |bits| <= 8 {
      PackLastByte(bits);
    } else {
      var head, tail := bits[..8], bits[8..];
      PackUnpack(tail);
      PackFullByte(bits, head, tail);
    }
  }

  /** At most eight bits pack into one byte: the bits and their padding. */
  lemma PackLastByte(bits: seq<Bit>)
    requires 0 < |bits| <= 8
    ensures |BitsToBytes(bits)| == (|bits| + 7) / 8
    ensures StreamBits(BitsToBytes(bits)) == bits + Zeros(PadLength(|bits|))
  {
    assert PadLength(|bits|) == 8 - |bits|;
    assert BitsToBytes(bits) == [BitsToByte(bits)];
    assert StreamBits([BitsToByte(bits)]) == ByteBits(BitsToByte(bits)) + StreamBits([]);
  }

  /** The step of `PackUnpack`: a full first byte, then the packing of the rest. */
  lemma PackFullByte(bits: seq<Bit>, head: seq<Bit>, tail: seq<Bit>)
    requires |bits| > 8 && head == bits[..8] && tail == bits[8..]
    requires |BitsToBytes(tail)| == (|tail| + 7) / 8
    requires StreamBits(BitsToBytes(tail)) == tail + Zeros(PadLength(|tail|))
    ensures |BitsToBytes(bits)| == (|bits| + 7) / 8
    ensures StreamBits(BitsToBytes(bits)) == bits + Zeros(PadLength(|bits|))
  {
    var rest := BitsToBytes(tail);
    assert BitsToBytes(bits) == [BitsToByte(head)] + rest;
    PadLengthStep(|tail|);
    assert ([BitsToByte(head)] + rest)[1..] == rest;
    assert StreamBits([BitsToByte(head)] + rest) == ByteBits(BitsToByte(head)) + StreamBits(rest);
    assert ByteBits(BitsToByte(head)) == head by {
      assert head + Zeros(0) == head;
    }
    assert bits == head + tail;
  }

  /** Packing a concatenation whose first part fills whole bytes packs the parts apart. */
  lemma {:induction false} BitsToBytesAppend(a: seq<Bit>, b: seq<Bit>)
    requires |a| % 8 == 0
    ensures BitsToBytes(a + b) == BitsToBytes(a) + BitsToBytes(b)
    decreases |a|
  {
    if a == [] {
      assert a + b == b;
    } else {
      WholeBytesStep(|a|);
      PackFront(a, b);
      BitsToBytesAppend(a[8..], b);
      Streams.WritesCompose([BitsToByte(a[..8])], BitsToBytes(a[8..]), BitsToBytes(b));
    }
  }

  /** A positive multiple of eight less eight is still a multiple of eight. */
  lemma WholeBytesStep(n: nat)
    requires n > 0 && n % 8 == 0
    ensures n >= 8 && (n - 8) % 8 == 0
  {
  }

  /** The first full byte of `a` is the first packed byte, whether or not `b` follows. */
  lemma PackFront(a: seq<Bit>, b: seq<Bit>)
    requires |a| >= 8
    ensures BitsToBytes(a + b) == [BitsToByte(a[..8])] + BitsToBytes(a[8..] + b)
    ensures BitsToBytes(a) == [BitsToByte(a[..8])] + BitsToBytes(a[8..])
  {
    assert (a + b)[..8] == a[..8] && (a + b)[8..] == a[8..] + b;
    if |a| == 8 {
      assert a[..8] == a && a[8..] == [];
      if b == [] {
        assert a + b == a;
      }
    }
  }

  /** The writer of `compression/bit_writer.py`: bits pile up in `bits` and reach the
      output stream, packed, only when `flush` is called. */
  class BitWriter {
    const outputStream: Streams.OutputStream
    var bits: seq<Bit>

    constructor(outputStream: Streams.OutputStream)
      ensures this.outputStream == outputStream && bits == []
    {
      this.outputStream := outputStream;
      bits := [];
    }

    /** `write_bit`: appends `bit & 1`; nothing else changes. */
    method WriteBit(bit: int)
      modifies this`bits
      ensures bits == old(bits) + [bit % 2]
    {
      bits := bits + [bit % 2];
    }

    /** `flush`: writes the packed pending bits (no bytes when none are pending) and
        clears the list. */
    method Flush()
      modifies this`bits, outputStream
      ensures outputStream.data == old(outputStream.data) + BitsToBytes(old(bits))
      ensures bits == []
    {
      outputStream.Write(BitsToBytes(bits));
      bits := [];
    }
  }

  /** Writing a single 1 and flushing writes the byte 0x80. */
  method WriteOneAndFlush() returns (written: seq<Byte>)
    ensures written == [0x80]
  {
    var stream := new Streams.OutputStream();
    var writer := new BitWriter(stream);
    writer.WriteBit(1);
    assert writer.bits == [1];
    PackOne(writer.bits);
    writer.Flush();
    assert stream.data == [] + [0x80];
    written := stream.data;
  }

  /** The single bit 1 packs into 0x80. */
  lemma PackOne(bits: seq<Bit>)
    requires bits == [1]
    ensures BitsToBytes(bits) == [0x80]
  {
    var padded := bits + Zeros(7);
    assert padded[1..] == Zeros(7);
    ZerosValue(7);
    assert Pow2(7) == 128;
    assert BitsValue(padded) == 0x80;
  }
}
