/** `decompression/decompressor.py`: reads the four-byte big-endian length, then lets
    the tree reader and the data decoder of its package consume one shared
    `BitReader` over the rest of the stream, the tree first and the payload after it.
    Those two collaborators (`decompression/tree_deserializer.py` and
    `decompression/data_decoder.py`) are not part of this model: they are parameters,
    each given as what it yields for the bits still to be read. */
module DecompressionDecompressor {
  import opened Bits
  import opened Prelude
  import opened ResultTypes
  import opened HuffmanTree
  import DecompressionBitReader
  import Streams

  /** `read_big_endian_int`: `struct.unpack(">I", stream.read(4))`, the value of the first
      four bytes and the stream after them; fewer than four bytes is a struct.error. */
  function ReadBigEndianInt(stream: seq<Byte>): (r: Result<(nat, seq<Byte>), Exception>)
    ensures r.Ok? <==> |stream| >= 4
    ensures r.Err? ==> r.error == StructError
    ensures r.Ok? ==> r.value.0 < TWO_POW_32 && ToBytes4(r.value.0) == stream[..4] && r.value.1 == stream[4..]
  {
    if |stream| < 4 then Err(StructError)
    else
      BigEndianInverse(stream[..4]);
      Ok((FromBytes4(stream[..4]), stream[4..]))
  }

  /** The header the compressor writes (`length.to_bytes(4, "big")`) reads back as the
      length, leaving what followed it. */
  lemma HeaderRoundTrip(n: nat, rest: seq<Byte>)
    requires n < TWO_POW_32
    ensures ReadBigEndianInt(ToBytes4(n) + rest) == Ok((n, rest))
  {
    var data := ToBytes4(n) + rest;
    assert data[..4] == ToBytes4(n) && data[4..] == rest;
    BigEndianRoundTrip(n);
  }

  /** The test expectation: 00 00 00 07 is the length 7. */
  lemma HeaderSeven(data: seq<Byte>)
    requires data == [0, 0, 0, 7, 0xB0, 0x80]
    ensures ReadBigEndianInt(data) == Ok((7, [0xB0, 0x80]))
  {
    assert data[..4] == [0, 0, 0, 7];
  }

  /** The outcome of `decompress` given what the tree reader yields for a bit string (the
      tree and the bits it leaves unread, or its exception) and what the data decoder
      writes for a tree, the bits left and the length. */
  function DecompressWith(input: seq<Byte>,
                          deserializeTree: seq<Bit> -> Result<(Tree, seq<Bit>), Exception>,
                          decodeData: (Tree, seq<Bit>, nat) -> seq<Byte>): (r: Result<seq<Byte>, Exception>)
    ensures |input| < 4 ==> r == Err(StructError)
    ensures |input| >= 4 ==> (r.Ok? <==> deserializeTree(StreamBits(input[4..])).Ok?)
    ensures |input| >= 4 && r.Err? ==> r == Err(deserializeTree(StreamBits(input[4..])).error)
    ensures r.Ok? ==> |input| >= 4
    ensures r.Ok? ==>
      var (tree, left) := deserializeTree(StreamBits(input[4..])).value;
      r.value == decodeData(tree, left, FromBytes4(input[..4]))
  {
    match ReadBigEndianInt(input)
    case Err(e) => Err(e)
    case Ok((length, rest)) =>
      match deserializeTree(StreamBits(rest))
      case Err(e) => Err(e)
      case Ok((tree, left)) => Ok(decodeData(tree, left, length))
  }

  /** `HuffmanDecompressor.decompress`: the header, then a `BitReader` over the rest of the
      input, from which the tree is read and then, continuing where the tree ended, the
      `length` bytes of payload, which are written to the output. A short header or a
      failing tree reader leaves the output as it was. */
  method Decompress(input: seq<Byte>, output: Streams.OutputStream,
                    deserializeTree: seq<Bit> -> Result<(Tree, seq<Bit>), Exception>,
                    decodeData: (Tree, seq<Bit>, nat) -> seq<Byte>) returns (r: Result<(), Exception>)
    modifies output
    ensures r.Ok? <==> DecompressWith(input, deserializeTree, decodeData).Ok?
    ensures r.Err? ==> r.error == DecompressWith(input, deserializeTree, decodeData).error && output.data == old(output.data)
    ensures r.Ok? ==> output.data == old(output.data) + DecompressWith(input, deserializeTree, decodeData).value
  {
    var header := ReadBigEndianInt(input);
    if header.Err? {
      return Err(header.error);
    }
    var length := header.value.0;
    var bitReader := new DecompressionBitReader.BitReader(header.value.1);
    // the tree reader consumes its bits from the shared reader
    var tree := deserializeTree(bitReader.bits);
    if tree.Err? {
      return Err(tree.error);
    }
    bitReader.bits := tree.value.1;
    // the data decoder goes on from where the tree ended
    var data := decodeData(tree.value.0, bitReader.bits, length);
    output.Write(data);
    return Ok(());
  }
}
