/** `decompressor.py`: the decompressor object. It keeps the length it read from
    the header and the tree it rebuilt, and writes the decoded bytes to the output;
    the header, the tree and the payload are read in that order from one stream,
    through a single `BitReader` for the tree and the payload. */
module Decompressor {
  import opened Bits
  import opened Prelude
  import opened ResultTypes
  import opened HuffmanTree
  import opened TreeDeserializer
  import opened DataDecoder
  import opened DecompressionDecompressor
  import BitReader
  import Streams

  /** What decompressing `data` gives: the header's length, the tree read from the bits
      right after the header, and then `length` bytes decoded from the bits right after
      the tree. A short header is a struct.error and a truncated tree the reader's
      IndexError; a payload that runs out just gives fewer bytes. */
  function Decompressed(data: seq<Byte>): (r: Result<seq<Byte>, Exception>)
    ensures |data| < 4 ==> r == Err(StructError)
    ensures |data| >= 4 ==> (r.Ok? <==> ParseTree(StreamBits(data[4..])).Ok?)
    ensures r.Err? ==> r.error == StructError || r.error == IndexError
    ensures r.Ok? ==> |data| >= 4 && |r.value| <= FromBytes4(data[..4])
  {
    match ReadBigEndianInt(data)
    case Err(e) => Err(e)
    case Ok((length, rest)) =>
      match ParseTree(StreamBits(rest))
      case Err(e) => Err(e)
      case Ok((tree, left)) => Ok(DecodedData(tree, left, length))
  }

  /** The two decompressors agree: this one is the decompression package's with the tree
      grammar and the data decoder of this package as its collaborators. */
  lemma SameAsDecompressionPackage(data: seq<Byte>)
    ensures Decompressed(data) == DecompressWith(data, ParseTree, (t, bits, n) => DecodedData(t, bits, n))
  {
    if |data| >= 4 {
      var rest := data[4..];
      var parsed := ParseTree(StreamBits(rest));
      if parsed.Ok? {
        assert DecompressWith(data, ParseTree, (t, bits, n) => DecodedData(t, bits, n)) ==
          Ok(DecodedData(parsed.value.0, parsed.value.1, FromBytes4(data[..4])));
      }
    }
  }

  /** `HuffmanDecompressor`: `_length` and `_tree` are None until `decompress` sets them. */
  class HuffmanDecompressor {
    var length: Option<nat>
    var tree: Option<Tree>

    constructor()
      ensures length == None && tree == None
    {
      length := None;
      tree := None;
    }

    /** `decompress`: reads the header into `_length`, builds a `BitReader` on the rest of
        the input, rebuilds the tree into `_tree` and decodes `_length` bytes from the same
        reader onto the output. An exception leaves the fields it had not reached and the
        output as they were. */
    method Decompress(input: seq<Byte>, output: Streams.OutputStream) returns (r: Result<(), Exception>)
      modifies this, output
      ensures r.Ok? <==> Decompressed(input).Ok?
      ensures r.Err? ==> r.error == Decompressed(input).error && output.data == old(output.data)
      ensures r.Ok? ==> output.data == old(output.data) + Decompressed(input).value
      ensures |input| < 4 ==> length == old(length) && tree == old(tree)
      ensures |input| >= 4 ==> length == Some(FromBytes4(input[..4]))
      ensures |input| >= 4 && r.Err? ==> tree == old(tree)
      ensures r.Ok? ==> tree == Some(ParseTree(StreamBits(input[4..])).value.0)
    {
      var header := ReadBigEndianInt(input);
      if header.Err? {
        return Err(header.error);
      }
      length := Some(header.value.0);
      var bitReader := new BitReader.BitReader(header.value.1);
      ghost var outcome := ParseTree(StreamBits(header.value.1));
      var parsed := DeserializeTree(bitReader);
      if parsed.Err? {
        assert Decompressed(input) == Err(outcome.error);
        return Err(parsed.error);
      }
      tree := Some(parsed.value);
      ghost var left := bitReader.Remaining();
      assert Decompressed(input) == Ok(DecodedData(parsed.value, left, header.value.0));
      var decoded := DecodeData(parsed.value, bitReader, header.value.0);
      output.Write(decoded);
      return Ok(());
    }
  }

  /** The test expectation: 00 00 00 07 B0 80 sets the length to 7. */
  method ReadsLength() returns (length: Option<nat>)
    ensures length == Some(7)
  {
    var decompressor := new HuffmanDecompressor();
    var output := new Streams.OutputStream();
    var input: seq<Byte> := [0, 0, 0, 7, 0xB0, 0x80];
    HeaderSeven(input);
    var r := decompressor.Decompress(input, output);
    length := decompressor.length;
  }

  /** The test expectation: 00 00 00 01 B0 80 rebuilds the leaf 'a' (the tree bits
      1 01100001, then padding), and the one byte decoded is 'a'. */
  method ReadsSingleCharacterTree() returns (tree: Option<Tree>, written: seq<Byte>)
    ensures tree == Some(Leaf(97, 0)) && written == [97]
  {
    var decompressor := new HuffmanDecompressor();
    var output := new Streams.OutputStream();
    var input: seq<Byte> := [0, 0, 0, 1, 0xB0, 0x80];
    assert input[..4] == [0, 0, 0, 1] && input[4..] == [0xB0, 0x80];
    LeafAStream(StreamBits(input[4..]));
    var r := decompressor.Decompress(input, output);
    tree := decompressor.tree;
    written := output.data;
  }

  /** B0 80 holds the leaf 'a' followed by seven bits of padding. */
  lemma LeafAStream(bits: seq<Bit>)
    requires bits == StreamBits([0xB0, 0x80])
    ensures ParseTree(bits) == Ok((Leaf(97, 0), [0, 0, 0, 0, 0, 0, 0]))
    ensures DecodedData(Leaf(97, 0), [0, 0, 0, 0, 0, 0, 0], 1) == [97]
  {
    TwoByteBits(bits, 0xB0, 0x80);
    ByteB0();
    Byte80();
    LeafA(ByteBits(0xB0), ByteBits(0x80));
  }

  lemma LeafA(first: seq<Bit>, second: seq<Bit>)
    requires first == [1, 0, 1, 1, 0, 0, 0, 0] && second == [1, 0, 0, 0, 0, 0, 0, 0]
    ensures ParseTree(first + second) == Ok((Leaf(97, 0), second[1..]))
  {
    var code := first[1..] + [second[0]];
    assert first + second == [1] + code + second[1..];
    ParseLeafBits(first + second, code, second[1..]);
    LetterA(code);
  }

  lemma ByteB0()
    ensures ByteBits(0xB0) == [1, 0, 1, 1, 0, 0, 0, 0]
  {
  }

  lemma Byte80()
    ensures ByteBits(0x80) == [1, 0, 0, 0, 0, 0, 0, 0]
  {
  }
}
