/** The compressed format read back: what the compressor writes for an input, the
    decompressor turns back into that input, whichever Huffman tree of its counts the
    compressor happened to build. */
module RoundTrip {
  import opened Bits
  import opened Prelude
  import opened ResultTypes
  import opened HuffmanTree
  import opened CompressionFrequencyCounter
  import opened CompressionHuffmanEncoder
  import opened CompressionTreeSerializer
  import opened CompressionBitWriter
  import opened TreeDeserializer
  import opened DataDecoder
  import opened DecompressionDecompressor
  import opened Compressor
  import opened Decompressor
  import Streams

  /** Decompressing a compressed form gives back the input: the header reads back as the
      length, the tree bits parse back into the tree without its weights (with the same
      codes), and the codes decode back into the input bytes, the padding left unread. */
  lemma CompressedDecompresses(input: seq<Byte>, root: Tree, data: seq<Byte>)
    requires CompressesTo(input, root, data)
    ensures Decompressed(data) == Ok(input)
  {
    HuffmanTreeOfInput(input, root);
    var codes := GenerateHuffmanCodes(root);
    HuffmanCodesKeys(root);
    var tree, payload := SerializeTree(root), Encode(input, codes);
    var bits := CompressedBits(input, root);
    assert bits == tree + payload;
    HeaderRoundTrip(|input|, BitsToBytes(bits));
    PackUnpack(bits);
    var padding := Zeros(PadLength(|bits|));
    AppendAssoc(tree, payload, padding);
    ParseSerialized(root, payload + padding);
    HuffmanCodesStrip(root);
    DecodeEncoded(Strip(root), input, padding);
  }

  /** The round trip of the tests, on streams: compress the input into one stream, then
      decompress that stream's contents into another; the second holds the input. */
  method CompressThenDecompress(input: seq<Byte>) returns (output: seq<Byte>)
    requires 0 < |input| < TWO_POW_32
    ensures output == input
  {
    var compressed := new Streams.OutputStream();
    var compressing := Compress(input, compressed);
    ghost var root, data :| CompressesTo(input, root, data) && compressed.data == [] + data;
    assert compressed.data == data;
    CompressedDecompresses(input, root, data);
    var decompressor := new HuffmanDecompressor();
    var decompressed := new Streams.OutputStream();
    var decompressing := decompressor.Decompress(compressed.data, decompressed);
    assert decompressed.data == [] + input;
    output := decompressed.data;
  }
}
