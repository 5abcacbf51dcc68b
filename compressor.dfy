/** `compression/compressor.py`: the whole compressor. Two passes over the input:
    the first counts the bytes and builds the tree and its codes, the second
    writes the four-byte length, the serialised tree and the code of every input
    byte, all packed MSB first through a `BitWriter`. */
module Compressor {
  import opened Bits
  import opened Prelude
  import opened ResultTypes
  import opened HuffmanTree
  import Counting
  import opened CompressionFrequencyCounter
  import opened CompressionHuffmanEncoder
  import opened CompressionTreeSerializer
  import opened CompressionBitWriter
  import C = CompressionHuffmanTreeBuilder
  import Streams

  /** The bits after the header: the tree in pre-order, then the code of each input
      byte in input order. Every input byte must be a symbol of the tree. */
  function CompressedBits(input: seq<Byte>, root: Tree): seq<Bit>
    requires forall x | x in input :: x in Symbols(root)
  {
    HuffmanCodesKeys(root);
    SerializeTree(root) + Encode(input, GenerateHuffmanCodes(root))
  }

  /** The compressed form of an input under a tree: the big-endian length, then the
      packed bits. */
  function Compressed(input: seq<Byte>, root: Tree): seq<Byte>
    requires |input| < TWO_POW_32
    requires forall x | x in input :: x in Symbols(root)
  {
    ToBytes4(|input|) + BitsToBytes(CompressedBits(input, root))
  }

  /** The output that `compress` writes for an input and a Huffman tree of its counts:
      one the greedy merging of `build_huffman_tree` can end with (which one depends on
      how `heapq` orders trees of equal weight). */
  ghost predicate CompressesTo(input: seq<Byte>, root: Tree, data: seq<Byte>)
  {
    C.IsHuffmanTree(root, CreateFrequencyMap(input)) &&
    |input| < TWO_POW_32 && (forall x | x in input :: x in Symbols(root)) &&
    data == Compressed(input, root)
  }

  /** A Huffman tree of the input's counts holds every input byte, and its weight is the
      input's length. */
  lemma HuffmanTreeOfInput(input: seq<Byte>, root: Tree)
    requires C.IsHuffmanTree(root, CreateFrequencyMap(input))
    ensures forall x :: x in Symbols(root) <==> x in input
    ensures root.weight == |input|
  {
    C.HuffmanTreeSymbolsAndWeight(root, CreateFrequencyMap(input));
    FrequencyMapCounts(input);
    FrequenciesSumToLength(input);
  }

  /** The output is four header bytes and then ceil(bits / 8) bytes, where the bits are
      ten per distinct input byte less one for the tree, plus the codes. */
  lemma CompressedLength(input: seq<Byte>, root: Tree)
    requires |input| < TWO_POW_32 && forall x | x in input :: x in Symbols(root)
    ensures forall x | x in input :: x in GenerateHuffmanCodes(root)
    ensures |CompressedBits(input, root)| == 10 * |LeafItems(root)| - 1 + |Encode(input, GenerateHuffmanCodes(root))|
    ensures |Compressed(input, root)| == 4 + (|CompressedBits(input, root)| + 7) / 8
    ensures Compressed(input, root)[..4] == ToBytes4(|input|)
  {
    HuffmanCodesKeys(root);
    SerializedLength(root);
    PackUnpack(CompressedBits(input, root));
  }

  /** `HuffmanCompressor.compress`. An empty input fails in `build_huffman_tree` (IndexError)
      and a length of 2^32 or more in `to_bytes` (OverflowError), both before anything is
      written; otherwise the header and the packed bits are appended to the output. */
  method Compress(input: seq<Byte>, output: Streams.OutputStream) returns (r: Result<(), Exception>)
    modifies output
    ensures input == [] ==> r == Err(IndexError) && output.data == old(output.data)
    ensures |input| >= TWO_POW_32 ==> r == Err(OverflowError) && output.data == old(output.data)
    ensures 0 < |input| < TWO_POW_32 ==> r.Ok?
    ensures 0 < |input| < TWO_POW_32 ==>
      exists root, data :: CompressesTo(input, root, data) && output.data == old(output.data) + data
  {
    var frequencyMap := CreateFrequencyMap(input);
    var length := Counting.SumValues(frequencyMap);
    FrequenciesSumToLength(input);
    var huffmanTree := C.BuildHuffmanTree(frequencyMap);
    if huffmanTree.Err? {
      FrequencyMapCounts(input);
      return Err(huffmanTree.error);
    }
    HuffmanTreeOfInput(input, huffmanTree.value);
    if length >= TWO_POW_32 {
      return Err(OverflowError);
    }
    WriteCompressed(input, huffmanTree.value, output);
    assert CompressesTo(input, huffmanTree.value, Compressed(input, huffmanTree.value));
    return Ok(());
  }

  /** The writing half of `compress`: the header, then the chain of the tree bits and each
      input byte's code, packed. */
  method WriteCompressed(input: seq<Byte>, huffmanTree: Tree, output: Streams.OutputStream)
    requires |input| < TWO_POW_32 && forall x | x in input :: x in Symbols(huffmanTree)
    modifies output
    ensures output.data == old(output.data) + Compressed(input, huffmanTree)
  {
    var codes := GenerateHuffmanCodes(huffmanTree);
    HuffmanCodesKeys(huffmanTree);
    var header := ToBytes4(|input|);
    var allBits := SerializeTree(huffmanTree) + Encode(input, codes);
    WritePacked(header, allBits, output);
  }

  /** Writes the header to the stream, then feeds the bits one by one to a `BitWriter` on
      that stream and flushes it. */
  method WritePacked(header: seq<Byte>, allBits: seq<Bit>, output: Streams.OutputStream)
    modifies output
    ensures output.data == old(output.data) + (header + BitsToBytes(allBits))
  {
    output.Write(header);
    var bitWriter := new BitWriter(output);
    WriteAllBits(bitWriter, allBits);
    assert [] + allBits == allBits;
    ghost var withHeader := output.data;
    bitWriter.Flush();
    assert output.data == withHeader + BitsToBytes(allBits);
    Streams.WritesCompose(old(output.data), header, BitsToBytes(allBits));
  }

  /** `for bit in all_bits: bit_writer.write_bit(bit)`: the bits join the writer's pending
      bits in order, and nothing reaches the stream. */
  method WriteAllBits(bitWriter: BitWriter, allBits: seq<Bit>)
    modifies bitWriter`bits
    ensures bitWriter.bits == old(bitWriter.bits) + allBits
  {
    for i := 0 to |allBits|
      invariant bitWriter.bits == old(bitWriter.bits) + allBits[..i]
    {
      bitWriter.WriteBit(allBits[i]);
      assert allBits[..i + 1] == allBits[..i] + [allBits[i]];
    }
    assert allBits[..|allBits|] == allBits;
  }

  /** The test expectation: "a" compresses to 00 00 00 01 B0 80 (the leaf 'a' as 1 01100001,
      its code 0, then seven bits of padding). */
  method CompressSingleA() returns (written: seq<Byte>)
    ensures written == [0, 0, 0, 1, 0xB0, 0x80]
  {
    var output := new Streams.OutputStream();
    var r := Compress([97], output);
    written := output.data;
    ghost var root, data :| CompressesTo([97], root, data) && written == [] + data;
    SingleATree([97], root);
    SingleAForm([97]);
  }

  /** The only Huffman tree of "a" is the leaf 'a'. */
  lemma SingleATree(input: seq<Byte>, root: Tree)
    requires input == [97] && C.IsHuffmanTree(root, CreateFrequencyMap(input))
    ensures root == Leaf(97, 1)
  {
    SingleACounts(input);
    SingleLeaf(root, CreateFrequencyMap(input));
  }

  lemma SingleACounts(input: seq<Byte>)
    requires input == [97]
    ensures CreateFrequencyMap(input) == map[97 := 1]
  {
    FrequencyMapCounts(input);
  }

  lemma SingleLeaf(root: Tree, counts: map<Byte, int>)
    requires counts == map[97 := 1] && C.IsHuffmanTree(root, counts)
    ensures root == Leaf(97, 1)
  {
    C.HuffmanTreeShape(root, counts);
    assert 97 in counts;
  }

  /** Under the leaf 'a', "a" compresses to 00 00 00 01 B0 80. */
  lemma SingleAForm(input: seq<Byte>)
    requires input == [97]
    ensures Compressed(input, Leaf(97, 1)) == [0, 0, 0, 1, 0xB0, 0x80]
  {
    var bits := CompressedBits(input, Leaf(97, 1));
    SingleABits(input, bits);
    PackSingleA([1, 0, 1, 1, 0, 0, 0, 0], [1, 0]);
    HeaderOne(|input|);
  }

  /** The length 1 is the header 00 00 00 01. */
  lemma HeaderOne(n: nat)
    requires n == 1
    ensures ToBytes4(n) == [0, 0, 0, 1]
  {
  }

  /** The bits of "a" are the leaf 1 01100001 and then its code 0. */
  lemma SingleABits(input: seq<Byte>, bits: seq<Bit>)
    requires input == [97] && bits == CompressedBits(input, Leaf(97, 1))
    ensures bits == [1, 0, 1, 1, 0, 0, 0, 0] + [1, 0]
  {
    assert ByteBits(97) == [0, 1, 1, 0, 0, 0, 0, 1];
    assert Encode(input, map[97 := [0]]) == [0] + Encode([], map[97 := [0]]);
  }

  /** 10110000 then 10 pack into B0 80. */
  lemma PackSingleA(high: seq<Bit>, low: seq<Bit>)
    requires high == [1, 0, 1, 1, 0, 0, 0, 0] && low == [1, 0]
    ensures BitsToBytes(high + low) == [0xB0, 0x80]
  {
    PackB0(high);
    Pack80(low);
    BitsToBytesAppend(high, low);
  }

  /** 10110000 packs into B0, and 10 into 80. */
  lemma PackB0(high: seq<Bit>)
    requires high == [1, 0, 1, 1, 0, 0, 0, 0]
    ensures BitsToBytes(high) == [0xB0]
  {
    assert ByteBits(0xB0) == high + Zeros(0);
    PackByte(high, 0xB0);
  }

  lemma Pack80(low: seq<Bit>)
    requires low == [1, 0]
    ensures BitsToBytes(low) == [0x80]
  {
    assert ByteBits(0x80) == low + Zeros(6);
    PackByte(low, 0x80);
  }
}
