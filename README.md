# Static Huffman compression of byte streams, modelled in Dafny

This project models the core of `tdd_ai_py`, a static Huffman compressor and
decompressor over bytes, and proves properties of the model. The compressor counts the
bytes of its input, builds a Huffman tree by repeatedly merging the two lightest trees,
and derives each byte's code as its root-to-leaf path (0 for left, 1 for right). It then
writes:

- a four-byte big-endian length;
- the tree in pre-order: `0` for an internal node, `1` and eight bits MSB first for a
  leaf;
- the code of every input byte, in input order.

All bits are packed MSB first and zero-padded to a whole byte. The decompressor reads
the length, rebuilds the tree from the bits that follow, and walks the tree bit by bit
until it has produced `length` bytes.

The repository holds two generations of most stages. The `compression/` and
`decompression/` packages work on integer bit lists. The top-level modules use
`"0"`/`"1"` strings, integer bit buffers and a byte-buffered bit reader. Each source
file is one Dafny module named after it (for example `compression/bit_writer.py` is
`CompressionBitWriter` and `bit_writer.py` is `BitWriter`).

Shared vocabulary:

- `Bits`: bits, bytes and their big-endian and MSB-first encodings.
- `Counting`: occurrence counts and sums over maps.
- `HuffmanTree`: the one tree datatype, `Leaf(symbol, weight) | Node(left, right, weight)`.
- `ResultTypes.Result`: the repository's own `Ok`/`Err`. Every Python exception of the
  core becomes an `Err` carrying a `Prelude.Exception`.
- `Streams.OutputStream`: the output byte stream, written by appending.

Input streams are byte sequences, and the compressor's `seek(0)` is a second read of
the same sequence. Classes whose fields the source updates in place (`BitWriter`,
`BitReader`, `_CompressedDataDecoder`, `HuffmanDecompressor`, the code table of the
string encoder) are Dafny classes. Their methods state their new state. The Huffman
heap is a multiset with an extract-minimum that may return any of the lightest trees.
`CompressionHuffmanTreeBuilder.GreedyFrom` says which trees the merging of a heap can
end with, and `IsHuffmanTree` says which trees the merging of a map's leaves can end with.

The main results are these:

- `RoundTrip.CompressedDecompresses`: the decompressor turns every compressed form of an
  input back into that input. The compressed form uses a Huffman tree of the input's
  counts: a tree the greedy merging of `build_huffman_tree` can end with. Merges of
  trees of equal weight may go either way.
- `CompressionHuffmanTreeBuilder.BuildHuffmanTree`: the loop keeps the invariant that
  every tree the remaining heap can be merged into is one the leaf heap can be merged
  into, where each round pops two trees no heavier than any tree left.
- `TreeDeserializer.ParseSerialized`: reading a serialised tree gives back the tree
  without its weights.
- `DataDecoder.DecodeEncoded`: walking the concatenated codes of a byte string gives
  back the string.
- `CompressionBitWriter.PackUnpack`: packing bits into bytes and reading them back MSB
  first gives the bits followed by fewer than eight zeros.

## Model

| member | source | states |
|---|---|---|
| Bits.ByteBits | src/tdd_ai_py/compression/tree_serializer.py:9 | `format(b, "08b")` as bits: exactly eight of them |
| Bits.ByteBitsValue | src/tdd_ai_py/compression/tree_serializer.py:9 | reading a byte's eight bits MSB first gives the byte back |
| Bits.ValueByteBits | src/tdd_ai_py/tree_deserializer.py:10-13 | any eight bits read MSB first are a value below 256 whose eight-bit form is those bits |
| Bits.BitsValueAppend | src/tdd_ai_py/tree_deserializer.py:13 | `(v << 1) \| bit`: one more bit doubles the value read so far and adds the bit |
| Bits.StreamBits | src/tdd_ai_py/decompression/bit_reader.py:4-12 | a stream's bits are eight per byte |
| Bits.StreamBitsAppend | src/tdd_ai_py/decompression/bit_reader.py:4-12 | the bits of two streams in a row are the first stream's bits followed by the second's |
| Bits.BitString | src/tdd_ai_py/tree_serializer.py:13 | bits as a `"0"`/`"1"` string: same length, `'0'` exactly where the bit is 0, nothing but `'0'` and `'1'` |
| Bits.BitStringAppend | src/tdd_ai_py/tree_serializer.py:15-21 | the string of concatenated bits is the concatenation of the strings |
| Bits.ToBytes4 | src/tdd_ai_py/compression/compressor.py:21 | `length.to_bytes(4, "big")` is four bytes |
| Bits.FromBytes4 | src/tdd_ai_py/decompressor.py:26-28 | four big-endian bytes are a value below 2^32 |
| Bits.BigEndianRoundTrip | src/tdd_ai_py/decompression/decompressor.py:10-12 | reading back the four header bytes of a length below 2^32 gives that length |
| Bits.BigEndianInverse | src/tdd_ai_py/decompressor.py:26-28 | writing out the value of any four bytes gives the same four bytes |
| Bits.NatBitsShiftLeft | src/tdd_ai_py/bit_writer.py:17 | shifting a k-bit value left appends zeros to its bits |
| Bits.NatBitsShr | src/tdd_ai_py/decompression/bit_reader.py:12 | bit i of an n-bit value, counted from the top, is `(v >> (n-1-i)) & 1` |
| Bits.ZerosValue | src/tdd_ai_py/compression/bit_writer.py:16-18 | zero padding reads as the value 0 |
| Bits.NatBitsValue | src/tdd_ai_py/compression/bit_writer.py:18 | the n-bit form of a value below 2^n reads back as the value |
| Bits.ValueNatBits | src/tdd_ai_py/compression/bit_writer.py:18 | the n-bit form of a string's value is the string |
| Bits.ByteBitsShift | src/tdd_ai_py/bit_reader.py:24-28 | a byte's top bit is `(b >> 7) & 1`; `(b << 1) & 0xFF` drops it and appends a 0 |
| Counting.Tally | src/tdd_ai_py/compression/frequency_counter.py:12 | `dict(Counter(s))` is empty exactly when s is |
| Counting.TallyCounts | src/tdd_ai_py/compression/frequency_counter.py:12 | `Counter`: keys exactly the elements, each mapped to its multiplicity, at least 1 |
| Counting.TallyTotal | src/tdd_ai_py/compression/compressor.py:16 | the counts sum to the length of the counted sequence |
| Counting.SumValues | src/tdd_ai_py/compression/compressor.py:16 | `sum(frequency_map.values())` computed by a loop equals the sum of the map's values |
| Counting.MapItemsEntries | src/tdd_ai_py/compression/huffman_tree_builder.py:61 | `items()` holds each key once, paired with its value, and nothing else |
| Counting.MapItemsTotal | src/tdd_ai_py/immutable_data.py:13-16 | summing over `items()` gives the sum of the values |
| CompressionBitWriter.Chunks | src/tdd_ai_py/compression/bit_writer.py:5-12 | no chunks exactly when there are no bits or the size is 0; never more chunks than bits |
| CompressionBitWriter.ChunkBits | src/tdd_ai_py/compression/bit_writer.py:5-12 | the loop yields exactly the chunks of the specification function `Chunks` |
| CompressionBitWriter.ChunksPartition | src/tdd_ai_py/compression/bit_writer.py:5-12 | chunks concatenate back to the bits; none is empty or longer than the size; all but the last have exactly the size |
| CompressionBitWriter.BitsToByte | src/tdd_ai_py/compression/bit_writer.py:15-18 | the byte's eight bits are the chunk right-padded with zeros |
| CompressionBitWriter.PackByte | src/tdd_ai_py/compression/bit_writer.py:15-18 | a byte whose bits are the padded chunk is the one `bits_to_byte` returns |
| CompressionBitWriter.BitsToBytes | src/tdd_ai_py/compression/bit_writer.py:21-23 | ceil(n/8) bytes for n bits: enough to hold them, with fewer than eight bits to spare |
| CompressionBitWriter.BitsToBytesChunks | src/tdd_ai_py/compression/bit_writer.py:21-23 | one byte per eight-bit chunk, in order, byte i packing chunk i |
| CompressionBitWriter.PadLength | src/tdd_ai_py/compression/bit_writer.py:17 | the padding is below 8 and completes a whole byte |
| CompressionBitWriter.PackUnpack | src/tdd_ai_py/compression/bit_writer.py:15-23 | n bits pack into ceil(n/8) bytes whose bits are the input followed by the padding zeros |
| CompressionBitWriter.BitsToBytesAppend | src/tdd_ai_py/compression/bit_writer.py:21-23 | packing a whole number of bytes and then the rest is packing both together |
| CompressionBitWriter.BitWriter.constructor | src/tdd_ai_py/compression/bit_writer.py:27-29 | the writer keeps its output stream and starts with no pending bits |
| CompressionBitWriter.BitWriter.WriteBit | src/tdd_ai_py/compression/bit_writer.py:31-32 | appends `bit & 1` to the pending bits; nothing else changes |
| CompressionBitWriter.BitWriter.Flush | src/tdd_ai_py/compression/bit_writer.py:34-37 | appends the packed pending bits to the output and clears them |
| CompressionBitWriter.WriteOneAndFlush | tests/test_bit_writer.py:11-22 | a single 1 bit is written as the byte 0x80 |
| BitWriter.BitWriter.constructor | src/tdd_ai_py/bit_writer.py:3-5 | empty buffer, zero count, nothing pending |
| BitWriter.BitWriter.WriteBit | src/tdd_ai_py/bit_writer.py:7-10 | buffer becomes `2·buffer + (bit & 1)`, the count grows by one, the buffer stays below 2^count |
| BitWriter.BitWriter.Flush | src/tdd_ai_py/bit_writer.py:12-23 | no bits: empty result; 1 to 8 bits: one byte of the pending bits padded with zeros, then reset; more than 8: the ValueError of a negative shift, state kept |
| BitWriter.PaddedBuffer | src/tdd_ai_py/bit_writer.py:17 | shifting k pending bits left by 8-k gives a byte whose bits are those bits and then zeros |
| BitWriter.WriteOneAndFlush | src/tdd_ai_py/bit_writer.py:12-23 | writing a 1 and flushing returns the byte 0x80 |
| BitReader.BitReader.constructor | src/tdd_ai_py/bit_reader.py:5-8 | empty buffer; the bits still to come are the stream's bits |
| BitReader.BitReader.ReadBit | src/tdd_ai_py/bit_reader.py:10-14 | returns the next bit of the stream in MSB-first order; takes a byte from the stream only when the buffer is empty; an exhausted stream is an IndexError that changes nothing |
| BitReader.BitReader.NeedsNewByte | src/tdd_ai_py/bit_reader.py:16-17 | true exactly when the bits still to come are those of the unread stream, the buffer having none left |
| BitReader.BitReader.LoadNextByte | src/tdd_ai_py/bit_reader.py:19-22 | takes the stream's head into the buffer with eight bits; an empty stream is an IndexError |
| BitReader.BitReader.ExtractNextBit | src/tdd_ai_py/bit_reader.py:24-28 | returns the buffer's top bit, shifts the buffer left within a byte and decrements the count |
| BitReader.BufferShift | src/tdd_ai_py/bit_reader.py:24-28 | the shifted buffer holds the remaining bits after the one returned |
| BitReader.FirstBitOfA | tests/test_bit_reader.py:11-19 | the first bit read from `a` is 0 |
| DecompressionBitReader.BitsFromStream | src/tdd_ai_py/decompression/bit_reader.py:4-12 | the generator's bits are each byte's eight bits, MSB first, in stream order, and end with the stream |
| DecompressionBitReader.StreamBitsAt | src/tdd_ai_py/decompression/bit_reader.py:11-12 | bit k of the stream is bit k mod 8 of byte k / 8 |
| DecompressionBitReader.StreamBitsShr | src/tdd_ai_py/decompression/bit_reader.py:12 | bit k of the stream is `(byte >> (7 - k mod 8)) & 1` |
| DecompressionBitReader.BitReader.constructor | src/tdd_ai_py/decompression/bit_reader.py:16-17 | the reader holds the stream's bits |
| DecompressionBitReader.BitReader.ReadBit | src/tdd_ai_py/decompression/bit_reader.py:19-23 | returns and consumes the next bit; when none is left, EOFError |
| CompressionFrequencyCounter.CreateFrequencyMap | src/tdd_ai_py/compression/frequency_counter.py:7-12 | the map is empty exactly when the stream is |
| CompressionFrequencyCounter.FrequencyMapCounts | src/tdd_ai_py/compression/frequency_counter.py:7-12 | keys are exactly the stream's bytes, each mapped to its number of occurrences |
| CompressionFrequencyCounter.FrequenciesSumToLength | src/tdd_ai_py/compression/frequency_counter.py:7-12 | the counts sum to the stream's length |
| CompressionFrequencyCounter.EmptyStream | tests/test_frequency_counter.py:22-28 | an empty stream gives an empty map |
| CompressionFrequencyCounter.Abracadabra | tests/test_frequency_counter.py:8-20 | `abracadabra` gives a:5, b:2, r:2, c:1, d:1 |
| CompressionFrequencyCounter.Hello | tests/test_frequency_counter.py:38-49 | `hello` gives h:1, e:1, l:2, o:1 |
| FrequencyCounter.CreateFrequencyMap | src/tdd_ai_py/frequency_counter.py:7-12 | the map is empty exactly when the stream is |
| FrequencyCounter.FrequencyMapCounts | src/tdd_ai_py/frequency_counter.py:7-12 | keys are the stream's bytes with their occurrence counts; the counts sum to the length; the map is empty exactly when the stream is |
| FrequencyAnalyzer.CreateFrequencyMap | src/tdd_ai_py/frequency_analyzer.py:7-18 | the map is empty exactly when the text is |
| FrequencyAnalyzer.FrequencyMapCounts | src/tdd_ai_py/frequency_analyzer.py:7-18 | keys are the text's characters with their occurrence counts, summing to the text's length |
| FrequencyAnalyzer.ShortTexts | tests/test_frequency_analyzer.py:23-45 | `""` gives `{}` and `"a"` gives `{a: 1}` |
| FrequencyAnalyzer.Abracadabra | tests/test_frequency_analyzer.py:11-21 | `"abracadabra"` gives a:5, b:2, r:2, c:1, d:1 |
| FrequencyAnalyzer.Hello | tests/test_frequency_analyzer.py:47-57 | `"hello"` gives h:1, e:1, l:2, o:1 |
| HigherOrderFunctions.FoldLeft | src/tdd_ai_py/higher_order_functions.py:12-25 | no elements give the initial value; one element gives one application of the step |
| HigherOrderFunctions.FoldLeftSnoc | src/tdd_ai_py/higher_order_functions.py:12-25 | folding over one more element applies the step once more to the earlier result |
| HigherOrderFunctions.FoldLeftAppend | src/tdd_ai_py/higher_order_functions.py:12-25 | folding over two sequences in a row is folding the second from the first's result |
| HigherOrderFunctions.MapTransform | src/tdd_ai_py/higher_order_functions.py:28-38 | same length; element i of the result is `func` of element i |
| HigherOrderFunctions.FilterTransform | src/tdd_ai_py/higher_order_functions.py:41-53 | no longer than the input; every element kept satisfies the predicate |
| HigherOrderFunctions.FilterKeepsExactly | src/tdd_ai_py/higher_order_functions.py:41-53 | an element is kept exactly when it is in the input and satisfies the predicate, each as often as in the input |
| HigherOrderFunctions.FilterAppend | src/tdd_ai_py/higher_order_functions.py:41-53 | filtering keeps the input's order: filtering two sequences in a row is filtering each |
| HigherOrderFunctions.ApplyToStream | src/tdd_ai_py/higher_order_functions.py:93-105 | same length; element i of the result is `func` of element i |
| HigherOrderFunctions.AccumulateFrequency | src/tdd_ai_py/higher_order_functions.py:66-69 | a new map with the byte's count raised by one and every other count unchanged |
| HigherOrderFunctions.FrequencyFoldCounts | src/tdd_ai_py/higher_order_functions.py:56-71 | folding the step from the counts of a prefix gives the counts of the whole |
| HigherOrderFunctions.CreateFrequencyMapFunctional | src/tdd_ai_py/higher_order_functions.py:56-71 | the functional map is the map of `compression/frequency_counter.py` for the same stream |
| HigherOrderFunctions.CountFrequenciesFunctional | src/tdd_ai_py/higher_order_functions.py:108-127 | keys are exactly the input's bytes, each mapped to its number of occurrences |
| HigherOrderFunctions.FlattenCode | src/tdd_ai_py/higher_order_functions.py:87-88 | an error is kept; an Ok list succeeds exactly for a byte with a code and only grows, by that code |
| HigherOrderFunctions.FlattenFold | src/tdd_ai_py/higher_order_functions.py:87-88 | the fold appends each byte's code to the bits so far, and the first byte without a code ends it with KeyError |
| HigherOrderFunctions.EncodeLength | src/tdd_ai_py/higher_order_functions.py:74-90 | the encoded length is the sum of the input bytes' code lengths |
| HigherOrderFunctions.EncodeBytesFunctional | src/tdd_ai_py/higher_order_functions.py:74-90 | succeeds exactly when every byte has a code, and then gives the payload of `compression/huffman_encoder.py`'s codes in input order |
| HigherOrderFunctions.EncodeBytesFunctionalConcatenates | src/tdd_ai_py/higher_order_functions.py:74-90 | with every byte coded: the concatenation of the codes in input order, as long as the sum of their lengths; otherwise KeyError |
| ImmutableData.FrequencyMap.TotalCount | src/tdd_ai_py/immutable_data.py:13-16 | the sum of all the frequencies |
| ImmutableData.FrequencyMap.UniqueBytes | src/tdd_ai_py/immutable_data.py:18-21 | exactly the key set |
| ImmutableData.FrequencyMap.GetFrequency | src/tdd_ai_py/immutable_data.py:23-25 | the stored count, or 0 for an absent byte |
| ImmutableData.FrequencyMapOfStream | src/tdd_ai_py/immutable_data.py:7-25 | over a stream's counts: each byte's frequency is its occurrence count, the unique bytes are the stream's, the total is the length |
| ImmutableData.HuffmanCodes.GetCode | src/tdd_ai_py/immutable_data.py:34-36 | the stored code for a present byte; KeyError for an absent one |
| ImmutableData.HuffmanCodes.ByteValues | src/tdd_ai_py/immutable_data.py:38-41 | exactly the bytes `get_code` succeeds on |
| ImmutableData.CompressionHeader.ToBytes | src/tdd_ai_py/immutable_data.py:50-52 | four bytes that read back big-endian as the length when 0 ≤ length < 2^32; OverflowError otherwise |
| ImmutableData.CompressionContext.Create | src/tdd_ai_py/immutable_data.py:63-73 | the given frequencies, a header whose length is their total, no codes |
| ImmutableData.CompressionContext.WithCodes | src/tdd_ai_py/immutable_data.py:75-81 | replaces the codes and keeps the frequency map and the header |
| ImmutableData.CreateForStream | src/tdd_ai_py/immutable_data.py:63-81 | the context of a stream: header length is the stream's length, frequencies its occurrence counts |
| ResultTypes.Result.IsOk | src/tdd_ai_py/result_types.py:57-61 | `is_ok` is the complement of `is_err` |
| ResultTypes.Result.IsErr | src/tdd_ai_py/result_types.py:60-61 | `is_err` is true exactly for a value that is not `Ok` |
| ResultTypes.Result.Map | src/tdd_ai_py/result_types.py:63-67 | `Ok(v)` becomes `Ok(f(v))`; an `Err` is kept |
| ResultTypes.Result.MapErr | src/tdd_ai_py/result_types.py:69-70 | an `Ok` is kept; `Err(e)` becomes `Err(f(e))` |
| ResultTypes.Result.AndThen | src/tdd_ai_py/result_types.py:72-76 | `Ok(v)` gives `f(v)`; an `Err` is kept |
| ResultTypes.Result.Unwrap | src/tdd_ai_py/result_types.py:78-79 | the value of an `Ok`; an `Err` raises RuntimeError |
| ResultTypes.Result.UnwrapOr | src/tdd_ai_py/result_types.py:81-82 | the value of an `Ok`, the default for an `Err` |
| ResultTypes.MapIdentity | src/tdd_ai_py/result_types.py:97-98 | mapping the identity changes nothing |
| ResultTypes.MapCompose | src/tdd_ai_py/result_types.py:63-67 | mapping twice is mapping the composition |
| ResultTypes.AndThenUnits | src/tdd_ai_py/result_types.py:103-104 | `Ok` is a unit of `and_then` on both sides |
| ResultTypes.AndThenAssociative | src/tdd_ai_py/result_types.py:72-76 | chaining `and_then` is associative |
| ResultTypes.MapIsAndThen | src/tdd_ai_py/result_types.py:97-98 | `map(f)` is `and_then` of `Ok ∘ f` |
| ResultTypes.UnwrapAgrees | src/tdd_ai_py/result_types.py:106-110 | on an `Ok`, `unwrap` gives what `unwrap_or` gives; `unwrap` commutes with `map` |
| Streams.OutputStream.Write | src/tdd_ai_py/compression/compressor.py:21 | writing appends the bytes to what the stream holds |
| HuffmanTree.Tree.IsLeaf | src/tdd_ai_py/compression/huffman_tree_builder.py:32-34 | a node is a leaf exactly when it has no children |
| HuffmanTree.Less | src/tdd_ai_py/compression/huffman_tree_builder.py:36-37 | no tree comes before itself, and trees of equal weight are unordered |
| HuffmanTree.LessIsStrictOrder | src/tdd_ai_py/huffman_tree_builder.py:54-56 | `__lt__` compares weights only: irreflexive, asymmetric, transitive, blind to shape |
| HuffmanTree.Strip | src/tdd_ai_py/tree_deserializer.py:14-19 | the tree with every weight 0: same shape and symbols |
| HuffmanTree.PathToSymbol | src/tdd_ai_py/compression/huffman_encoder.py:9-17 | a root-to-leaf path ends at one of the tree's symbols and is non-empty below an internal root |
| HuffmanTree.PathsPrefixFree | src/tdd_ai_py/compression/huffman_encoder.py:9-17 | no root-to-leaf path is a proper prefix of another; equal paths reach the same symbol |
| HuffmanTree.RootWeightIsLeafSum | src/tdd_ai_py/compression/huffman_tree_builder.py:54-55 | when every internal weight is its children's sum, the root weight is the sum of the leaf weights |
| HuffmanTree.SymbolsAreLeafItems | src/tdd_ai_py/compression/huffman_tree_builder.py:50-55 | the tree's symbols are exactly the symbols of its leaves |
| HuffmanTree.NodeHasTwoLeaves | src/tdd_ai_py/compression/huffman_tree_builder.py:54-55 | an internal node has at least two leaves |
| CompressionHuffmanTreeBuilder.MinIndex | src/tdd_ai_py/compression/huffman_tree_builder.py:15-16 | the first position of least key, optionally skipping one position |
| CompressionHuffmanTreeBuilder.FirstMinUnique | src/tdd_ai_py/compression/huffman_tree_builder.py:15-16 | the first least position is unique |
| CompressionHuffmanTreeBuilder.FindTwoLowestItems | src/tdd_ai_py/compression/huffman_tree_builder.py:7-16 | empty: ValueError("At least one item is required"); one item x: (x, x); otherwise the first two items of a stable sort by key |
| CompressionHuffmanTreeBuilder.FindTwoLowestAt | src/tdd_ai_py/compression/huffman_tree_builder.py:14-16 | the two positions of a stable lowest pair are what is returned |
| CompressionHuffmanTreeBuilder.CreateLeafNode | src/tdd_ai_py/compression/huffman_tree_builder.py:50-51 | a leaf holding exactly that symbol and weight |
| CompressionHuffmanTreeBuilder.CreateInternalNode | src/tdd_ai_py/compression/huffman_tree_builder.py:54-55 | a non-leaf with exactly those children, the sum of their weights, and their leaves |
| CompressionHuffmanTreeBuilder.HeapPop | src/tdd_ai_py/compression/huffman_tree_builder.py:66-67 | removes one tree no heavier than any tree left |
| CompressionHuffmanTreeBuilder.LightestExists | src/tdd_ai_py/compression/huffman_tree_builder.py:66-67 | a non-empty heap has a lightest tree |
| CompressionHuffmanTreeBuilder.HeapItemsRemove | src/tdd_ai_py/compression/huffman_tree_builder.py:66-67 | the heap's leaves are the popped tree's leaves plus the rest's |
| CompressionHuffmanTreeBuilder.InitialHeap | src/tdd_ai_py/compression/huffman_tree_builder.py:61-62 | one well-weighted leaf per map entry, together holding exactly the map's items |
| CompressionHuffmanTreeBuilder.MergeKeepsItems | src/tdd_ai_py/compression/huffman_tree_builder.py:66-69 | replacing two trees by their merge keeps the heap's leaves |
| CompressionHuffmanTreeBuilder.MergeKeepsWeights | src/tdd_ai_py/compression/huffman_tree_builder.py:66-69 | the merge keeps every tree's weight the sum of its children's |
| CompressionHuffmanTreeBuilder.BuildHuffmanTree | src/tdd_ai_py/compression/huffman_tree_builder.py:58-71 | empty map: the IndexError of `heap[0]`; otherwise a Huffman tree of the map, one the rounds of popping two trees no heavier than any left and pushing their node can end with from the map's leaves |
| CompressionHuffmanTreeBuilder.GreedyStep | src/tdd_ai_py/compression/huffman_tree_builder.py:65-69 | any tree the heap after one round can end with, the heap before it can end with too |
| CompressionHuffmanTreeBuilder.GreedyStepAt | src/tdd_ai_py/compression/huffman_tree_builder.py:65-69 | the same round, for one given tree |
| CompressionHuffmanTreeBuilder.GreedyDone | src/tdd_ai_py/compression/huffman_tree_builder.py:65-71 | a heap of one tree ends with that tree (`heap[0]`) |
| CompressionHuffmanTreeBuilder.GreedyEnd | src/tdd_ai_py/compression/huffman_tree_builder.py:65-71 | a heap of at most one tree ends only with the tree it holds |
| CompressionHuffmanTreeBuilder.GreedyKeepsLeaves | src/tdd_ai_py/compression/huffman_tree_builder.py:65-71 | every tree a heap can end with holds exactly the heap's leaves, every internal weight its children's sum |
| CompressionHuffmanTreeBuilder.HuffmanTreeIsFull | src/tdd_ai_py/compression/huffman_tree_builder.py:58-71 | a Huffman tree of a map holds exactly the map's entries as leaves, every internal weight its children's sum |
| CompressionHuffmanTreeBuilder.LeafHeapCounts | src/tdd_ai_py/compression/huffman_tree_builder.py:61 | a heap of leaves holds each leaf as often as its symbol and weight occur among its items |
| CompressionHuffmanTreeBuilder.LeafHeapUnique | src/tdd_ai_py/compression/huffman_tree_builder.py:61-62 | a map has exactly one leaf heap, whatever order its entries are pushed in |
| CompressionHuffmanTreeBuilder.FirstMerge | src/tdd_ai_py/compression/huffman_tree_builder.py:65-69 | from two or more trees, every outcome goes through a first round of two lightest pops |
| CompressionHuffmanTreeBuilder.PopLighter | src/tdd_ai_py/compression/huffman_tree_builder.py:66-67 | of two trees of different weights, the lighter is popped first |
| CompressionHuffmanTreeBuilder.GreedyOfTwo | src/tdd_ai_py/compression/huffman_tree_builder.py:65-71 | from two trees of different weights the only outcome is their node, the lighter on the left |
| CompressionHuffmanTreeBuilder.GreedyTwoRoot | src/tdd_ai_py/compression/huffman_tree_builder.py:65-71 | from two trees, the node with the lighter (or first of equals) on the left is an outcome |
| CompressionHuffmanTreeBuilder.FirstPopOfThree | src/tdd_ai_py/compression/huffman_tree_builder.py:66 | with one tree heavier than two others, the first pop is one of the two light ones |
| CompressionHuffmanTreeBuilder.FirstRoundOfThree | src/tdd_ai_py/compression/huffman_tree_builder.py:66-69 | with one tree heavier than the other two together, the first round merges the two light ones |
| CompressionHuffmanTreeBuilder.MergeLightPair | src/tdd_ai_py/compression/huffman_tree_builder.py:66-69 | popping the two light trees is a valid round and leaves their node and the heavy tree |
| CompressionHuffmanTreeBuilder.GreedyOfThree | src/tdd_ai_py/compression/huffman_tree_builder.py:65-71 | from such three trees the only outcomes put the node of the light pair, in either order, left of the heavy tree |
| CompressionHuffmanTreeBuilder.GreedyThreeRoot | src/tdd_ai_py/compression/huffman_tree_builder.py:65-71 | and that tree, lighter first, is an outcome |
| CompressionHuffmanTreeBuilder.ThreeLeafHeap | src/tdd_ai_py/compression/huffman_tree_builder.py:61-62 | the leaf heap of {1: 5, 2: 1, 3: 1} is its three leaves |
| CompressionHuffmanTreeBuilder.LightLeavesMergeFirst | src/tdd_ai_py/compression/huffman_tree_builder.py:58-71 | the Huffman trees of {1: 5, 2: 1, 3: 1} put the two weight-1 leaves under one node left of the weight-5 leaf; pairing the weight-5 leaf first is excluded |
| CompressionHuffmanTreeBuilder.ThreeLeafHuffmanTree | src/tdd_ai_py/compression/huffman_tree_builder.py:58-71 | that tree is a Huffman tree of those counts |
| CompressionHuffmanTreeBuilder.HuffmanTreeSymbolsAndWeight | src/tdd_ai_py/compression/huffman_tree_builder.py:58-71 | the tree's symbols are the map's keys and its weight the sum of the frequencies |
| CompressionHuffmanTreeBuilder.HuffmanTreeShape | src/tdd_ai_py/compression/huffman_tree_builder.py:58-71 | two or more entries give an internal root; one entry gives that leaf unchanged |
| CompressionHuffmanTreeBuilder.FindTwoLowestExample | tests/test_huffman_tree_builder.py:175-184 | [5, 2, 8, 1, 9, 3] gives (1, 2) |
| HuffmanTreeBuilder.RemoveAt | src/tdd_ai_py/huffman_tree_builder.py:32-33 | removing one position keeps the others in order |
| HuffmanTreeBuilder.SortedByKey | src/tdd_ai_py/huffman_tree_builder.py:32-33 | `sorted(items, key=key)`: a permutation of the items, sorted by key |
| HuffmanTreeBuilder.SortedFirstTwo | src/tdd_ai_py/huffman_tree_builder.py:32-33 | the stable sort's first two are the first least item and the first least of the others |
| HuffmanTreeBuilder.FindTwoLowestItems | src/tdd_ai_py/huffman_tree_builder.py:10-33 | empty: ValueError("At least one item is required"); one item x: (x, x); and the same result as the `compression/` version for every input |
| HuffmanTreeBuilder.FindTwoLowestNumbers | tests/test_huffman_tree_builder.py:175-184 | [5, 2, 8, 1, 9, 3] gives (1, 2) |
| HuffmanTreeBuilder.FindTwoLowestPairs | tests/test_huffman_tree_builder.py:186-195 | keyed tuples give (("d", 1), ("b", 2)) |
| HuffmanTreeBuilder.CreateNodeFromValues | src/tdd_ai_py/huffman_tree_builder.py:85-91 | an internal node over the two leaves, weighing their sum |
| HuffmanTreeBuilder.SelectAndJoinLowestNodes | src/tdd_ai_py/huffman_tree_builder.py:93-101 | empty: ValueError("At least one item is required"); one node: the node joined with itself, weighing twice its weight; two or more: a join |
| HuffmanTreeBuilder.SelectAndJoinLowest | src/tdd_ai_py/huffman_tree_builder.py:93-101 | of two or more nodes, the stable lowest two are joined, first lowest on the left, weighing their sum |
| HuffmanTreeBuilder.SelectAndJoinAt | src/tdd_ai_py/huffman_tree_builder.py:93-101 | the stable lowest pair is what gets joined |
| HuffmanTreeBuilder.SelectAndJoinExample | tests/test_huffman_tree_builder.py:81-108 | weights [5, 1, 2, 1] join the two weight-1 leaves into weight 2 |
| HuffmanTreeBuilder.BuildHuffmanTree | src/tdd_ai_py/huffman_tree_builder.py:103-133 | empty map: IndexError; otherwise a Huffman tree of the map as the `compression/` builder defines it; root weight is the frequency sum and its symbols the keys; internal with two or more symbols; a one-entry map gives that leaf |
| CompressionHuffmanEncoder.GenerateCodes | src/tdd_ai_py/compression/huffman_encoder.py:9-17 | every code is at least as long as the path so far, and strictly longer below an internal node |
| CompressionHuffmanEncoder.GenerateHuffmanCodes | src/tdd_ai_py/compression/huffman_encoder.py:6-21 | no code is empty |
| CompressionHuffmanEncoder.Encode | src/tdd_ai_py/compression/compressor.py:25 | no bytes give no bits; with no empty code, at least one bit per byte |
| CompressionHuffmanEncoder.GenerateCodesKeys | src/tdd_ai_py/compression/huffman_encoder.py:9-17 | the codes' keys are exactly the subtree's symbols |
| CompressionHuffmanEncoder.GenerateCodesArePaths | src/tdd_ai_py/compression/huffman_encoder.py:9-17 | each code extends the prefix so far by the symbol's path below the node |
| CompressionHuffmanEncoder.RightSubtreeWins | src/tdd_ai_py/compression/huffman_encoder.py:14-15 | a symbol on the right keeps its right-subtree code |
| CompressionHuffmanEncoder.HuffmanCodesKeys | src/tdd_ai_py/compression/huffman_encoder.py:6-21 | the keys are exactly the tree's symbols |
| CompressionHuffmanEncoder.HuffmanCodesArePaths | src/tdd_ai_py/compression/huffman_encoder.py:6-21 | a leaf root maps its symbol to [0]; otherwise every code is its symbol's non-empty root-to-leaf path; no code is a prefix of another |
| CompressionHuffmanEncoder.HuffmanCodesStrip | src/tdd_ai_py/compression/huffman_encoder.py:6-21 | the codes do not depend on the weights |
| CompressionHuffmanEncoder.EncodeAppend | src/tdd_ai_py/compression/compressor.py:25 | the codes of two inputs in a row are the first's codes followed by the second's |
| CompressionHuffmanEncoder.EncodeSingleLeaf | src/tdd_ai_py/compression/huffman_encoder.py:19-21 | with a lone leaf every byte is the one bit 0 |
| HuffmanEncoder.CodeTable.constructor | src/tdd_ai_py/huffman_encoder.py:10 | the table starts empty |
| HuffmanEncoder.CodeTable.Traverse | src/tdd_ai_py/huffman_encoder.py:12-19 | adds to the table exactly the string forms of the node's path codes, and changes nothing else |
| HuffmanEncoder.GenerateHuffmanCodes | src/tdd_ai_py/huffman_encoder.py:6-22 | the string codes of the tree: the bit-list codes of `compression/huffman_encoder.py` as strings |
| HuffmanEncoder.StringCodesKeys | src/tdd_ai_py/huffman_encoder.py:6-22 | the keys are exactly the tree's symbols; a leaf root gives `{c: "0"}` |
| HuffmanEncoder.StringCodesAreBinary | src/tdd_ai_py/huffman_encoder.py:12-22 | every code is a string over `'0'` and `'1'` |
| HuffmanEncoder.StringCodesArePaths | src/tdd_ai_py/huffman_encoder.py:12-22 | below an internal root each code spells its symbol's root-to-leaf path |
| HuffmanEncoder.SingleLeafExample | tests/test_huffman_encoder.py:10-16 | a lone leaf `a` gives `{a: "0"}` |
| CompressionTreeSerializer.SerializedLength | src/tdd_ai_py/compression/tree_serializer.py:7-12 | 9 bits per leaf and 1 per internal node, which is 10·L − 1 for L leaves |
| CompressionTreeSerializer.SerializeStrip | src/tdd_ai_py/compression/tree_serializer.py:7-12 | the bits do not depend on the weights |
| CompressionTreeSerializer.TwoLeafExample | tests/test_tree_deserializer.py:23-36 | the node over `a` and `b` is 0 1 01100001 1 01100010 |
| TreeSerializer.SerializeTree | src/tdd_ai_py/tree_serializer.py:4-21 | at least nine characters, all `'0'` or `'1'`, starting with `'1'` exactly for a leaf |
| TreeSerializer.SerializeTreeAsBits | src/tdd_ai_py/tree_serializer.py:4-21 | the string serialiser writes the bits of `compression/tree_serializer.py` as characters |
| TreeSerializer.SerializedStringLength | src/tdd_ai_py/tree_serializer.py:11-21 | 9 characters per leaf and 1 per internal node |
| TreeSerializer.LeafExample | tests/test_tree_serializer.py:10-17 | the leaf `a` is `"101100001"` |
| TreeDeserializer.ParseTree | src/tdd_ai_py/tree_deserializer.py:5-19 | a tree read from the front is one that serialises to the bits consumed, with weights 0; running out of bits is an IndexError |
| TreeDeserializer.ParseLeafBits | src/tdd_ai_py/tree_deserializer.py:8-14 | a 1 and eight bits is the leaf whose symbol those bits spell, weight 0 |
| TreeDeserializer.ParseShortLeaf | src/tdd_ai_py/tree_deserializer.py:11-12 | a 1 followed by fewer than eight bits is an IndexError |
| TreeDeserializer.ParseNodeBits | src/tdd_ai_py/tree_deserializer.py:16-19 | a 0 reads the left subtree, then the right from where the left ended; a failure of either fails the node |
| TreeDeserializer.ParseSerialized | src/tdd_ai_py/tree_deserializer.py:5-19 | reading a serialised tree gives it back without weights and leaves what followed unread |
| TreeDeserializer.DeserializeTree | src/tdd_ai_py/tree_deserializer.py:5-19 | over the reader: returns the tree the grammar reads and leaves the reader right after it; IndexError when the bits run out |
| TreeDeserializer.ReadLeafByte | src/tdd_ai_py/tree_deserializer.py:10-13 | the loop reads eight bits and returns their MSB-first value; fewer than eight is an IndexError |
| TreeDeserializer.DeserializeLeafExample | tests/test_tree_deserializer.py:10-21 | 1 01100001 is the leaf `a` of weight 0 |
| TreeDeserializer.DeserializeNodeExample | tests/test_tree_deserializer.py:23-36 | 0 1 01100001 1 01100010 is the node over `a` and `b` |
| DataDecoder.ValidateLeafHasCharacter | src/tdd_ai_py/data_decoder.py:64-66 | succeeds exactly on a node with a character; otherwise ValueError("Leaf node must have a character") |
| DataDecoder.TraverseTree | src/tdd_ai_py/data_decoder.py:69-76 | 0 goes left and any other bit right; a node without children raises the ValueError of the missing child |
| DataDecoder.Child | src/tdd_ai_py/data_decoder.py:69-76 | the child `_traverse_tree` moves to for that bit |
| DataDecoder.ChildPaths | src/tdd_ai_py/data_decoder.py:69-76 | a path through a node is its first bit's child's path |
| DataDecoder.Walk | src/tdd_ai_py/data_decoder.py:33-61 | the bytes decoded from a bit string, never more than wanted nor more than the bits |
| DataDecoder.WalkStep | src/tdd_ai_py/data_decoder.py:46-61 | a bit reaching a leaf emits its symbol and goes back to the root; otherwise decoding goes on from the child |
| DataDecoder.StepPreserves | src/tdd_ai_py/data_decoder.py:46-61 | processing one bit keeps the output decoded so far plus the walk still to come |
| DataDecoder.WalkPath | src/tdd_ai_py/data_decoder.py:46-61 | a symbol's path emits that symbol and resets to the root |
| DataDecoder.WalkEncoded | src/tdd_ai_py/data_decoder.py:25-61 | walking the concatenated codes of xs for \|xs\| symbols gives xs, whatever follows |
| DataDecoder.DecodeSingleCharacterData | src/tdd_ai_py/data_decoder.py:12-15 | a leaf root gives `length` copies of its symbol |
| DataDecoder.CompressedDataDecoder.constructor | src/tdd_ai_py/data_decoder.py:26-31 | at the root, with no output and nothing decoded |
| DataDecoder.CompressedDataDecoder.Decode | src/tdd_ai_py/data_decoder.py:33-41 | returns the output so far followed by the walk over the reader's bits, stopping at `length` symbols or at the end of the bits |
| DataDecoder.CompressedDataDecoder.StepWalk | src/tdd_ai_py/data_decoder.py:36-37 | processing the next bit keeps the whole output, the characters so far and then what the walk over the later bits emits, as it was |
| DataDecoder.CompressedDataDecoder.ShouldStopDecoding | src/tdd_ai_py/data_decoder.py:43-44 | once it holds, the rest of the walk emits nothing, whatever bits follow |
| DataDecoder.CompressedDataDecoder.ProcessBit | src/tdd_ai_py/data_decoder.py:46-50 | moves to the child; a leaf appends its symbol, counts it and goes back to the root |
| DataDecoder.CompressedDataDecoder.AddDecodedCharacter | src/tdd_ai_py/data_decoder.py:52-58 | appends the current leaf's symbol and counts it |
| DataDecoder.CompressedDataDecoder.ResetToRoot | src/tdd_ai_py/data_decoder.py:60-61 | the current node is the root again |
| DataDecoder.DecodedData | src/tdd_ai_py/data_decoder.py:5-9 | a leaf root gives `length` copies of its symbol; otherwise at most `length` bytes and at most one per bit |
| DataDecoder.DecodeEncoded | src/tdd_ai_py/data_decoder.py:5-61 | decoding the concatenated codes of xs with length \|xs\| gives xs, for any root |
| DataDecoder.DecodeData | src/tdd_ai_py/data_decoder.py:5-9 | over the reader: the bytes `DecodedData` specifies; a leaf root reads no bits |
| DataDecoder.TwoCharacterExample | tests/test_data_decoder.py:32-72 | with a = 0 and b = 1, byte 0x63 and length 8 decode to `abbaaabb` |
| DataDecoder.ThreeCharacterExample | tests/test_data_decoder.py:32-72 | with a = 0, b = 10, c = 11, bytes BB 20 and length 7 decode to `bcbcaab` |
| DataDecoder.SingleCharacterExample | tests/test_data_decoder.py:32-72 | the lone leaf `a` with length 1 decodes to `a` |
| CompressedDataDecoder.DecodeCompressedData | src/tdd_ai_py/compressed_data_decoder.py:4-19 | a leaf root gives the eight-character binary form of its symbol; a node root raises NotImplementedError |
| CompressedDataDecoder.SingleLeafExample | tests/test_compressed_data_decoder.py:10-19 | the leaf `a` gives `"01100001"` |
| Compressor.HuffmanTreeOfInput | src/tdd_ai_py/compression/compressor.py:15-17 | the tree of the input's counts holds exactly the input's bytes and weighs the input's length |
| Compressor.CompressedLength | src/tdd_ai_py/compression/compressor.py:21-31 | the output is the four header bytes of the length, then ceil((tree bits + payload bits) / 8) bytes |
| Compressor.Compress | src/tdd_ai_py/compression/compressor.py:13-31 | empty input: IndexError before anything is written; 2^32 bytes or more: OverflowError, nothing written; otherwise appends the header and the packed tree and payload bits of a Huffman tree of the input's counts, one the greedy merging of `build_huffman_tree` can end with |
| Compressor.WriteCompressed | src/tdd_ai_py/compression/compressor.py:21-31 | appends the compressed form for that tree |
| Compressor.WritePacked | src/tdd_ai_py/compression/compressor.py:28-31 | appends the header and then the packed bits |
| Compressor.WriteAllBits | src/tdd_ai_py/compression/compressor.py:29-30 | the writer's pending bits gain all the bits, in order |
| Compressor.CompressSingleA | tests/test_compressor.py:11-33 | `a` compresses to 00 00 00 01 B0 80 |
| DecompressionDecompressor.ReadBigEndianInt | src/tdd_ai_py/decompression/decompressor.py:10-12 | the first four bytes read big-endian and the stream after them; fewer than four is a struct error |
| DecompressionDecompressor.HeaderRoundTrip | src/tdd_ai_py/decompression/decompressor.py:10-12 | the compressor's header reads back as the length, leaving what followed |
| DecompressionDecompressor.DecompressWith | src/tdd_ai_py/decompression/decompressor.py:16-20 | the header, then the tree from the bits after it, then `length` bytes from where the tree ended |
| DecompressionDecompressor.Decompress | src/tdd_ai_py/decompression/decompressor.py:16-20 | appends the decoded bytes to the output; a failure writes nothing |
| Decompressor.Decompressed | src/tdd_ai_py/decompressor.py:16-24 | a short header is a struct error, a truncated tree an IndexError; otherwise at most `length` bytes |
| Decompressor.SameAsDecompressionPackage | src/tdd_ai_py/decompressor.py:16-24 | this decompressor is the `decompression/` one with this package's tree reader and data decoder |
| Decompressor.HuffmanDecompressor.constructor | src/tdd_ai_py/decompressor.py:12-14 | `_length` and `_tree` start as None |
| Decompressor.HuffmanDecompressor.Decompress | src/tdd_ai_py/decompressor.py:16-24 | sets `_length` to the header and `_tree` to the tree read after it, and appends the decoded bytes; a failure writes nothing |
| Decompressor.ReadsLength | tests/test_decompressor.py:7-14 | 00 00 00 07 B0 80 sets the length to 7 |
| Decompressor.ReadsSingleCharacterTree | tests/test_decompressor.py:16-27 | 00 00 00 01 B0 80 rebuilds the leaf `a` and decodes `a` |
| RoundTrip.CompressedDecompresses | tests/test_round_trip.py:17-75 | decompressing what the compressor writes gives back the input |
| RoundTrip.CompressThenDecompress | tests/test_round_trip.py:49-75 | compressing into one stream and decompressing it into another gives the input, for every input of 1 to 2^32 − 1 bytes |

## Left out

- Stream I/O (`read(1)`, `iter_bytes` in `compression/stream_utils.py` and
  `stream_utils.py`, `seek`, `BytesIO`) is not modelled: input streams are byte
  sequences, and the output stream is `Streams.OutputStream`, whose writes append.
- The command-line layers (`huffman_compression.py`, `huffman_decompression.py`,
  `compress.py`, `decompress.py`, `cli_utils.py`) are argument handling, file opening
  and process exit.
- `safe_call` and `safe_call_with_args` (`result_types.py`:113-128) and
  `safe_compression.py` catch arbitrary exceptions around I/O. The `try`/`except`
  inside `Ok.map` and `Ok.and_then` is left out as well: the functions passed in here
  cannot raise.
- `functional_utils.py`, `functional_examples.py` and `calculator.py` are not part of
  the compressor.
- `huffman.py`, `compressor.py` at the top level and `stream_compressor.py` only
  delegate to the modelled stages. `stream_compressor.py` also passes a stream to a
  `BitWriter` that takes no argument. `__init__.py` only re-exports names.
- The `heapq` tie-break is not modelled. The heap is a multiset whose extract-minimum
  may return any lightest tree. The optimality of the code lengths is not stated.
- CompressionHuffmanTreeBuilder.BuildHuffmanTree: states that the tree is one the greedy
  merging can end with, not which one. Among trees of equal weight, `heapq` pops the one its
  array layout puts first, and that choice is not modelled.
- HuffmanTreeBuilder.BuildHuffmanTree: the same choice among equal weights is not modelled.
- Compressor.Compress: the output is stated for every tree the greedy merging can end
  with, because the choice among equal weights is not modelled.
- Characters are byte values 0..255 throughout, and the `str` characters of the
  top-level tree builder are bytes. The text counter `FrequencyAnalyzer` keeps `char`
  keys.
- `HuffmanNode` shapes that the pipeline cannot build are not representable in the
  tree datatype: a node with a character and children, a node with one child, a leaf
  without a character. The ValueErrors for those (`compressed_data_decoder.py`:12-13,
  and `_traverse_tree` on a node missing just one child) are therefore not modelled.
- `decompression/tree_deserializer.py` and `decompression/data_decoder.py` are not
  part of this model. `DecompressionDecompressor` takes them as parameters.
- `decompressor.py`:24 passes four arguments to `decode_data`, which takes three and
  returns the bytes. The model calls it with the reader, the tree and the length, and
  writes the bytes it returns to the output.
- The tests that call older interfaces (`Decompressor`, `get_length`,
  `deserialize_tree` on a string, `BitWriter(output_stream)` at the top level) are
  modelled against the current code. Their expected values are the example lemmas.
- DataDecoder.CompressedDataDecoder.constructor: requires an internal root. `decode_data`
  builds the decoder only for one; a leaf root would raise ValueError on the first bit.
- CompressionHuffmanEncoder.Encode: requires a code for every byte. The compressor
  always has one; `encode_bytes_functional` models the KeyError of a missing code.
- HigherOrderFunctions.EncodeLength: requires a code for every byte, as `Encode` does.
- TreeDeserializer.ReadLeafByte: the eight-bit loop of `deserialize_tree` is its own
  method, so that the loop has invariants of its own.
