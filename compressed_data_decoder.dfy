/** `compressed_data_decoder.py`: the early decoder that only handles a tree of
    one leaf, whose character it renders as eight binary digits. */
module CompressedDataDecoder {
  import opened Bits
  import opened Prelude
  import opened ResultTypes
  import opened HuffmanTree

  /** `decode_compressed_data`: for a lone leaf, `format(ord(c), "08b")` of its character;
      any internal root is NotImplementedError. The digits read back MSB first give the
      character. */
  function DecodeCompressedData(root: Tree): (r: Result<string, Exception>)
    ensures root.Node? ==> r == Err(NotImplementedError("Multi-node trees not yet implemented"))
    ensures root.Leaf? ==> r.Ok? && |r.value| == 8
    ensures root.Leaf? ==> (exists bits :: |bits| == 8 && r.value == BitString(bits) && BitsValue(bits) == root.symbol)
  {
    if root.IsLeaf() then
      var bits := ByteBits(root.symbol);
      ByteBitsValue(root.symbol);
      assert |bits| == 8 && BitString(bits) == BitString(bits) && BitsValue(bits) == root.symbol;
      Ok(BitString(bits))
    else
      Err(NotImplementedError("Multi-node trees not yet implemented"))
  }

  /** The test expectation: the lone leaf 'a' renders as "01100001". */
  lemma SingleLeafExample()
    ensures DecodeCompressedData(Leaf(97, 1)) == Ok("01100001")
  {
    var bits := ByteBits(97);
    ByteBitsOfA();
    var s := BitString(bits);
    forall i | 0 <= i < 8 ensures s[i] == "01100001"[i] {
      assert s[i] in {'0', '1'};
    }
    assert s == "01100001";
  }
}
