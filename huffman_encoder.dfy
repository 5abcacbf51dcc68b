/** `huffman_encoder.py`: the code table as "0"/"1" strings, filled in by a
    recursive `traverse` that writes into one shared dictionary. */
module HuffmanEncoder {
  import opened Bits
  import opened HuffmanTree
  import CompressionHuffmanEncoder

  /** A bit-list code table read as "0"/"1" strings. */
  function AsStrings(m: map<Byte, seq<Bit>>): map<Byte, string>
  {
    map x | x in m :: BitString(m[x])
  }

  lemma AsStringsUnion(before: map<Byte, string>, a: map<Byte, seq<Bit>>, b: map<Byte, seq<Bit>>)
    ensures before + AsStrings(a) + AsStrings(b) == before + AsStrings(a + b)
  {
  }

  /** The `codes` dictionary that `traverse` mutates. */
  class CodeTable {
    var codes: map<Byte, string>

    constructor()
      ensures codes == map[]
    {
      codes := map[];
    }

    /** `traverse`: a leaf records the code of the path so far; an internal node goes left
        with "0" appended, then right with "1" appended. Only `codes` changes, gaining the
        path codes of the subtree (`bits` is the path as bits, that `code` spells). */
    method Traverse(node: Tree, code: string, ghost bits: seq<Bit>)
      requires code == BitString(bits)
      modifies this
      ensures codes == old(codes) + AsStrings(CompressionHuffmanEncoder.GenerateCodes(node, bits))
      decreases node
    {
      match node
      case Leaf(s, _) =>
        assert AsStrings(map[s := bits]) == map[s := code];
        codes := codes[s := code];
      case Node(l, r, _) =>
        assert code + "0" == BitString(bits + [0]) by {
          BitStringAppend(bits, [0]);
        }
        assert code + "1" == BitString(bits + [1]) by {
          BitStringAppend(bits, [1]);
        }
        Traverse(l, code + "0", bits + [0]);
        Traverse(r, code + "1", bits + [1]);
        AsStringsUnion(old(codes), CompressionHuffmanEncoder.GenerateCodes(l, bits + [0]),
                       CompressionHuffmanEncoder.GenerateCodes(r, bits + [1]));
    }
  }

  /** `generate_huffman_codes`: {c: "0"} for a lone leaf, otherwise what `traverse` records
      from the root with the empty code. It agrees with the bit-list encoder entry by entry. */
  method GenerateHuffmanCodes(root: Tree) returns (codes: map<Byte, string>)
    ensures codes == StringCodes(root)
  {
    if root.Leaf? {
      assert BitString([0]) == "0";
      return map[root.symbol := "0"];
    }
    var table := new CodeTable();
    table.Traverse(root, "", []);
    codes := table.codes;
  }

  /** The table `generate_huffman_codes` returns, as a function of the tree. */
  function StringCodes(root: Tree): map<Byte, string>
  {
    AsStrings(CompressionHuffmanEncoder.GenerateHuffmanCodes(root))
  }

  /** The string codes are keyed by the leaf symbols, and a lone leaf gets {c: "0"}. */
  lemma StringCodesKeys(root: Tree)
    ensures StringCodes(root).Keys == Symbols(root)
    ensures root.Leaf? ==> StringCodes(root) == map[root.symbol := "0"]
  {
    CompressionHuffmanEncoder.HuffmanCodesArePaths(root);
    assert BitString([0]) == "0";
  }

  /** Every string code is made of '0' and '1' only. */
  lemma StringCodesAreBinary(root: Tree)
    ensures forall x | x in StringCodes(root) ::
      forall i | 0 <= i < |StringCodes(root)[x]| :: StringCodes(root)[x][i] in {'0', '1'}
  {
    var bitCodes := CompressionHuffmanEncoder.GenerateHuffmanCodes(root);
    forall x | x in StringCodes(root)
      ensures forall i | 0 <= i < |StringCodes(root)[x]| :: StringCodes(root)[x][i] in {'0', '1'}
    {
      assert StringCodes(root)[x] == BitString(bitCodes[x]);
    }
  }

  /** Below an internal root each string code spells, with '0' for left and '1' for right,
      the bit-list code of the same symbol, which is a root-to-leaf path; so its length is
      the depth of the leaf. */
  lemma StringCodesArePaths(root: Tree)
    requires root.Node?
    ensures forall x | x in StringCodes(root) ::
      x in CompressionHuffmanEncoder.GenerateHuffmanCodes(root) &&
      PathTo(root, CompressionHuffmanEncoder.GenerateHuffmanCodes(root)[x], x) &&
      StringCodes(root)[x] == BitString(CompressionHuffmanEncoder.GenerateHuffmanCodes(root)[x])
  {
    CompressionHuffmanEncoder.HuffmanCodesArePaths(root);
  }

  /** For a leaf 'a' the table is {'a': "0"}. */
  lemma SingleLeafExample()
    ensures StringCodes(Leaf(97, 1)) == map[97 := "0"]
  {
    assert BitString([0]) == "0";
  }
}
