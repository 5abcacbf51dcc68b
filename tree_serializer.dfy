/** `tree_serializer.py`: the pre-order serialisation as a "0"/"1" string. */
module TreeSerializer {
  import opened Bits
  import opened Prelude
  import opened HuffmanTree
  import CompressionTreeSerializer

  /** `serialize_tree`: "1" and `format(ord(c), "08b")` for a leaf; "0", the left subtree
      and the right subtree for an internal node. */
  function SerializeTree(root: Tree): (r: string)
    ensures |r| >= 9 && (r[0] == '1' <==> root.Leaf?)
    ensures forall i | 0 <= i < |r| :: r[i] == '0' || r[i] == '1'
  {
    match root
    case Leaf(s, _) => "1" + BitString(ByteBits(s))
    case Node(l, r, _) => "0" + SerializeTree(l) + SerializeTree(r)
  }

  /** The string is the bit-list serialisation spelled in '0' and '1'. */
  lemma {:induction false} SerializeTreeAsBits(t: Tree)
    ensures SerializeTree(t) == BitString(CompressionTreeSerializer.SerializeTree(t))
    decreases t
  {
    match t
    case Leaf(s, _) =>
      var code := ByteBits(s);
      assert CompressionTreeSerializer.SerializeTree(t) == [1] + code;
      assert BitString([1]) == "1";
      BitStringAppend([1], code);
    case Node(l, r, _) =>
      SerializeTreeAsBits(l);
      SerializeTreeAsBits(r);
      var lb, rb := CompressionTreeSerializer.SerializeTree(l), CompressionTreeSerializer.SerializeTree(r);
      var ls, rs := SerializeTree(l), SerializeTree(r);
      AppendAssoc([0], lb, rb);
      assert CompressionTreeSerializer.SerializeTree(t) == [0] + (lb + rb);
      BitStringAppend([0], lb + rb);
      BitStringAppend(lb, rb);
      assert BitString([0]) == "0";
      AppendAssoc("0", ls, rs);
      assert SerializeTree(t) == "0" + (ls + rs);
  }

  /** Nine characters per leaf and one per internal node. */
  lemma SerializedStringLength(t: Tree)
    ensures |SerializeTree(t)| == 9 * |LeafItems(t)| + CompressionTreeSerializer.InternalCount(t)
  {
    SerializeTreeAsBits(t);
    CompressionTreeSerializer.SerializedLength(t);
  }

  /** A leaf 'a' serialises to "101100001". */
  lemma LeafExample()
    ensures SerializeTree(Leaf(97, 1)) == "101100001"
  {
    ByteBitsOfA();
  }
}
