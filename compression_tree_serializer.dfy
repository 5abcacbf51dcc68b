/** `compression/tree_serializer.py`: the pre-order bit list of a tree. */
module CompressionTreeSerializer {
  import opened Bits
  import opened HuffmanTree

  /** `serialize_tree`: a leaf is [1] and its symbol's eight bits MSB first; an internal
      node is [0] and then its left and its right subtree. */
  function SerializeTree(root: Tree): seq<Bit>
  {
    match root
    case Leaf(s, _) => [1] + ByteBits(s)
    case Node(l, r, _) => [0] + SerializeTree(l) + SerializeTree(r)
  }

  /** The number of internal nodes. */
  function InternalCount(t: Tree): nat
  {
    match t
    case Leaf(_, _) => 0
    case Node(l, r, _) => 1 + InternalCount(l) + InternalCount(r)
  }

  /** Nine bits per leaf and one per internal node; a tree with L leaves has L - 1 internal
      nodes, so 10·L − 1 bits in all. */
  lemma {:induction false} SerializedLength(t: Tree)
    ensures |SerializeTree(t)| == 9 * |LeafItems(t)| + InternalCount(t)
    ensures InternalCount(t) == |LeafItems(t)| - 1
    ensures |SerializeTree(t)| == 10 * |LeafItems(t)| - 1
    decreases t
  {
    match t
    case Leaf(_, _) =>
    case Node(l, r, _) =>
      SerializedLength(l);
      SerializedLength(r);
  }

  /** Weights are not serialised. */
  lemma {:induction false} SerializeStrip(t: Tree)
    ensures SerializeTree(Strip(t)) == SerializeTree(t)
    decreases t
  {
    match t
    case Leaf(_, _) =>
    case Node(l, r, _) =>
      SerializeStrip(l);
      SerializeStrip(r);
  }

  /** A root over leaves 'a' and 'b' serialises to 0 1 01100001 1 01100010. */
  lemma TwoLeafExample()
    ensures SerializeTree(Node(Leaf(97, 1), Leaf(98, 1), 2))
         == [0, 1, 0, 1, 1, 0, 0, 0, 0, 1, 1, 0, 1, 1, 0, 0, 0, 1, 0]
  {
  }
}
