/** `data_decoder.py`: turns the payload bits back into bytes by walking the
    tree from the root, one bit per step, emitting a byte at each leaf, until
    `length` bytes are out or the bits run out. A lone-leaf tree needs no bits. */
module DataDecoder {
  import opened Bits
  import opened Prelude
  import opened ResultTypes
  import opened HuffmanTree
  import CompressionHuffmanEncoder
  import BitReader

  /** `_validate_leaf_has_character`: a node without a character (an internal node) is a
      ValueError. */
  function ValidateLeafHasCharacter(node: Tree): (r: Result<(), Exception>)
    ensures r.Ok? <==> node.Leaf?
    ensures r.Err? ==> r.error == ValueError("Leaf node must have a character")
  {
    if node.Leaf? then Ok(()) else Err(ValueError("Leaf node must have a character"))
  }

  /** `_traverse_tree`: bit 0 goes to the left child, any other bit to the right child;
      a missing child (at a leaf) is a ValueError naming the side. */
  function TraverseTree(node: Tree, bit: int): (r: Result<Tree, Exception>)
    ensures node.Leaf? ==> r == Err(ValueError(if bit == 0 then "Invalid tree structure: missing left child"
                                                           else "Invalid tree structure: missing right child"))
    ensures node.Node? ==> r.Ok? && r.value < node
    ensures node.Node? ==> r.value == if bit == 0 then node.left else node.right
  {
    if bit == 0 then
      if node.Leaf? then Err(ValueError("Invalid tree structure: missing left child")) else Ok(node.left)
    else
      if node.Leaf? then Err(ValueError("Invalid tree structure: missing right child")) else Ok(node.right)
  }

  /** The child of an internal node that a bit selects. */
  function Child(node: Tree, bit: Bit): (c: Tree)
    requires node.Node?
    ensures c == TraverseTree(node, bit).value
  {
    if bit == 0 then node.left else node.right
  }

  /** The paths below the child a bit selects are the node's paths that start with that bit. */
  lemma ChildPaths(node: Tree, bit: Bit, path: seq<Bit>, x: Byte)
    requires node.Node?
    ensures PathTo(node, [bit] + path, x) <==> PathTo(Child(node, bit), path, x)
  {
    assert ([bit] + path)[1..] == path;
  }

  /** What the decoding loop emits from `current` on: each bit moves one step down, each
      leaf reached emits its symbol and returns to the root, and it stops as soon as
      `wanted` more bytes are out (never, for a negative `wanted`) or the bits run out. */
  function Walk(root: Tree, current: Tree, bits: seq<Bit>, wanted: int): (out: seq<Byte>)
    requires root.Node? && current.Node?
    ensures wanted >= 0 ==> |out| <= wanted
    ensures |out| <= |bits|
    decreases |bits|
  {
    if wanted == 0 || bits == [] then []
    else
      var next := Child(current, bits[0]);
      if next.Leaf? then [next.symbol] + Walk(root, root, bits[1..], wanted - 1)
      else Walk(root, next, bits[1..], wanted)
  }

  /** One step of the walk: the first bit moves down, and a leaf emits its symbol. */
  lemma WalkStep(root: Tree, current: Tree, bits: seq<Bit>, wanted: int)
    requires root.Node? && current.Node? && bits != [] && wanted != 0
    ensures Child(current, bits[0]).Leaf? ==>
      Walk(root, current, bits, wanted) == [Child(current, bits[0]).symbol] + Walk(root, root, bits[1..], wanted - 1)
    ensures Child(current, bits[0]).Node? ==>
      Walk(root, current, bits, wanted) == Walk(root, Child(current, bits[0]), bits[1..], wanted)
  {
  }

  /** What one processed bit changes (the characters so far, the node reached, the number
      still wanted) leaves the final outcome of the walk as it was. */
  lemma StepPreserves(root: Tree, at: Tree, bits: seq<Bit>, wanted: int,
                      done: seq<Byte>, done': seq<Byte>, at': Tree, wanted': int)
    requires root.Node? && at.Node? && bits != [] && wanted != 0
    requires Child(at, bits[0]).Leaf? ==>
      done' == done + [Child(at, bits[0]).symbol] && wanted' == wanted - 1 && at' == root
    requires Child(at, bits[0]).Node? ==> done' == done && wanted' == wanted && at' == Child(at, bits[0])
    ensures at'.Node?
    ensures done' + Walk(root, at', bits[1..], wanted') == done + Walk(root, at, bits, wanted)
  {
    WalkStep(root, at, bits, wanted);
    if Child(at, bits[0]).Leaf? {
      AppendAssoc(done, [Child(at, bits[0]).symbol], Walk(root, root, bits[1..], wanted - 1));
    }
  }

  /** Following a root-to-leaf path emits that leaf's symbol and starts over at the root. */
  lemma {:induction false} WalkPath(root: Tree, current: Tree, path: seq<Bit>, x: Byte, rest: seq<Bit>, wanted: int)
    requires root.Node? && current.Node? && PathTo(current, path, x) && wanted != 0
    ensures Walk(root, current, path + rest, wanted) == [x] + Walk(root, root, rest, wanted - 1)
    decreases |path|
  {
    var next := Child(current, path[0]);
    assert path == [path[0]] + path[1..];
    ChildPaths(current, path[0], path[1..], x);
    assert (path + rest)[0] == path[0] && (path + rest)[1..] == path[1..] + rest;
    if next.Node? {
      WalkPath(root, next, path[1..], x, rest, wanted);
    } else {
      assert path[1..] == [];
    }
  }

  /** Decoding the codes of `generate_huffman_codes` for a tree with an internal root gives
      back the encoded bytes, whatever bits follow them. */
  lemma {:induction false} WalkEncoded(root: Tree, xs: seq<Byte>, rest: seq<Bit>)
    requires root.Node? && forall x | x in xs :: x in Symbols(root)
    ensures forall x | x in xs :: x in CompressionHuffmanEncoder.GenerateHuffmanCodes(root)
    ensures Walk(root, root, CompressionHuffmanEncoder.Encode(xs, CompressionHuffmanEncoder.GenerateHuffmanCodes(root)) + rest, |xs|) == xs
    decreases |xs|
  {
    var codes := CompressionHuffmanEncoder.GenerateHuffmanCodes(root);
    CompressionHuffmanEncoder.HuffmanCodesArePaths(root);
    if xs != [] {
      assert xs[0] in xs;
      forall x | x in xs[1..] ensures x in Symbols(root) {
        assert x in xs;
      }
      WalkEncoded(root, xs[1..], rest);
      var code, more := codes[xs[0]], CompressionHuffmanEncoder.Encode(xs[1..], codes);
      assert CompressionHuffmanEncoder.Encode(xs, codes) == code + more;
      AppendAssoc(code, more, rest);
      WalkPath(root, root, code, xs[0], more + rest, |xs|);
      assert xs == [xs[0]] + xs[1..];
    }
  }

  /** `_decode_single_character_data`: the leaf's character `length` times (none for a
      length below 1); an internal node has no character and is a ValueError. */
  function DecodeSingleCharacterData(root: Tree, length: int): (r: Result<seq<Byte>, Exception>)
    ensures root.Leaf? ==> r.Ok? && |r.value| == (if length < 0 then 0 else length)
    ensures root.Leaf? ==> forall i | 0 <= i < |r.value| :: r.value[i] == root.symbol
    ensures root.Node? ==> r == Err(ValueError("Leaf node must have a character"))
  {
    match ValidateLeafHasCharacter(root)
    case Err(e) => Err(e)
    case Ok(_) => Ok(seq(if length < 0 then 0 else length, _ => root.symbol))
  }

  /** `_CompressedDataDecoder`: the decoding state for a tree with an internal root. */
  class CompressedDataDecoder {
    const root: Tree
    const length: int
    var currentNode: Tree
    var result: seq<Byte>
    var charactersDecoded: int

    /** Between bits the walk stands on an internal node. */
    ghost predicate Valid()
      reads this
    {
      root.Node? && currentNode.Node?
    }

    constructor(root: Tree, length: int)
      requires root.Node?
      ensures Valid() && this.root == root && this.length == length
      ensures currentNode == root && result == [] && charactersDecoded == 0
    {
      this.root := root;
      this.length := length;
      currentNode := root;
      result := [];
      charactersDecoded := 0;
    }

    /** `decode`: reads and processes bits until `length` characters are decoded or the
        reader runs out (its IndexError ends the loop), and returns the characters. */
    method Decode(reader: BitReader.BitReader) returns (out: seq<Byte>)
      requires Valid() && reader.Valid()
      modifies this, reader
      ensures out == old(result) + Walk(root, old(currentNode), old(reader.Remaining()), length - old(charactersDecoded))
    {
      ghost var remaining := reader.Remaining();
      ghost var target := Outcome(remaining);
      while !ShouldStopDecoding()
        invariant Valid() && reader.Valid() && reader.Remaining() == remaining
        invariant Outcome(remaining) == target
        decreases |remaining|
      {
        var bit := reader.ReadBit();
        if bit.Err? {
          assert Rest(remaining) == [];
          break;
        }
        StepWalk(bit.value, remaining);
        remaining := remaining[1..];
      }
      assert result + [] == target;
      out := result;
    }

    /** `_process_bit` on the first of the bits still to come: the characters decoded so
        far and the walk over the bits after it make up the same output as before. */
    method StepWalk(bit: Bit, ghost bits: seq<Bit>)
      requires Valid() && !ShouldStopDecoding() && bits != [] && bits[0] == bit
      modifies this
      ensures Valid()
      ensures Outcome(bits[1..]) == old(Outcome(bits))
    {
      ghost var done, at, wanted := result, currentNode, length - charactersDecoded;
      ProcessBit(bit);
      StepPreserves(root, at, bits, wanted, done, result, currentNode, length - charactersDecoded);
    }

    /** `_should_stop_decoding`: once `length` characters are out, the rest of the walk
        emits nothing, whatever bits follow. */
    predicate ShouldStopDecoding()
      reads this
      ensures Valid() && ShouldStopDecoding() ==> forall bits :: Rest(bits) == []
    {
      charactersDecoded == length
    }

    /** What the decoder would still emit from where it stands, given the bits to come. */
    ghost function Rest(bits: seq<Bit>): seq<Byte>
      requires Valid()
      reads this
    {
      Walk(root, currentNode, bits, length - charactersDecoded)
    }

    /** The whole output of the decoding: the characters so far, then the rest. */
    ghost function Outcome(bits: seq<Bit>): seq<Byte>
      requires Valid()
      reads this
    {
      result + Rest(bits)
    }

    /** `_process_bit`: one step down; at a leaf its character is added and the walk
        returns to the root. */
    method ProcessBit(bit: Bit)
      requires Valid()
      modifies this
      ensures Valid()
      ensures Child(old(currentNode), bit).Leaf? ==>
        result == old(result) + [Child(old(currentNode), bit).symbol] &&
        charactersDecoded == old(charactersDecoded) + 1 && currentNode == root
      ensures Child(old(currentNode), bit).Node? ==>
        result == old(result) && charactersDecoded == old(charactersDecoded) &&
        currentNode == Child(old(currentNode), bit)
    {
      currentNode := TraverseTree(currentNode, bit).value;
      if currentNode.IsLeaf() {
        AddDecodedCharacter();
        ResetToRoot();
      }
    }

    /** `_add_decoded_character`: appends the current leaf's character and counts it. */
    method AddDecodedCharacter()
      requires currentNode.Leaf?
      modifies this`result, this`charactersDecoded
      ensures result == old(result) + [currentNode.symbol]
      ensures charactersDecoded == old(charactersDecoded) + 1
    {
      var checked := ValidateLeafHasCharacter(currentNode);
      result := result + [currentNode.symbol];
      charactersDecoded := charactersDecoded + 1;
    }

    /** `_reset_to_root`. */
    method ResetToRoot()
      modifies this`currentNode
      ensures currentNode == root
    {
      currentNode := root;
    }
  }

  /** The bytes `decode_data` returns when the reader holds `bits`: a lone leaf's
      character `length` times, otherwise the walk from the root. It never yields more
      than `length` bytes, nor more than one per bit under an internal root. */
  function DecodedData(root: Tree, bits: seq<Bit>, length: int): (r: seq<Byte>)
    ensures root.Leaf? ==> |r| == (if length < 0 then 0 else length)
    ensures root.Leaf? ==> forall i | 0 <= i < |r| :: r[i] == root.symbol
    ensures root.Node? ==> |r| <= |bits| && (length >= 0 ==> |r| <= length)
  {
    if root.Leaf? then DecodeSingleCharacterData(root, length).value else Walk(root, root, bits, length)
  }

  /** Decoding inverts encoding: the concatenated codes of any bytes of the tree, asked for
      as many bytes as were encoded, decode to those bytes, whatever bits follow. For a
      lone leaf every byte is its character, so the repeated character is the input. */
  lemma DecodeEncoded(root: Tree, xs: seq<Byte>, rest: seq<Bit>)
    requires forall x | x in xs :: x in Symbols(root)
    ensures forall x | x in xs :: x in CompressionHuffmanEncoder.GenerateHuffmanCodes(root)
    ensures DecodedData(root, CompressionHuffmanEncoder.Encode(xs, CompressionHuffmanEncoder.GenerateHuffmanCodes(root)) + rest, |xs|) == xs
  {
    CompressionHuffmanEncoder.HuffmanCodesKeys(root);
    if root.Node? {
      WalkEncoded(root, xs, rest);
    } else {
      var r := DecodedData(root, CompressionHuffmanEncoder.Encode(xs, CompressionHuffmanEncoder.GenerateHuffmanCodes(root)) + rest, |xs|);
      assert |r| == |xs|;
      forall i | 0 <= i < |xs| ensures r[i] == xs[i] {
        assert xs[i] in xs;
      }
    }
  }

  /** `decode_data`: a lone leaf gives its character `length` times without reading a
      bit; otherwise the walk from the root over the reader's bits. */
  method DecodeData(root: Tree, reader: BitReader.BitReader, length: int) returns (r: seq<Byte>)
    requires reader.Valid()
    modifies reader
    ensures r == DecodedData(root, old(reader.Remaining()), length)
    ensures root.Leaf? ==> unchanged(reader)
  {
    if root.IsLeaf() {
      return DecodeSingleCharacterData(root, length).value;
    }
    var decoder := new CompressedDataDecoder(root, length);
    r := decoder.Decode(reader);
  }

  /** A walk from the root that first follows the path to x emits x, then what the rest emits. */
  lemma WalkPrepend(root: Tree, path: seq<Bit>, x: Byte, rest: seq<Bit>, wanted: int, out: seq<Byte>)
    requires root.Node? && PathTo(root, path, x) && wanted != 0
    requires Walk(root, root, rest, wanted - 1) == out
    ensures Walk(root, root, path + rest, wanted) == [x] + out
  {
    WalkPath(root, root, path, x, rest, wanted);
  }

  /** Two codes in a row emit their two symbols, then what the rest emits. */
  lemma WalkPrependTwo(root: Tree, p: seq<Bit>, x: Byte, q: seq<Bit>, y: Byte, rest: seq<Bit>, wanted: int, out: seq<Byte>)
    requires root.Node? && PathTo(root, p, x) && PathTo(root, q, y) && wanted >= 2
    requires Walk(root, root, rest, wanted - 2) == out
    ensures Walk(root, root, p + (q + rest), wanted) == [x] + ([y] + out)
  {
    WalkPrepend(root, q, y, rest, wanted - 1, out);
    WalkPrepend(root, p, x, q + rest, wanted, [y] + out);
  }

  /** The bits of a one-byte stream are the byte's bits. */
  lemma OneByteBits(bits: seq<Bit>, b: Byte)
    requires bits == StreamBits([b])
    ensures bits == ByteBits(b)
  {
    assert StreamBits([b]) == ByteBits(b) + StreamBits([]);
  }

  /** The bits of a two-byte stream are the bytes' bits, one after the other. */
  lemma TwoByteBits(bits: seq<Bit>, a: Byte, b: Byte)
    requires bits == StreamBits([a, b])
    ensures bits == ByteBits(a) + ByteBits(b)
  {
    assert StreamBits([a, b]) == ByteBits(a) + StreamBits([b]);
    assert StreamBits([b]) == ByteBits(b) + StreamBits([]);
  }

  lemma Byte63()
    ensures ByteBits(0x63) == [0, 1, 1, 0, 0, 0, 1, 1]
  {
  }

  lemma ByteBB()
    ensures ByteBits(0xBB) == [1, 0, 1, 1, 1, 0, 1, 1]
  {
  }

  lemma Byte20()
    ensures ByteBits(0x20) == [0, 0, 1, 0, 0, 0, 0, 0]
  {
  }

  /** The trees of the tests: 'a' over 'b', and 'a' over ('b' over 'c'). */
  function TwoCharacterTree(): Tree
  {
    Node(Leaf(97, 1), Leaf(98, 1), 2)
  }

  function ThreeCharacterTree(): Tree
  {
    Node(Leaf(97, 1), Node(Leaf(98, 1), Leaf(99, 1), 2), 3)
  }

  /** A tree shaped like the two-character tree: 'a' is 0, 'b' is 1. The walks below are
      proved for any such tree, which keeps the verifier from evaluating them outright. */
  ghost predicate TwoCharacterShape(t: Tree)
  {
    t.Node? && t.left == Leaf(97, 1) && t.right == Leaf(98, 1)
  }

  lemma TwoCharacterPaths(t: Tree)
    requires TwoCharacterShape(t)
    ensures PathTo(t, [0], 97) && PathTo(t, [1], 98)
  {
  }

  /** The test expectation: 0x63 (01100011) with the two-character tree and length 8
      decodes to "abbaaabb". */
  lemma TwoCharacterExample(bits: seq<Bit>)
    requires bits == StreamBits([0x63])
    ensures Walk(TwoCharacterTree(), TwoCharacterTree(), bits, 8) == [97, 98, 98, 97, 97, 97, 98, 98]
  {
    OneByteBits(bits, 0x63);
    Byte63();
    assert bits == [0, 1, 1, 0] + [0, 0, 1, 1];
    TwoCharacterWalk8(TwoCharacterTree(), [0, 1, 1, 0], [0, 0, 1, 1]);
  }

  /** The first half holds the codes of "abba", the second those of "aabb". */
  lemma TwoCharacterWalk8(t: Tree, first: seq<Bit>, second: seq<Bit>)
    requires TwoCharacterShape(t) && first == [0, 1, 1, 0] && second == [0, 0, 1, 1]
    ensures Walk(t, t, first + second, 8) == [97, 98, 98, 97, 97, 97, 98, 98]
  {
    var a, b: seq<Bit> := [0], [1];
    assert first == a + (b + (b + a));
    Regroup(a, b, b, a, second);
    TwoCharacterWalk4(t, second);
    TwoCharacterPaths(t);
    WalkPrependTwo(t, b, 98, a, 97, second, 6, [97, 97, 98, 98]);
    WalkPrependTwo(t, a, 97, b, 98, b + (a + second), 8, [98, 97, 97, 97, 98, 98]);
  }

  lemma TwoCharacterWalk4(t: Tree, bits: seq<Bit>)
    requires TwoCharacterShape(t) && bits == [0, 0, 1, 1]
    ensures Walk(t, t, bits, 4) == [97, 97, 98, 98]
  {
    var rest: seq<Bit> := [1, 1];
    TwoCharacterPaths(t);
    WalkPrependTwo(t, [1], 98, [1], 98, [], 2, []);
    assert [1] + ([1] + []) == rest;
    WalkPrependTwo(t, [0], 97, [0], 97, rest, 4, [98, 98]);
    assert [0] + ([0] + rest) == bits;
  }

  /** A tree shaped like the three-character tree: 'a' is 0, 'b' is 10, 'c' is 11. */
  ghost predicate ThreeCharacterShape(t: Tree)
  {
    t.Node? && t.left == Leaf(97, 1) && t.right == Node(Leaf(98, 1), Leaf(99, 1), 2)
  }

  lemma ThreeCharacterPaths(t: Tree)
    requires ThreeCharacterShape(t)
    ensures PathTo(t, [0], 97) && PathTo(t, [1, 0], 98) && PathTo(t, [1, 1], 99)
  {
    assert [1, 0][1..] == [0] && [1, 1][1..] == [1];
  }

  /** The test expectation: 0xBB 0x20 (10111011 00100000) with the three-character tree and
      length 7 decodes to "bcbcaab", leaving the padding unread. */
  lemma ThreeCharacterExample(bits: seq<Bit>)
    requires bits == StreamBits([0xBB, 0x20])
    ensures Walk(ThreeCharacterTree(), ThreeCharacterTree(), bits, 7) == [98, 99, 98, 99, 97, 97, 98]
  {
    TwoByteBits(bits, 0xBB, 0x20);
    ByteBB();
    Byte20();
    ThreeCharacterWalk7(ThreeCharacterTree(), ByteBits(0xBB), ByteBits(0x20));
  }

  /** The first byte holds the codes of "bcbc" exactly; the second byte the rest. */
  lemma ThreeCharacterWalk7(t: Tree, first: seq<Bit>, second: seq<Bit>)
    requires ThreeCharacterShape(t)
    requires first == [1, 0, 1, 1, 1, 0, 1, 1] && second == [0, 0, 1, 0, 0, 0, 0, 0]
    ensures Walk(t, t, first + second, 7) == [98, 99, 98, 99, 97, 97, 98]
  {
    var b, c: seq<Bit> := [1, 0], [1, 1];
    assert first == b + (c + (b + c));
    Regroup(b, c, b, c, second);
    ThreeCharacterWalk3(t, second);
    ThreeCharacterPaths(t);
    WalkPrependTwo(t, b, 98, c, 99, second, 5, [97, 97, 98]);
    WalkPrependTwo(t, b, 98, c, 99, b + (c + second), 7, [98, 99, 97, 97, 98]);
  }

  /** Four pieces and a tail, regrouped to the right. */
  lemma Regroup<T>(p: seq<T>, q: seq<T>, r: seq<T>, s: seq<T>, tail: seq<T>)
    ensures (p + (q + (r + s))) + tail == p + (q + (r + (s + tail)))
  {
  }

  lemma ThreeCharacterWalk3(t: Tree, bits: seq<Bit>)
    requires ThreeCharacterShape(t) && bits == [0, 0, 1, 0, 0, 0, 0, 0]
    ensures Walk(t, t, bits, 3) == [97, 97, 98]
  {
    var padding: seq<Bit> := [0, 0, 0, 0];
    var rest: seq<Bit> := [1, 0] + padding;
    ThreeCharacterPaths(t);
    WalkPrepend(t, [1, 0], 98, padding, 1, []);
    WalkPrependTwo(t, [0], 97, [0], 97, rest, 3, [98]);
    assert [0] + ([0] + rest) == bits;
  }

  /** The test expectation: the lone leaf 'a' with length 1 decodes to "a". */
  method SingleCharacterExample() returns (r: seq<Byte>)
    ensures r == [97]
  {
    var reader := new BitReader.BitReader([0]);
    r := DecodeData(Leaf(97, 1), reader, 1);
  }
}
