/** `tree_deserializer.py`: rebuilds a tree from its pre-order bits, read one at
    a time from the top-level `BitReader`. */
module TreeDeserializer {
  import opened Bits
  import opened Prelude
  import opened ResultTypes
  import opened HuffmanTree
  import opened CompressionTreeSerializer
  import BitReader

  /** The tree grammar read from the front of a bit string: what `deserialize_tree`
      builds and the bits it leaves unread, or the IndexError of running out of bits. */
  function ParseTree(bits: seq<Bit>): (r: Result<(Tree, seq<Bit>), Exception>)
    ensures r.Ok? ==> |r.value.1| < |bits| && bits == SerializeTree(r.value.0) + r.value.1
    ensures r.Ok? ==> Strip(r.value.0) == r.value.0
    ensures r.Err? ==> r.error == IndexError
    decreases |bits|
  {
    if bits == [] then Err(IndexError)
    else if bits[0] == 1 then
      if |bits| < 9 then Err(IndexError)
      else
        var code := bits[1..9];
        ValueByteBits(code);
        assert bits == [1] + code + bits[9..];
        Ok((Leaf(BitsValue(code), 0), bits[9..]))
    else
      var left := ParseTree(bits[1..]);
      if left.Err? then Err(left.error)
      else
        var right := ParseTree(left.value.1);
        if right.Err? then Err(right.error)
        else
          NodeBits(bits, left.value.0, left.value.1, right.value.0, right.value.1);
          Ok((Node(left.value.0, right.value.0, 0), right.value.1))
  }

  /** A 0 bit, a left subtree and a right subtree are an internal node's bits. */
  lemma NodeBits(bits: seq<Bit>, left: Tree, rest: seq<Bit>, right: Tree, rest': seq<Bit>)
    requires bits != [] && bits[0] == 0
    requires bits[1..] == SerializeTree(left) + rest && rest == SerializeTree(right) + rest'
    ensures bits == SerializeTree(Node(left, right, 0)) + rest'
  {
    var l, r := SerializeTree(left), SerializeTree(right);
    Reassociate([0], l, r, rest');
    assert SerializeTree(Node(left, right, 0)) == [0] + l + r;
    assert bits == [0] + bits[1..];
  }

  lemma Reassociate(a: seq<Bit>, b: seq<Bit>, c: seq<Bit>, d: seq<Bit>)
    ensures a + (b + (c + d)) == a + b + c + d
  {
  }

  /** A leaf's bits: 1, then eight bits read MSB first. */
  lemma ParseLeafBits(bits: seq<Bit>, code: seq<Bit>, rest: seq<Bit>)
    requires |code| == 8 && bits == [1] + code + rest
    ensures ParseTree(bits) == Ok((Leaf(BitsValue(code), 0), rest))
  {
    assert bits[1..9] == code && bits[9..] == rest;
  }

  /** A 1 bit with fewer than eight bits after it runs out of bits. */
  lemma ParseShortLeaf(bits: seq<Bit>)
    requires bits != [] && bits[0] == 1 && |bits| < 9
    ensures ParseTree(bits) == Err(IndexError)
  {
  }

  /** A 0 bit: the left subtree from what follows, then the right subtree from what the
      left one leaves. */
  lemma ParseNodeBits(bits: seq<Bit>)
    requires bits != [] && bits[0] == 0
    ensures ParseTree(bits[1..]).Err? ==> ParseTree(bits) == Err(IndexError)
    ensures ParseTree(bits[1..]).Ok? && ParseTree(ParseTree(bits[1..]).value.1).Err? ==>
      ParseTree(bits) == Err(IndexError)
    ensures ParseTree(bits[1..]).Ok? && ParseTree(ParseTree(bits[1..]).value.1).Ok? ==>
      ParseTree(bits) == Ok((Node(ParseTree(bits[1..]).value.0, ParseTree(ParseTree(bits[1..]).value.1).value.0, 0),
                             ParseTree(ParseTree(bits[1..]).value.1).value.1))
  {
  }

  /** Serialising and then deserialising gives back the tree without its weights, and
      leaves whatever followed unread. */
  lemma {:induction false} ParseSerialized(t: Tree, rest: seq<Bit>)
    ensures ParseTree(SerializeTree(t) + rest) == Ok((Strip(t), rest))
    decreases t
  {
    match t
    case Leaf(s, _) =>
      ParseLeafBits(SerializeTree(t) + rest, ByteBits(s), rest);
      ByteBitsValue(s);
    case Node(l, r, _) =>
      var bits := SerializeTree(t) + rest;
      var sl, sr := SerializeTree(l), SerializeTree(r);
      Reassociate([0], sl, sr, rest);
      assert bits[1..] == sl + (sr + rest);
      ParseSerialized(l, sr + rest);
      ParseSerialized(r, rest);
      ParseNodeBits(bits);
  }

  /** `deserialize_tree`: a 1 bit is a leaf whose character is the next eight bits read
      MSB first, anything else an internal node whose left and then right subtree
      follow; every weight is 0. Running out of bits is the reader's IndexError. */
  method DeserializeTree(reader: BitReader.BitReader) returns (r: Result<Tree, Exception>)
    requires reader.Valid()
    modifies reader
    ensures reader.Valid()
    ensures ParseTree(old(reader.Remaining())).Ok? ==>
      r == Ok(ParseTree(old(reader.Remaining())).value.0) && reader.Remaining() == ParseTree(old(reader.Remaining())).value.1
    ensures ParseTree(old(reader.Remaining())).Err? ==> r == Err(IndexError)
    decreases |reader.Remaining()|
  {
    ghost var bits := reader.Remaining();
    var nodeTypeBit := reader.ReadBit();
    if nodeTypeBit.Err? {
      return Err(nodeTypeBit.error);
    }
    ghost var afterType := reader.Remaining();
    if nodeTypeBit.value == 1 {
      var byteValue := ReadLeafByte(reader);
      if byteValue.Err? {
        ParseShortLeaf(bits);
        return Err(byteValue.error);
      }
      assert afterType == afterType[..8] + afterType[8..];
      ParseLeafBits(bits, afterType[..8], afterType[8..]);
      return Ok(Leaf(byteValue.value, 0));
    }
    ParseNodeBits(bits);
    var left := DeserializeTree(reader);
    if left.Err? {
      return left;
    }
    var right := DeserializeTree(reader);
    if right.Err? {
      return right;
    }
    return Ok(Node(left.value, right.value, 0));
  }

  /** The loop of `deserialize_tree` over a leaf's eight character bits: each bit read is
      shifted into `byte_value` from the right. Fewer than eight bits left is the reader's
      IndexError. */
  method ReadLeafByte(reader: BitReader.BitReader) returns (r: Result<Byte, Exception>)
    requires reader.Valid()
    modifies reader
    ensures reader.Valid()
    ensures |old(reader.Remaining())| >= 8 ==>
      r == Ok(BitsValue(old(reader.Remaining())[..8])) && reader.Remaining() == old(reader.Remaining())[8..]
    ensures |old(reader.Remaining())| < 8 ==> r == Err(IndexError)
  {
    ghost var bits := reader.Remaining();
    var byteValue := 0;
    ghost var read: seq<Bit> := [];
    for i := 0 to 8
      invariant reader.Valid() && |read| == i
      invariant byteValue == BitsValue(read)
      invariant bits == read + reader.Remaining()
    {
      ghost var before := reader.Remaining();
      var bit := reader.ReadBit();
      if bit.Err? {
        assert bits == read + [];
        return Err(bit.error);
      }
      ReadOneMore(bits, read, before);
      BitsValueAppend(read, bit.value);
      // (byte_value << 1) | bit, with the low bit of byte_value << 1 clear
      byteValue := byteValue * 2 + bit.value;
      read := read + [bit.value];
    }
    assert bits[..8] == read && bits[8..] == reader.Remaining();
    ValueByteBits(read);
    return Ok(byteValue);
  }

  /** Moving the next bit still to come onto the end of the bits read. */
  lemma ReadOneMore(bits: seq<Bit>, read: seq<Bit>, rest: seq<Bit>)
    requires bits == read + rest && rest != []
    ensures bits == (read + [rest[0]]) + rest[1..]
  {
    assert rest == [rest[0]] + rest[1..];
  }

  /** The test expectation: 1 01100001 is the leaf 'a' of weight 0. */
  lemma DeserializeLeafExample(bits: seq<Bit>)
    requires bits == [1, 0, 1, 1, 0, 0, 0, 0, 1]
    ensures ParseTree(bits) == Ok((Leaf(97, 0), []))
  {
    var code := bits[1..];
    assert bits == [1] + code + [];
    ParseLeafBits(bits, code, []);
    LetterA(code);
  }

  /** 01100001 is 'a'. */
  lemma LetterA(code: seq<Bit>)
    requires code == [0, 1, 1, 0, 0, 0, 0, 1]
    ensures BitsValue(code) == 97
  {
    ByteBitsOfA();
    ByteBitsValue(97);
  }

  /** The test expectation: 0 1 01100001 1 01100010 is the internal node over 'a' and 'b'. */
  lemma DeserializeNodeExample(bits: seq<Bit>)
    requires bits == [0, 1, 0, 1, 1, 0, 0, 0, 0, 1, 1, 0, 1, 1, 0, 0, 0, 1, 0]
    ensures ParseTree(bits) == Ok((Node(Leaf(97, 0), Leaf(98, 0), 0), []))
  {
    TwoLeafExample();
    assert bits == SerializeTree(Node(Leaf(97, 1), Leaf(98, 1), 2)) + [];
    ParseSerialized(Node(Leaf(97, 1), Leaf(98, 1), 2), []);
  }
}
