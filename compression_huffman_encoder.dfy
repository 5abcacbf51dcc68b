/** `compression/huffman_encoder.py`: the code table of a tree, each code the
    root-to-leaf path as a bit list, and the payload those codes spell out. */
module CompressionHuffmanEncoder {
  import opened Bits
  import opened HuffmanTree

  /** `_generate_codes`: a leaf maps its symbol to the path so far; an internal node merges
      the codes of its left subtree (path + [0]) with those of its right subtree (path + [1]),
      the right-hand entries unpacked last. Every code is at least as long as the path so
      far, and strictly longer below an internal node. */
  function GenerateCodes(node: Tree, code: seq<Bit>): (r: map<Byte, seq<Bit>>)
    ensures forall x | x in r :: |r[x]| >= |code|
    ensures node.Node? ==> forall x | x in r :: |r[x]| > |code|
  {
    match node
    case Leaf(s, _) => map[s := code]
    case Node(l, r, _) => GenerateCodes(l, code + [0]) + GenerateCodes(r, code + [1])
  }

  /** `generate_huffman_codes`: a lone leaf gets the code [0]; otherwise the path codes.
      No code is empty. */
  function GenerateHuffmanCodes(root: Tree): (r: map<Byte, seq<Bit>>)
    ensures forall x | x in r :: |r[x]| >= 1
  {
    if root.Leaf? then map[root.symbol := [0]] else GenerateCodes(root, [])
  }

  /** The codes of a subtree are keyed by exactly its symbols. */
  lemma {:induction false} GenerateCodesKeys(node: Tree, code: seq<Bit>)
    ensures GenerateCodes(node, code).Keys == Symbols(node)
    decreases node
  {
    match node
    case Leaf(_, _) =>
    case Node(l, r, _) =>
      GenerateCodesKeys(l, code + [0]);
      GenerateCodesKeys(r, code + [1]);
  }

  /** A code that continues `code + [b]` with a path through child b continues `code`
      with a path through the parent. */
  lemma ExtendPath(l: Tree, r: Tree, w: int, code: seq<Bit>, b: Bit, c: seq<Bit>, x: Byte)
    requires |c| > |code| && c[..|code| + 1] == code + [b]
    requires PathTo(if b == 0 then l else r, c[|code| + 1..], x)
    ensures c[..|code|] == code && PathTo(Node(l, r, w), c[|code|..], x)
  {
    assert c[..|code|] == c[..|code| + 1][..|code|];
    assert c[|code|..][0] == c[..|code| + 1][|code|] == b;
    assert c[|code|..][1..] == c[|code| + 1..];
  }

  /** Every symbol of the subtree has a code, which is the path so far followed by
      a path from the subtree's root to a leaf holding that symbol. */
  lemma {:induction false} GenerateCodesArePaths(node: Tree, code: seq<Bit>)
    ensures GenerateCodes(node, code).Keys == Symbols(node)
    ensures forall x | x in GenerateCodes(node, code) ::
      |GenerateCodes(node, code)[x]| >= |code| && GenerateCodes(node, code)[x][..|code|] == code &&
      PathTo(node, GenerateCodes(node, code)[x][|code|..], x)
    decreases node
  {
    GenerateCodesKeys(node, code);
    match node
    case Leaf(s, _) =>
    case Node(l, r, w) =>
      var left, right := GenerateCodes(l, code + [0]), GenerateCodes(r, code + [1]);
      GenerateCodesArePaths(l, code + [0]);
      GenerateCodesArePaths(r, code + [1]);
      var m := GenerateCodes(node, code);
      forall x | x in m
        ensures |m[x]| >= |code| && m[x][..|code|] == code && PathTo(node, m[x][|code|..], x)
      {
        if x in right {
          assert m[x] == right[x];
          ExtendPath(l, r, w, code, 1, m[x], x);
        } else {
          assert m[x] == left[x];
          ExtendPath(l, r, w, code, 0, m[x], x);
        }
      }
  }

  /** When a symbol occurs in both subtrees, the code from the right subtree is kept. */
  lemma RightSubtreeWins(l: Tree, r: Tree, w: int, code: seq<Bit>, x: Byte)
    requires x in Symbols(r)
    ensures x in GenerateCodes(Node(l, r, w), code) && x in GenerateCodes(r, code + [1])
    ensures GenerateCodes(Node(l, r, w), code)[x] == GenerateCodes(r, code + [1])[x]
  {
    GenerateCodesKeys(r, code + [1]);
  }

  /** The code table is keyed by exactly the tree's symbols. */
  lemma HuffmanCodesKeys(root: Tree)
    ensures GenerateHuffmanCodes(root).Keys == Symbols(root)
  {
    if root.Node? {
      GenerateCodesKeys(root, []);
    }
  }

  /** The code table of a tree: its keys are the leaf symbols; a lone leaf is coded [0];
      below an internal root every code is a non-empty root-to-leaf path (so its length is the
      depth of that leaf), and no code is a prefix of another. */
  lemma HuffmanCodesArePaths(root: Tree)
    ensures GenerateHuffmanCodes(root).Keys == Symbols(root)
    ensures root.Leaf? ==> GenerateHuffmanCodes(root) == map[root.symbol := [0]]
    ensures root.Node? ==> forall x | x in GenerateHuffmanCodes(root) ::
      PathTo(root, GenerateHuffmanCodes(root)[x], x) && |GenerateHuffmanCodes(root)[x]| > 0
    ensures forall x, y | x in GenerateHuffmanCodes(root) && y in GenerateHuffmanCodes(root) ::
      GenerateHuffmanCodes(root)[x] <= GenerateHuffmanCodes(root)[y] ==> x == y
  {
    var m := GenerateHuffmanCodes(root);
    if root.Node? {
      GenerateCodesArePaths(root, []);
      forall x | x in m ensures PathTo(root, m[x], x) && |m[x]| > 0 {
        assert m[x][0..] == m[x];
        PathToSymbol(root, m[x], x);
      }
      forall x, y | x in m && y in m && m[x] <= m[y] ensures x == y {
        PathsPrefixFree(root, m[x], m[y], x, y);
      }
    }
  }

  /** The codes depend only on the shape and the symbols, not on the weights: the tree
      read back by the decompressor (every weight 0) has the compressor's code table. */
  lemma {:induction false} GenerateCodesStrip(t: Tree, code: seq<Bit>)
    ensures GenerateCodes(Strip(t), code) == GenerateCodes(t, code)
    decreases t
  {
    match t
    case Leaf(_, _) =>
    case Node(l, r, _) =>
      GenerateCodesStrip(l, code + [0]);
      GenerateCodesStrip(r, code + [1]);
  }

  lemma HuffmanCodesStrip(t: Tree)
    ensures GenerateHuffmanCodes(Strip(t)) == GenerateHuffmanCodes(t)
  {
    GenerateCodesStrip(t, []);
  }

  /** The compressor's payload: the codes of the input bytes concatenated in input order
      (`chain(*(codes[b] for b in input))`). Every byte must have a code. */
  function Encode(xs: seq<Byte>, codes: map<Byte, seq<Bit>>): (r: seq<Bit>)
    requires forall x | x in xs :: x in codes
    ensures xs == [] ==> r == []
    ensures (forall x | x in xs :: |codes[x]| >= 1) ==> |r| >= |xs|
  {
    if xs == [] then [] else codes[xs[0]] + Encode(xs[1..], codes)
  }

  /** Encoding a concatenation concatenates the encodings. */
  lemma {:induction false} EncodeAppend(xs: seq<Byte>, ys: seq<Byte>, codes: map<Byte, seq<Bit>>)
    requires forall x | x in xs + ys :: x in codes
    ensures Encode(xs + ys, codes) == Encode(xs, codes) + Encode(ys, codes)
    decreases |xs|
  {
    if xs == [] {
      assert xs + ys == ys;
    } else {
      assert (xs + ys)[0] == xs[0] && (xs + ys)[1..] == xs[1..] + ys;
      EncodeAppend(xs[1..], ys, codes);
      var code, more := codes[xs[0]], Encode(xs[1..], codes);
      assert Encode(xs, codes) == code + more;
      assert Encode(xs + ys, codes) == code + (more + Encode(ys, codes));
    }
  }

  /** With a one-leaf tree every input byte costs exactly one bit. */
  lemma {:induction false} EncodeSingleLeaf(xs: seq<Byte>, s: Byte)
    requires forall x | x in xs :: x == s
    ensures forall x | x in xs :: x in map[s := [0]]
    ensures Encode(xs, map[s := [0]]) == Zeros(|xs|)
    decreases |xs|
  {
    if xs != [] {
      assert xs[0] in xs;
      forall x | x in xs[1..] ensures x == s {
        assert x in xs;
      }
      EncodeSingleLeaf(xs[1..], s);
      assert Zeros(|xs|) == [0] + Zeros(|xs| - 1);
    }
  }
}
