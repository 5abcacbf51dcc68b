/** The `HuffmanNode` of both tree builders as one datatype. A node with a
    character is a leaf; a node without one has exactly two children. */
module HuffmanTree {
  import opened Bits
  import Counting

  datatype Tree =
    | Leaf(symbol: Byte, weight: int)
    | Node(left: Tree, right: Tree, weight: int)
  {
    /** `is_leaf`: the node has no children. */
    predicate IsLeaf()
      ensures IsLeaf() <==> !Node?
    {
      Leaf?
    }
  }

  /** `__lt__`: nodes are ordered by weight alone, so trees of equal weight are unordered
      and no tree comes before itself. */
  predicate Less(a: Tree, b: Tree)
    ensures Less(a, b) ==> a != b
    ensures a.weight == b.weight ==> !Less(a, b)
  {
    a.weight < b.weight
  }

  /** `__lt__` is a strict order that ignores everything but the weight. */
  lemma LessIsStrictOrder(a: Tree, b: Tree, c: Tree)
    ensures !Less(a, a)
    ensures Less(a, b) ==> !Less(b, a)
    ensures Less(a, b) && Less(b, c) ==> Less(a, c)
    ensures Less(a, b) <==> Less(Leaf(0, a.weight), Node(b, b, b.weight))
  {
  }

  /** The symbols on the leaves. */
  function Symbols(t: Tree): set<Byte>
  {
    match t
    case Leaf(s, _) => {s}
    case Node(l, r, _) => Symbols(l) + Symbols(r)
  }

  /** The (symbol, weight) pairs of the leaves, with repetitions. */
  function LeafItems(t: Tree): (m: multiset<(Byte, int)>)
    ensures |m| >= 1
  {
    match t
    case Leaf(s, w) => multiset{(s, w)}
    case Node(l, r, _) => LeafItems(l) + LeafItems(r)
  }

  /** Every internal node weighs what its two children weigh together. */
  predicate WellWeighted(t: Tree)
  {
    match t
    case Leaf(_, _) => true
    case Node(l, r, w) => w == l.weight + r.weight && WellWeighted(l) && WellWeighted(r)
  }

  /** The same shape and symbols with every weight 0, as the deserialiser rebuilds a tree. */
  function Strip(t: Tree): (s: Tree)
    ensures s.weight == 0 && s.Leaf? == t.Leaf?
    ensures Symbols(s) == Symbols(t)
  {
    match t
    case Leaf(sym, _) => Leaf(sym, 0)
    case Node(l, r, _) => Node(Strip(l), Strip(r), 0)
  }

  /** `path` leads from the root of t to a leaf holding x: 0 goes left, 1 goes right. */
  predicate PathTo(t: Tree, path: seq<Bit>, x: Byte)
    decreases t
  {
    match t
    case Leaf(s, _) => path == [] && s == x
    case Node(l, r, _) => |path| > 0 && PathTo(if path[0] == 0 then l else r, path[1..], x)
  }

  /** A path ends at one of the tree's symbols, and from an internal node it is never empty. */
  lemma {:induction false} PathToSymbol(t: Tree, path: seq<Bit>, x: Byte)
    requires PathTo(t, path, x)
    ensures x in Symbols(t)
    ensures t.Node? ==> |path| > 0
    decreases t
  {
    match t
    case Leaf(_, _) =>
    case Node(l, r, _) =>
      PathToSymbol(if path[0] == 0 then l else r, path[1..], x);
  }

  /** Weights play no part in paths. */
  lemma {:induction false} PathToStrip(t: Tree, path: seq<Bit>, x: Byte)
    ensures PathTo(Strip(t), path, x) <==> PathTo(t, path, x)
    decreases t
  {
    match t
    case Leaf(_, _) =>
    case Node(l, r, _) =>
      if |path| > 0 {
        PathToStrip(if path[0] == 0 then l else r, path[1..], x);
      }
  }

  /** No path to a leaf is a proper prefix of another: a tree's leaf paths form a prefix code. */
  lemma {:induction false} PathsPrefixFree(t: Tree, p: seq<Bit>, q: seq<Bit>, x: Byte, y: Byte)
    requires PathTo(t, p, x) && PathTo(t, q, y) && p <= q
    ensures p == q && x == y
    decreases t
  {
    match t
    case Leaf(_, _) =>
    case Node(l, r, _) =>
      assert p[0] == q[0];
      PathsPrefixFree(if p[0] == 0 then l else r, p[1..], q[1..], x, y);
  }

  /** In a well-weighted tree the root weighs what its leaves weigh together. */
  lemma {:induction false} RootWeightIsLeafSum(t: Tree)
    requires WellWeighted(t)
    ensures t.weight == Counting.ValueSum(LeafItems(t))
    decreases t
  {
    match t
    case Leaf(s, w) =>
      Counting.ValueSumRemove(multiset{(s, w)}, (s, w));
      assert multiset{(s, w)} - multiset{(s, w)} == multiset{};
    case Node(l, r, _) =>
      RootWeightIsLeafSum(l);
      RootWeightIsLeafSum(r);
      Counting.ValueSumUnion(LeafItems(l), LeafItems(r));
  }

  /** The symbols are the first components of the leaf items. */
  lemma {:induction false} SymbolsAreLeafItems(t: Tree)
    ensures forall x :: x in Symbols(t) <==> exists w :: (x, w) in LeafItems(t)
    decreases t
  {
    match t
    case Leaf(s, w) =>
      assert (s, w) in LeafItems(t);
    case Node(l, r, _) =>
      SymbolsAreLeafItems(l);
      SymbolsAreLeafItems(r);
  }

  /** A node has at least two leaves. */
  lemma NodeHasTwoLeaves(t: Tree)
    requires t.Node?
    ensures |LeafItems(t)| >= 2
  {
  }
}
