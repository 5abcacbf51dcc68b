/** `huffman_tree_builder.py`: the same construction as the compression package's,
    with the two-lowest selection done by a full stable sort, and the
    `HuffmanTreeBuilder` operations. Its `create_leaf_node` and
    `create_internal_node` are the compression package's, and so is the tree type. */
module HuffmanTreeBuilder {
  import opened Bits
  import opened Prelude
  import opened ResultTypes
  import opened HuffmanTree
  import Counting
  import C = CompressionHuffmanTreeBuilder

  /** The items without position i. */
  function RemoveAt<T>(items: seq<T>, i: nat): (r: seq<T>)
    requires i < |items|
    ensures |r| == |items| - 1
    ensures forall k | 0 <= k < |r| :: r[k] == items[if k < i then k else k + 1]
    ensures multiset(r) + multiset{items[i]} == multiset(items)
  {
    assert items == items[..i] + [items[i]] + items[i + 1..];
    items[..i] + items[i + 1..]
  }

  /** The items are in ascending order of key. */
  ghost predicate SortedBy<T>(items: seq<T>, key: T -> int)
  {
    forall a, b | 0 <= a < b < |items| :: key(items[a]) <= key(items[b])
  }

  /** `sorted(items, key=key)`: a stable sort, here by repeatedly taking out the first
      item of smallest key. */
  function SortedByKey<T>(items: seq<T>, key: T -> int): (r: seq<T>)
    ensures multiset(r) == multiset(items)
    ensures SortedBy(r, key)
    decreases |items|
  {
    if items == [] then []
    else
      var i := C.MinIndex(items, key, -1);
      var rest := RemoveAt(items, i);
      var tail := SortedByKey(rest, key);
      PrependSmallest(items, key, i, rest, tail);
      [items[i]] + tail
  }

  /** Putting the smallest item in front of a sorted arrangement of the others keeps it sorted. */
  lemma PrependSmallest<T>(items: seq<T>, key: T -> int, i: nat, rest: seq<T>, tail: seq<T>)
    requires i < |items| && forall k | 0 <= k < |items| :: key(items[i]) <= key(items[k])
    requires multiset(rest) + multiset{items[i]} == multiset(items)
    requires multiset(tail) == multiset(rest) && SortedBy(tail, key)
    ensures multiset([items[i]] + tail) == multiset(items)
    ensures SortedBy([items[i]] + tail, key)
  {
    var r := [items[i]] + tail;
    forall b | 1 <= b < |r| ensures key(items[i]) <= key(r[b]) {
      assert r[b] == tail[b - 1];
      assert r[b] in multiset(tail);
      assert r[b] in multiset(items);
      var k :| 0 <= k < |items| && items[k] == r[b];
    }
    forall a, b | 0 <= a < b < |r| ensures key(r[a]) <= key(r[b]) {
      if a > 0 {
        assert r[a] == tail[a - 1] && r[b] == tail[b - 1];
      }
    }
  }

  /** Leaving out position i, the first smallest of the remaining items is found at the
      position that the first smallest of the items without i had before the removal. */
  lemma MinIndexAfterRemoval<T>(items: seq<T>, key: T -> int, i: nat)
    requires 2 <= |items| && i < |items|
    ensures var j' := C.MinIndex(RemoveAt(items, i), key, -1);
      C.MinIndex(items, key, i) == if j' < i then j' else j' + 1
  {
    var rest := RemoveAt(items, i);
    var j' := C.MinIndex(rest, key, -1);
    var j := if j' < i then j' else j' + 1;
    assert items[j] == rest[j'];
    forall k | 0 <= k < |items| && k != i ensures key(items[j]) <= key(items[k]) {
      var k' := if k < i then k else k - 1;
      assert rest[k'] == items[k];
    }
    forall k | 0 <= k < j && k != i ensures key(items[j]) < key(items[k]) {
      var k' := if k < i then k else k - 1;
      assert rest[k'] == items[k] && k' < j';
    }
    assert C.IsFirstMin(items, key, i, j);
    C.FirstMinUnique(items, key, i, j, C.MinIndex(items, key, i));
  }

  /** The first two items of the sort are the first smallest item, then the first
      smallest among the others. */
  lemma SortedFirstTwo<T>(items: seq<T>, key: T -> int)
    requires |items| >= 2
    ensures SortedByKey(items, key)[0] == items[C.MinIndex(items, key, -1)]
    ensures SortedByKey(items, key)[1] == items[C.MinIndex(items, key, C.MinIndex(items, key, -1))]
  {
    var i := C.MinIndex(items, key, -1);
    var rest := RemoveAt(items, i);
    MinIndexAfterRemoval(items, key, i);
    assert SortedByKey(items, key) == [items[i]] + SortedByKey(rest, key);
    assert SortedByKey(rest, key)[0] == rest[C.MinIndex(rest, key, -1)];
  }

  /** `find_two_lowest_items`: ValueError on no items, the item twice when there is one,
      otherwise the first two items of `sorted(items, key=key)`. It returns exactly what
      the compression package's heap-based version returns. */
  function FindTwoLowestItems<T>(items: seq<T>, key: T -> int): (r: Result<(T, T), Exception>)
    ensures items == [] <==> r == Err(ValueError("At least one item is required"))
    ensures |items| == 1 ==> r == Ok((items[0], items[0]))
    ensures r == C.FindTwoLowestItems(items, key)
  {
    if |items| == 0 then
      Err(ValueError("At least one item is required"))
    else if |items| == 1 then
      Ok((items[0], items[0]))
    else
      var sorted := SortedByKey(items, key);
      SortedFirstTwo(items, key);
      Ok((sorted[0], sorted[1]))
  }

  /** The test expectation: [5, 2, 8, 1, 9, 3] gives (1, 2). */
  lemma FindTwoLowestNumbers(items: seq<int>)
    requires items == [5, 2, 8, 1, 9, 3]
    ensures FindTwoLowestItems(items, C.Identity) == Ok((1, 2))
  {
    C.FindTwoLowestExample(items);
  }

  /** The test expectation: keyed by count, ("a", 5), ("b", 2), ("c", 8), ("d", 1) give
      ("d", 1) and ("b", 2). */
  lemma FindTwoLowestPairs(items: seq<(string, int)>)
    requires items == [("a", 5), ("b", 2), ("c", 8), ("d", 1)]
    ensures FindTwoLowestItems(items, Count) == Ok((("d", 1), ("b", 2)))
  {
    assert C.IsFirstMin(items, Count, -1, 3);
    assert C.IsFirstMin(items, Count, 3, 1);
    C.FindTwoLowestAt(items, Count, 3, 1);
  }

  /** The key `lambda x: x[1]`. */
  function Count(entry: (string, int)): int
  {
    entry.1
  }

  /** The key `lambda node: node.weight`. */
  function Weight(node: Tree): int
  {
    node.weight
  }

  /** `create_node_from_values`: an internal node over the two leaves, left then right. */
  function CreateNodeFromValues(char1: Byte, freq1: int, char2: Byte, freq2: int): (t: Tree)
    ensures t.Node? && t.left == Leaf(char1, freq1) && t.right == Leaf(char2, freq2)
    ensures t.weight == freq1 + freq2 && WellWeighted(t)
    ensures LeafItems(t) == multiset{(char1, freq1), (char2, freq2)}
  {
    C.CreateInternalNode(C.CreateLeafNode(char1, freq1), C.CreateLeafNode(char2, freq2))
  }

  /** `select_and_join_lowest_nodes`: the merge of the two lightest nodes, the first
      lightest on the left; a single node is merged with itself, and no nodes is a
      ValueError. */
  function SelectAndJoinLowestNodes(nodes: seq<Tree>): (r: Result<Tree, Exception>)
    ensures nodes == [] <==> r == Err(ValueError("At least one item is required"))
    ensures |nodes| == 1 ==> r == Ok(Node(nodes[0], nodes[0], 2 * nodes[0].weight))
    ensures |nodes| >= 2 ==> r.Ok?
  {
    match FindTwoLowestItems(nodes, Weight)
    case Err(e) => Err(e)
    case Ok((left, right)) => Ok(C.CreateInternalNode(left, right))
  }

  /** Of two or more nodes, the join is of the stable lowest two, weighing their sum. */
  lemma SelectAndJoinLowest(nodes: seq<Tree>)
    requires |nodes| >= 2
    ensures exists i, j ::
      && C.StableLowestTwo(nodes, Weight, i, j)
      && SelectAndJoinLowestNodes(nodes) == Ok(Node(nodes[i], nodes[j], nodes[i].weight + nodes[j].weight))
  {
    var found := C.FindTwoLowestItems(nodes, Weight);
    assert found.Ok? && exists i, j :: C.StableLowestTwo(nodes, Weight, i, j) && found.value == (nodes[i], nodes[j]);
    var i, j :| C.StableLowestTwo(nodes, Weight, i, j) && found.value == (nodes[i], nodes[j]);
    SelectAndJoinAt(nodes, i, j);
  }

  /** The join is fixed by the positions of the stable lowest two. */
  lemma SelectAndJoinAt(nodes: seq<Tree>, i: int, j: int)
    requires C.StableLowestTwo(nodes, Weight, i, j)
    ensures SelectAndJoinLowestNodes(nodes) == Ok(Node(nodes[i], nodes[j], nodes[i].weight + nodes[j].weight))
  {
    C.FindTwoLowestAt(nodes, Weight, i, j);
  }

  /** The test expectation: of weights 5, 1, 2, 1 the two weight-1 leaves are joined, in
      list order, into a node of weight 2. */
  lemma SelectAndJoinExample(nodes: seq<Tree>)
    requires nodes == [Leaf('a' as Byte, 5), Leaf('c' as Byte, 1), Leaf('b' as Byte, 2), Leaf('d' as Byte, 1)]
    ensures SelectAndJoinLowestNodes(nodes) == Ok(Node(Leaf('c' as Byte, 1), Leaf('d' as Byte, 1), 2))
  {
    assert C.IsFirstMin(nodes, Weight, -1, 1);
    assert C.IsFirstMin(nodes, Weight, 1, 3);
    SelectAndJoinAt(nodes, 1, 3);
  }

  /** `HuffmanTreeBuilder.build_huffman_tree`: the compression package's construction.
      The root weighs the sum of the frequencies, its symbols are the map's keys, it is
      an internal node when there are two or more symbols and the single leaf when
      there is one. */
  method BuildHuffmanTree(frequencyMap: map<Byte, int>) returns (r: Result<Tree, Exception>)
    ensures frequencyMap == map[] <==> r == Err(IndexError)
    ensures r.Ok? ==> C.IsHuffmanTree(r.value, frequencyMap)
    ensures r.Ok? ==> r.value.weight == Counting.Total(frequencyMap) && Symbols(r.value) == frequencyMap.Keys
    ensures r.Ok? && |frequencyMap| >= 2 ==> r.value.Node?
    ensures forall k | k in frequencyMap && |frequencyMap| == 1 :: r == Ok(Leaf(k, frequencyMap[k]))
  {
    r := C.BuildHuffmanTree(frequencyMap);
    if r.Ok? {
      C.HuffmanTreeSymbolsAndWeight(r.value, frequencyMap);
      C.HuffmanTreeShape(r.value, frequencyMap);
    }
  }
}
