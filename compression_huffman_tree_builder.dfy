/** `compression/huffman_tree_builder.py`: the two-lowest selection, the node
    constructors and the heap-driven Huffman construction. */
module CompressionHuffmanTreeBuilder {
  import opened Bits
  import opened Prelude
  import opened ResultTypes
  import opened HuffmanTree
  import Counting

  /** The position of the first item with the smallest key, ignoring position `skip`
      (pass -1 to consider every position). */
  function MinIndex<T>(items: seq<T>, key: T -> int, skip: int): (i: nat)
    requires |items| > (if 0 <= skip < |items| then 1 else 0)
    ensures i < |items| && i != skip
    ensures forall k | 0 <= k < |items| && k != skip :: key(items[i]) <= key(items[k])
    ensures forall k | 0 <= k < i && k != skip :: key(items[i]) < key(items[k])
    decreases |items|
  {
    var last := |items| - 1;
    var init := items[..last];
    if last == skip then
      MinIndex(init, key, skip)
    else if |init| <= (if 0 <= skip < last then 1 else 0) then
      last
    else
      var j := MinIndex(init, key, skip);
      if key(items[last]) < key(items[j]) then last else j
  }

  /** Position i holds the first item of smallest key among the positions other than `skip`. */
  ghost predicate IsFirstMin<T>(items: seq<T>, key: T -> int, skip: int, i: int)
  {
    0 <= i < |items| && i != skip
    && (forall k | 0 <= k < |items| && k != skip :: key(items[i]) <= key(items[k]))
    && (forall k | 0 <= k < i && k != skip :: key(items[i]) < key(items[k]))
  }

  /** Only one position is the first of smallest key. */
  lemma FirstMinUnique<T>(items: seq<T>, key: T -> int, skip: int, i: int, i': int)
    requires IsFirstMin(items, key, skip, i) && IsFirstMin(items, key, skip, i')
    ensures i == i'
  {
    assert key(items[i]) == key(items[i']);
  }

  /** Positions i and j hold the first two items of a stable sort by key: i is the
      first position of the smallest key, j the first position of the smallest key
      among the others. */
  ghost predicate StableLowestTwo<T>(items: seq<T>, key: T -> int, i: int, j: int)
  {
    IsFirstMin(items, key, -1, i) && IsFirstMin(items, key, i, j)
  }

  /** `find_two_lowest_items`: ValueError on no items, the item twice when there is one,
      otherwise what `nsmallest(2, items, key)` returns (the first two of a stable sort). */
  function FindTwoLowestItems<T>(items: seq<T>, key: T -> int): (r: Result<(T, T), Exception>)
    ensures items == [] <==> r == Err(ValueError("At least one item is required"))
    ensures |items| == 1 ==> r == Ok((items[0], items[0]))
    ensures |items| >= 2 ==> r.Ok? && exists i, j :: StableLowestTwo(items, key, i, j) && r.value == (items[i], items[j])
  {
    if items == [] then
      Err(ValueError("At least one item is required"))
    else if |items| == 1 then
      Ok((items[0], items[0]))
    else
      var i := MinIndex(items, key, -1);
      var j := MinIndex(items, key, i);
      assert StableLowestTwo(items, key, i, j);
      Ok((items[i], items[j]))
  }

  /** `create_leaf_node`. */
  function CreateLeafNode(character: Byte, weight: int): (t: Tree)
    ensures t.IsLeaf() && LeafItems(t) == multiset{(character, weight)} && WellWeighted(t)
  {
    Leaf(character, weight)
  }

  /** `create_internal_node`: a node without a character over exactly the two children,
      weighing what they weigh together; it keeps the leaves of both. */
  function CreateInternalNode(left: Tree, right: Tree): (t: Tree)
    ensures !t.IsLeaf() && t.left == left && t.right == right
    ensures t.weight == left.weight + right.weight
    ensures LeafItems(t) == LeafItems(left) + LeafItems(right)
    ensures WellWeighted(t) <==> WellWeighted(left) && WellWeighted(right)
  {
    Node(left, right, left.weight + right.weight)
  }

  /** The leaves of all the trees on a heap, taken together. */
  ghost function HeapItems(heap: multiset<Tree>): multiset<(Byte, int)>
    decreases |heap|
  {
    if heap == multiset{} then multiset{}
    else
      var t :| t in heap;
      LeafItems(t) + HeapItems(heap - multiset{t})
  }

  /** The leaves of a heap do not depend on which tree is taken out first. */
  lemma {:induction false} HeapItemsRemove(heap: multiset<Tree>, t: Tree)
    requires t in heap
    ensures HeapItems(heap) == LeafItems(t) + HeapItems(heap - multiset{t})
    decreases |heap|
  {
    var u :| u in heap && HeapItems(heap) == LeafItems(u) + HeapItems(heap - multiset{u});
    if u != t {
      var withoutU, withoutT := heap - multiset{u}, heap - multiset{t};
      RemoveBoth(heap, t, u);
      HeapItemsRemove(withoutU, t);
      HeapItemsRemove(withoutT, u);
      UnionSwap(LeafItems(t), LeafItems(u), HeapItems(withoutU - multiset{t}));
    }
  }

  /** Two different trees can be taken off a heap in either order. */
  lemma RemoveBoth(heap: multiset<Tree>, t: Tree, u: Tree)
    requires t in heap && u in heap && t != u
    ensures t in heap - multiset{u} && u in heap - multiset{t}
    ensures heap - multiset{t} - multiset{u} == heap - multiset{u} - multiset{t}
  {
  }

  lemma UnionSwap(a: multiset<(Byte, int)>, b: multiset<(Byte, int)>, c: multiset<(Byte, int)>)
    ensures b + (a + c) == a + (b + c)
  {
  }

  /** A non-empty heap has a tree of least weight. */
  lemma {:induction false} LightestExists(heap: multiset<Tree>)
    requires heap != multiset{}
    ensures exists t :: t in heap && forall u | u in heap :: t.weight <= u.weight
    decreases |heap|
  {
    var t :| t in heap;
    var rest := heap - multiset{t};
    if rest != multiset{} {
      LightestExists(rest);
      var m :| m in rest && forall u | u in rest :: m.weight <= u.weight;
      if m.weight <= t.weight {
        assert m in heap && forall u | u in heap :: m.weight <= u.weight by {
          forall u | u in heap ensures m.weight <= u.weight {
            if u != t { assert u in rest; }
          }
        }
      } else {
        assert forall u | u in heap :: t.weight <= u.weight by {
          forall u | u in heap ensures t.weight <= u.weight {
            if u != t { assert u in rest; }
          }
        }
      }
    } else {
      assert heap == rest + multiset{t};
    }
  }

  /** `heapq.heappop`: takes out a tree no heavier than any tree left. Which one of
      several equally light trees comes out is not specified. */
  method HeapPop(heap: multiset<Tree>) returns (smallest: Tree, rest: multiset<Tree>)
    requires heap != multiset{}
    ensures smallest in heap && rest == heap - multiset{smallest}
    ensures forall t | t in rest :: smallest.weight <= t.weight
  {
    LightestExists(heap);
    smallest :| smallest in heap && forall t | t in heap :: smallest.weight <= t.weight;
    rest := heap - multiset{smallest};
  }

  /** Pushing a tree adds its leaves to the heap's. */
  lemma HeapItemsAdd(heap: multiset<Tree>, t: Tree)
    ensures HeapItems(heap + multiset{t}) == LeafItems(t) + HeapItems(heap)
  {
    HeapItemsRemove(heap + multiset{t}, t);
    assert heap + multiset{t} - multiset{t} == heap;
  }

  /** A heap of one tree has that tree's leaves. */
  lemma SingleTreeHeap(heap: multiset<Tree>, t: Tree)
    requires |heap| == 1 && t in heap
    ensures HeapItems(heap) == LeafItems(t)
  {
    HeapItemsRemove(heap, t);
    assert |heap - multiset{t}| == 0;
  }

  /** Moving one map entry onto the heap as a leaf keeps the entries of heap and map together. */
  lemma MoveEntryToHeap(heap: multiset<Tree>, rest: map<Byte, int>, character: Byte)
    requires character in rest
    ensures HeapItems(heap + multiset{CreateLeafNode(character, rest[character])}) + Counting.MapItems(rest - {character})
         == HeapItems(heap) + Counting.MapItems(rest)
  {
    Counting.MapItemsRemove(rest, character);
    HeapItemsAdd(heap, CreateLeafNode(character, rest[character]));
  }

  /** Popping two trees and pushing their merge keeps the heap's leaves. */
  lemma MergeKeepsItems(heap: multiset<Tree>, left: Tree, right: Tree)
    requires left in heap && right in heap - multiset{left}
    ensures HeapItems(heap - multiset{left} - multiset{right} + multiset{CreateInternalNode(left, right)}) == HeapItems(heap)
  {
    var rest := heap - multiset{left};
    HeapItemsRemove(heap, left);
    HeapItemsRemove(rest, right);
    HeapItemsAdd(rest - multiset{right}, CreateInternalNode(left, right));
  }

  /** Every tree on the heap is well weighted. */
  ghost predicate AllWellWeighted(heap: multiset<Tree>)
  {
    forall t | t in heap :: WellWeighted(t)
  }

  /** Popping two well-weighted trees and pushing their merge keeps every tree well weighted. */
  lemma MergeKeepsWeights(heap: multiset<Tree>, left: Tree, right: Tree)
    requires AllWellWeighted(heap) && left in heap && right in heap - multiset{left}
    ensures AllWellWeighted(heap - multiset{left} - multiset{right} + multiset{CreateInternalNode(left, right)})
  {
  }

  /** The heap of `build_huffman_tree` before the loop: one leaf per map entry. */
  method InitialHeap(frequencyMap: map<Byte, int>) returns (heap: multiset<Tree>)
    ensures HeapItems(heap) == Counting.MapItems(frequencyMap)
    ensures |heap| == |frequencyMap|
    ensures forall t | t in heap :: t.Leaf?
    ensures AllWellWeighted(heap)
  {
    heap := multiset{};
    var rest := frequencyMap;
    while rest != map[]
      invariant HeapItems(heap) + Counting.MapItems(rest) == Counting.MapItems(frequencyMap)
      invariant |heap| + |rest| == |frequencyMap|
      invariant forall t | t in heap :: t.Leaf?
      invariant AllWellWeighted(heap)
      decreases |rest|
    {
      var character :| character in rest;
      var leaf := CreateLeafNode(character, rest[character]);
      MoveEntryToHeap(heap, rest, character);
      assert |rest - {character}| == |rest| - 1;
      heap := heap + multiset{leaf};
      rest := rest - {character};
    }
    assert Counting.MapItems(rest) == multiset{};
  }

  /** No tree on the heap comes before `t` under `__lt__`, the order `heapq` pops by. */
  ghost predicate NoHeavier(t: Tree, heap: multiset<Tree>)
  {
    forall u | u in heap :: !Less(u, t)
  }

  /** The heap after `left` and then `right` are popped and their merge is pushed: one
      tree fewer. */
  ghost function Merged(heap: multiset<Tree>, left: Tree, right: Tree): (h: multiset<Tree>)
    requires left in heap && right in heap - multiset{left}
    ensures |h| == |heap| - 1
  {
    heap - multiset{left} - multiset{right} + multiset{CreateInternalNode(left, right)}
  }

  /** One round of the loop of `build_huffman_tree`: `left` is popped first, no heavier than
      the trees left, then `right`, no heavier than the trees left after it. */
  ghost predicate GreedyRound(heap: multiset<Tree>, left: Tree, right: Tree)
  {
    && left in heap && NoHeavier(left, heap - multiset{left})
    && right in heap - multiset{left} && NoHeavier(right, heap - multiset{left} - multiset{right})
  }

  /** `t` is a tree the loop of `build_huffman_tree` can end with from `heap`: a heap of
      one tree ends with that tree; a larger heap gives up a tree no heavier than the
      others, then a tree no heavier than those left, and the loop goes on with their
      merge pushed. Which of several equally light trees is popped is left open. */
  ghost predicate GreedyFrom(heap: multiset<Tree>, t: Tree)
    decreases |heap|
  {
    if |heap| <= 1 then heap == multiset{t}
    else exists left, right :: GreedyRound(heap, left, right) && GreedyFrom(Merged(heap, left, right), t)
  }

  /** The heap `build_huffman_tree` starts from: one leaf per entry of the map. */
  ghost predicate IsLeafHeap(heap: multiset<Tree>, frequencyMap: map<Byte, int>)
  {
    (forall t | t in heap :: t.Leaf?) && HeapItems(heap) == Counting.MapItems(frequencyMap)
  }

  /** A Huffman tree for a frequency map: a tree the greedy merging can end with when it
      starts from the map's leaves. */
  ghost predicate IsHuffmanTree(t: Tree, frequencyMap: map<Byte, int>)
  {
    exists leaves :: IsLeafHeap(leaves, frequencyMap) && GreedyFrom(leaves, t)
  }

  /** One round of the loop: every tree the loop can end with after popping two lightest
      trees and pushing their merge is a tree it can end with from the heap before. */
  lemma GreedyStep(heap: multiset<Tree>, left: Tree, right: Tree)
    requires GreedyRound(heap, left, right)
    ensures forall t | GreedyFrom(Merged(heap, left, right), t) :: GreedyFrom(heap, t)
  {
    assert |heap - multiset{left}| == |heap| - 1;
  }

  /** A heap of one tree ends with that tree. */
  lemma GreedyDone(heap: multiset<Tree>, t: Tree)
    requires |heap| == 1 && t in heap
    ensures GreedyFrom(heap, t)
  {
    assert |heap - multiset{t}| == 0;
    assert heap == heap - multiset{t} + multiset{t};
  }

  /** Greedy merging keeps the heap's leaves and builds weights that are the sums of
      their children's: the tree it ends with holds exactly the heap's leaves. */
  lemma {:induction false} GreedyKeepsLeaves(heap: multiset<Tree>, t: Tree)
    requires GreedyFrom(heap, t) && AllWellWeighted(heap)
    ensures LeafItems(t) == HeapItems(heap) && WellWeighted(t)
    decreases |heap|
  {
    if |heap| <= 1 {
      SingleTreeHeap(heap, t);
    } else {
      var left, right :| GreedyRound(heap, left, right) && GreedyFrom(Merged(heap, left, right), t);
      MergeKeepsItems(heap, left, right);
      MergeKeepsWeights(heap, left, right);
      GreedyKeepsLeaves(Merged(heap, left, right), t);
    }
  }

  /** A Huffman tree's leaves are exactly the map's entries and every internal node weighs
      what its two children weigh together. */
  lemma HuffmanTreeIsFull(t: Tree, frequencyMap: map<Byte, int>)
    requires IsHuffmanTree(t, frequencyMap)
    ensures LeafItems(t) == Counting.MapItems(frequencyMap) && WellWeighted(t)
  {
    var leaves :| IsLeafHeap(leaves, frequencyMap) && GreedyFrom(leaves, t);
    GreedyKeepsLeaves(leaves, t);
  }

  /** `build_huffman_tree`: merges two lightest trees until one is left; IndexError
      (from `heap[0]`) on an empty map. */
  method BuildHuffmanTree(frequencyMap: map<Byte, int>) returns (r: Result<Tree, Exception>)
    ensures frequencyMap == map[] ==> r == Err(IndexError)
    ensures frequencyMap != map[] ==> r.Ok? && IsHuffmanTree(r.value, frequencyMap)
  {
    var heap := InitialHeap(frequencyMap);
    ghost var leaves := heap;
    ghost var empty := frequencyMap == map[];
    assert empty <==> |heap| == 0;
    while |heap| > 1
      invariant forall t | GreedyFrom(heap, t) :: GreedyFrom(leaves, t)
      invariant empty <==> |heap| == 0
      decreases |heap|
    {
      var left, rest := HeapPop(heap);
      var right, rest' := HeapPop(rest);
      var merged := CreateInternalNode(left, right);
      GreedyStep(heap, left, right);
      heap := rest' + multiset{merged};
    }
    if |heap| == 0 {
      return Err(IndexError);
    }
    var root :| root in heap;
    GreedyDone(heap, root);
    assert IsLeafHeap(leaves, frequencyMap);
    r := Ok(root);
  }

  /** A Huffman tree's symbols are the map's keys and its root weighs the sum of the
      frequencies. */
  lemma HuffmanTreeSymbolsAndWeight(t: Tree, frequencyMap: map<Byte, int>)
    requires IsHuffmanTree(t, frequencyMap)
    ensures Symbols(t) == frequencyMap.Keys
    ensures t.weight == Counting.Total(frequencyMap)
  {
    HuffmanTreeIsFull(t, frequencyMap);
    RootWeightIsLeafSum(t);
    Counting.MapItemsTotal(frequencyMap);
    Counting.MapItemsEntries(frequencyMap);
    SymbolsAreLeafItems(t);
  }

  /** With two or more symbols the root is an internal node; with one symbol the tree
      is that symbol's leaf, weight included. */
  lemma HuffmanTreeShape(t: Tree, frequencyMap: map<Byte, int>)
    requires IsHuffmanTree(t, frequencyMap)
    ensures |frequencyMap| >= 2 ==> t.Node?
    ensures forall k | k in frequencyMap && |frequencyMap| == 1 :: t == Leaf(k, frequencyMap[k])
  {
    HuffmanTreeIsFull(t, frequencyMap);
    Counting.MapItemsEntries(frequencyMap);
    if t.Leaf? {
      assert (t.symbol, t.weight) in LeafItems(t);
    }
    if t.Node? {
      NodeHasTwoLeaves(t);
    }
  }

  /** A heap of leaves holds a leaf as often as its symbol and weight occur among the
      heap's leaf items. */
  lemma {:induction false} LeafHeapCounts(heap: multiset<Tree>, s: Byte, w: int)
    requires forall t | t in heap :: t.Leaf?
    ensures heap[Leaf(s, w)] == HeapItems(heap)[(s, w)]
    decreases |heap|
  {
    if heap != multiset{} {
      var t :| t in heap;
      HeapItemsRemove(heap, t);
      LeafHeapCounts(heap - multiset{t}, s, w);
    }
  }

  /** A map has one leaf heap: the loop of `build_huffman_tree` always starts from the
      same trees, whatever order the map's entries are pushed in. */
  lemma LeafHeapUnique(a: multiset<Tree>, b: multiset<Tree>, frequencyMap: map<Byte, int>)
    requires IsLeafHeap(a, frequencyMap) && IsLeafHeap(b, frequencyMap)
    ensures a == b
  {
    forall t ensures a[t] == b[t] {
      if t.Leaf? {
        LeafHeapCounts(a, t.symbol, t.weight);
        LeafHeapCounts(b, t.symbol, t.weight);
      }
    }
  }

  /** The first round of the loop from a heap of two or more trees, as a pair of pops. */
  lemma FirstMerge(heap: multiset<Tree>, t: Tree) returns (left: Tree, right: Tree)
    requires |heap| > 1 && GreedyFrom(heap, t)
    ensures GreedyRound(heap, left, right) && GreedyFrom(Merged(heap, left, right), t)
  {
    left, right :| GreedyRound(heap, left, right) && GreedyFrom(Merged(heap, left, right), t);
  }

  /** Of two trees of different weights, the lighter is popped first. */
  lemma PopLighter(a: Tree, b: Tree, left: Tree)
    requires a.weight < b.weight
    requires left in multiset{a, b} && NoHeavier(left, multiset{a, b} - multiset{left})
    ensures left == a && multiset{a, b} - multiset{left} == multiset{b}
  {
    assert left == a || a in multiset{a, b} - multiset{left};
  }

  /** From two trees of different weights, the loop ends with the lighter one as the
      left child. */
  lemma GreedyOfTwo(a: Tree, b: Tree, t: Tree)
    requires a.weight < b.weight && GreedyFrom(multiset{a, b}, t)
    ensures t == Node(a, b, a.weight + b.weight)
  {
    var left, right := FirstMerge(multiset{a, b}, t);
    PopLighter(a, b, left);
    MergeTwo(a, b);
    GreedyEnd(Merged(multiset{a, b}, a, b), t);
  }

  /** Merging the only two trees of a heap leaves their node alone. */
  lemma MergeTwo(a: Tree, b: Tree)
    ensures a in multiset{a, b} && multiset{a, b} - multiset{a} == multiset{b}
    ensures multiset{b} - multiset{b} == multiset{}
    ensures Merged(multiset{a, b}, a, b) == multiset{Node(a, b, a.weight + b.weight)}
  {
    Swap(a, b);
    Take2(b, a);
    assert multiset{} + multiset{Node(a, b, a.weight + b.weight)} == multiset{Node(a, b, a.weight + b.weight)};
  }

  /** The loop ends with the one tree of a heap of one. */
  lemma GreedyEnd(heap: multiset<Tree>, t: Tree)
    requires |heap| <= 1 && GreedyFrom(heap, t)
    ensures heap == multiset{t}
  {
  }

  /** The counts {1: 5, 2: 1, 3: 1}: the two weight-1 leaves are merged first, in either
      order, and their node then goes to the left of the weight-5 leaf. A tree that pairs
      the weight-5 leaf with a weight-1 leaf first is not a Huffman tree of these counts. */
  lemma LightLeavesMergeFirst(frequencyMap: map<Byte, int>, t: Tree)
    requires frequencyMap == map[1 := 5, 2 := 1, 3 := 1] && IsHuffmanTree(t, frequencyMap)
    ensures t == Node(Node(Leaf(2, 1), Leaf(3, 1), 2), Leaf(1, 5), 7)
         || t == Node(Node(Leaf(3, 1), Leaf(2, 1), 2), Leaf(1, 5), 7)
    ensures t != Node(Node(Leaf(1, 5), Leaf(2, 1), 6), Leaf(3, 1), 7)
  {
    var leaves :| IsLeafHeap(leaves, frequencyMap) && GreedyFrom(leaves, t);
    var heap := ThreeLeafHeap(frequencyMap);
    LeafHeapUnique(leaves, heap, frequencyMap);
    GreedyOfThree(Leaf(1, 5), Leaf(2, 1), Leaf(3, 1), t);
  }

  /** The greedy tree of {1: 5, 2: 1, 3: 1} is a Huffman tree of those counts. */
  lemma ThreeLeafHuffmanTree(frequencyMap: map<Byte, int>)
    requires frequencyMap == map[1 := 5, 2 := 1, 3 := 1]
    ensures IsHuffmanTree(Node(Node(Leaf(2, 1), Leaf(3, 1), 2), Leaf(1, 5), 7), frequencyMap)
  {
    var heap := ThreeLeafHeap(frequencyMap);
    var root := GreedyThreeRoot(Leaf(1, 5), Leaf(2, 1), Leaf(3, 1));
  }

  /** The leaf heap of {1: 5, 2: 1, 3: 1}. */
  lemma ThreeLeafHeap(frequencyMap: map<Byte, int>) returns (heap: multiset<Tree>)
    requires frequencyMap == map[1 := 5, 2 := 1, 3 := 1]
    ensures heap == multiset{Leaf(1, 5), Leaf(2, 1), Leaf(3, 1)} && IsLeafHeap(heap, frequencyMap)
  {
    heap := multiset{Leaf(1, 5), Leaf(2, 1), Leaf(3, 1)};
    ThreeLeafItems(frequencyMap);
  }

  lemma ThreeLeafItems(frequencyMap: map<Byte, int>)
    requires frequencyMap == map[1 := 5, 2 := 1, 3 := 1]
    ensures HeapItems(multiset{Leaf(1, 5), Leaf(2, 1), Leaf(3, 1)}) == Counting.MapItems(frequencyMap)
  {
    HeapOfThree(Leaf(1, 5), Leaf(2, 1), Leaf(3, 1));
    MapOfThree(frequencyMap, 1, 2, 3);
  }

  /** The leaf items of a heap of three trees. */
  lemma HeapOfThree(a: Tree, b: Tree, c: Tree)
    ensures HeapItems(multiset{a, b, c}) == LeafItems(a) + LeafItems(b) + LeafItems(c)
  {
    HeapItemsAdd(multiset{}, a);
    assert multiset{} + multiset{a} == multiset{a};
    HeapItemsAdd(multiset{a}, b);
    Push(a, b);
    Swap(a, b);
    HeapItemsAdd(multiset{a, b}, c);
    PushOnTwo(a, b, c);
  }

  /** The entries of a map of three keys. */
  lemma MapOfThree(m: map<Byte, int>, j: Byte, k: Byte, l: Byte)
    requires m.Keys == {j, k, l} && j != k && k != l && j != l
    ensures Counting.MapItems(m) == multiset{(j, m[j]), (k, m[k]), (l, m[l])}
  {
    Counting.MapItemsRemove(m, j);
    Counting.MapItemsRemove(m - {j}, k);
    Counting.MapItemsRemove(m - {j} - {k}, l);
    var none := m - {j} - {k} - {l};
    assert none == map[];
    assert Counting.MapItems(none) == multiset{};
  }

  /** From a heavy tree and two trees that together weigh less, the loop merges the two
      light ones first, in either order, and puts their node to the left of the heavy one. */
  lemma GreedyOfThree(heavy: Tree, x: Tree, y: Tree, t: Tree)
    requires x.weight + y.weight < heavy.weight && 0 <= x.weight && 0 <= y.weight
    requires GreedyFrom(multiset{heavy, x, y}, t)
    ensures t == Node(Node(x, y, x.weight + y.weight), heavy, x.weight + y.weight + heavy.weight)
         || t == Node(Node(y, x, x.weight + y.weight), heavy, x.weight + y.weight + heavy.weight)
  {
    var left, right := FirstMerge(multiset{heavy, x, y}, t);
    var node := FirstRoundOfThree(heavy, x, y, left, right);
    GreedyOfTwo(node, heavy, t);
    ThreeShape(heavy, x, y, node, t);
  }

  lemma ThreeShape(heavy: Tree, x: Tree, y: Tree, node: Tree, t: Tree)
    requires node == Node(x, y, x.weight + y.weight) || node == Node(y, x, x.weight + y.weight)
    requires t == Node(node, heavy, node.weight + heavy.weight)
    ensures t == Node(Node(x, y, x.weight + y.weight), heavy, x.weight + y.weight + heavy.weight)
         || t == Node(Node(y, x, x.weight + y.weight), heavy, x.weight + y.weight + heavy.weight)
  {
  }

  /** The first round from a heavy tree and two lighter ones merges the two light ones. */
  lemma FirstRoundOfThree(heavy: Tree, x: Tree, y: Tree, left: Tree, right: Tree) returns (node: Tree)
    requires x.weight + y.weight < heavy.weight && 0 <= x.weight && 0 <= y.weight
    requires GreedyRound(multiset{heavy, x, y}, left, right)
    ensures node == Node(x, y, x.weight + y.weight) || node == Node(y, x, x.weight + y.weight)
    ensures Merged(multiset{heavy, x, y}, left, right) == multiset{node, heavy}
  {
    FirstPopOfThree(heavy, x, y, left);
    var other := if left == x then y else x;
    if left == x {
      Take3(heavy, x, y);
    } else {
      Take3Last(heavy, x, y);
    }
    Swap(heavy, other);
    PopLighter(other, heavy, right);
    node := CreateInternalNode(left, other);
    Push(heavy, node);
  }

  /** One round of the loop, for one tree it can end with. */
  lemma GreedyStepAt(heap: multiset<Tree>, left: Tree, right: Tree, t: Tree)
    requires GreedyRound(heap, left, right)
    requires GreedyFrom(Merged(heap, left, right), t)
    ensures GreedyFrom(heap, t)
  {
    GreedyStep(heap, left, right);
  }

  /** From a heavy tree and two trees that together weigh less, the lighter of them
      first, the loop can end with the node of the light pair to the left of the heavy one. */
  lemma GreedyThreeRoot(heavy: Tree, x: Tree, y: Tree) returns (root: Tree)
    requires x.weight <= y.weight && x.weight + y.weight < heavy.weight && 0 <= x.weight
    ensures root == Node(Node(x, y, x.weight + y.weight), heavy, x.weight + y.weight + heavy.weight)
    ensures GreedyFrom(multiset{heavy, x, y}, root)
  {
    var node := MergeLightPair(heavy, x, y);
    root := GreedyTwoRoot(node, heavy);
    GreedyStepAt(multiset{heavy, x, y}, x, y, root);
    RootShape(heavy, x, y, node, root);
  }

  lemma RootShape(heavy: Tree, x: Tree, y: Tree, node: Tree, root: Tree)
    requires node == Node(x, y, x.weight + y.weight) && root == Node(node, heavy, node.weight + heavy.weight)
    ensures root == Node(Node(x, y, x.weight + y.weight), heavy, x.weight + y.weight + heavy.weight)
  {
  }

  /** Popping the two light trees from them and a heavy tree leaves their node and the
      heavy one. */
  lemma MergeLightPair(heavy: Tree, x: Tree, y: Tree) returns (node: Tree)
    requires x.weight <= y.weight && x.weight + y.weight < heavy.weight && 0 <= x.weight
    ensures node == Node(x, y, x.weight + y.weight) && node.weight <= heavy.weight
    ensures GreedyRound(multiset{heavy, x, y}, x, y)
    ensures Merged(multiset{heavy, x, y}, x, y) == multiset{node, heavy}
  {
    Take3(heavy, x, y);
    Take2(heavy, y);
    node := Node(x, y, x.weight + y.weight);
    Push(heavy, node);
    Swap(node, heavy);
  }

  /** From two trees, the lighter first, the loop can end with their node. */
  lemma GreedyTwoRoot(a: Tree, b: Tree) returns (root: Tree)
    requires a.weight <= b.weight
    ensures root == Node(a, b, a.weight + b.weight)
    ensures GreedyFrom(multiset{a, b}, root)
  {
    root := Node(a, b, a.weight + b.weight);
    GreedyDone(multiset{root}, root);
    MergeTwo(a, b);
    GreedyStepAt(multiset{a, b}, a, b, root);
  }

  /** The first tree popped from a heavy tree and two lighter ones is a light one. */
  lemma FirstPopOfThree(heavy: Tree, x: Tree, y: Tree, left: Tree)
    requires x.weight < heavy.weight && y.weight < heavy.weight
    requires left in multiset{heavy, x, y} && NoHeavier(left, multiset{heavy, x, y} - multiset{left})
    ensures left == x || left == y
  {
    assert x in multiset{heavy, x, y} - multiset{left} || y in multiset{heavy, x, y} - multiset{left};
  }

  lemma Take3(a: Tree, b: Tree, c: Tree)
    ensures b in multiset{a, b, c} && multiset{a, b, c} - multiset{b} == multiset{a, c}
  {
  }

  lemma Take3Last(a: Tree, b: Tree, c: Tree)
    ensures c in multiset{a, b, c} && multiset{a, b, c} - multiset{c} == multiset{a, b}
  {
  }

  lemma Take2(a: Tree, b: Tree)
    ensures b in multiset{a, b} && multiset{a, b} - multiset{b} == multiset{a}
  {
  }

  lemma Swap(a: Tree, b: Tree)
    ensures multiset{a, b} == multiset{b, a}
  {
  }

  lemma Push(a: Tree, b: Tree)
    ensures multiset{a} + multiset{b} == multiset{b, a}
  {
  }

  lemma PushOnTwo(a: Tree, b: Tree, c: Tree)
    ensures multiset{a, b} + multiset{c} == multiset{a, b, c}
  {
  }

  /** The test expectations of `find_two_lowest_items`: (1, 2) from [5, 2, 8, 1, 9, 3]. */
  lemma FindTwoLowestExample(items: seq<int>)
    requires items == [5, 2, 8, 1, 9, 3]
    ensures FindTwoLowestItems(items, Identity) == Ok((1, 2))
  {
    assert IsFirstMin(items, Identity, -1, 3);
    assert IsFirstMin(items, Identity, 3, 1);
    FindTwoLowestAt(items, Identity, 3, 1);
  }

  /** The selection is fixed by the positions of the stable lowest two. */
  lemma FindTwoLowestAt<T>(items: seq<T>, key: T -> int, i: int, j: int)
    requires StableLowestTwo(items, key, i, j)
    ensures FindTwoLowestItems(items, key) == Ok((items[i], items[j]))
  {
    var r := FindTwoLowestItems(items, key);
    assert |items| >= 2;
    var i', j' :| StableLowestTwo(items, key, i', j') && r.value == (items[i'], items[j']);
    FirstMinUnique(items, key, -1, i, i');
    FirstMinUnique(items, key, i, j, j');
  }

  /** The identity key, `lambda x: x`. */
  function Identity(x: int): int
  {
    x
  }
}
