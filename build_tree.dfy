/**
 * `build_tree`: the greedy Huffman construction. The priority queue is a
 * sequence of trees; `top`/`pop` take the first node of minimum weight
 * (`HuffmanTree::Compare` orders by weight only, ties are broken here by
 * position) and `push` appends.
 */
module TreeBuilder {
  import opened Wrappers
  import opened HuffmanTree

  /** The index the heap's top is taken from (see MinIndexIsTop). */
  function MinIndex(heap: seq<Tree>): (k: nat)
    requires |heap| > 0
    ensures k < |heap|
  {
    if |heap| == 1 then 0
    else
      var m := MinIndex(heap[..|heap| - 1]);
      if heap[|heap| - 1].w < heap[m].w then |heap| - 1 else m
  }

  /**
   * The top under `HuffmanTree::Compare`, which orders by weight alone: a
   * node of minimum weight, and the first one among ties.
   */
  lemma {:induction false} MinIndexIsTop(heap: seq<Tree>)
    requires |heap| > 0
    ensures forall j :: 0 <= j < |heap| ==> heap[MinIndex(heap)].w <= heap[j].w
    ensures forall j :: 0 <= j < MinIndex(heap) ==> heap[j].w > heap[MinIndex(heap)].w
    decreases |heap|
  {
    if |heap| > 1 {
      var front := heap[..|heap| - 1];
      MinIndexIsTop(front);
      var m := MinIndex(front);
      assert heap[m] == front[m];
      forall j | 0 <= j < |heap| - 1 ensures heap[j] == front[j] { }
    }
  }

  /** The heap after `pop` of the node at index k: the others, in their order. */
  function RemoveAt(heap: seq<Tree>, k: nat): (rest: seq<Tree>)
    requires k < |heap|
    ensures |rest| == |heap| - 1
  {
    heap[..k] + heap[k + 1..]
  }

  /** Popping index k removes exactly one occurrence of heap[k]. */
  lemma {:induction false} RemoveAtMultiset(heap: seq<Tree>, k: nat)
    requires k < |heap|
    ensures multiset(RemoveAt(heap, k)) + multiset{heap[k]} == multiset(heap)
  {
    assert heap == heap[..k] + [heap[k]] + heap[k + 1..];
  }

  /**
   * One round of the loop body: pop the lightest node l, pop the next
   * lightest r, push an internal node over them.
   */
  function MergeStep(heap: seq<Tree>): (next: seq<Tree>)
    requires |heap| >= 2
    ensures |next| == |heap| - 1
    ensures next[|next| - 1].Node?
  {
    var i := MinIndex(heap);
    var l := heap[i];
    var heap1 := RemoveAt(heap, i);
    var j := MinIndex(heap1);
    var r := heap1[j];
    RemoveAt(heap1, j) + [Node(l.w + r.w, l, r)]
  }

  /** The tree the greedy loop ends with: merge until one node remains. */
  function Huffman(heap: seq<Tree>): Tree
    requires |heap| >= 1
    decreases |heap|
  {
    if |heap| == 1 then heap[0] else Huffman(MergeStep(heap))
  }

  /** One leaf per (symbol, weight) pair, in the order of the pairs. */
  function LeafHeap(alph: seq<(Symbol, nat)>): seq<Tree>
  {
    seq(|alph|, i requires 0 <= i < |alph| => Leaf(alph[i].0, alph[i].1))
  }

  /** The heap the first loop builds is the leaf heap. */
  lemma {:induction false} LeafHeapIs(alph: seq<(Symbol, nat)>, heap: seq<Tree>)
    requires |heap| == |alph|
    requires forall j :: 0 <= j < |alph| ==> heap[j] == Leaf(alph[j].0, alph[j].1)
    ensures heap == LeafHeap(alph)
  {
  }

  /** All leaf pairs of a forest, tree after tree. */
  function ForestLeaves(heap: seq<Tree>): seq<(Symbol, nat)>
  {
    if heap == [] then [] else ForestLeaves(heap[..|heap| - 1]) + Leaves(heap[|heap| - 1])
  }

  /** The sum of the root weights of a forest. */
  function HeapWeight(heap: seq<Tree>): nat
  {
    if heap == [] then 0 else HeapWeight(heap[..|heap| - 1]) + heap[|heap| - 1].w
  }

  lemma {:induction false} ForestAppend(a: seq<Tree>, b: seq<Tree>)
    ensures ForestLeaves(a + b) == ForestLeaves(a) + ForestLeaves(b)
    ensures HeapWeight(a + b) == HeapWeight(a) + HeapWeight(b)
    decreases |b|
  {
    if b == [] {
      assert a + b == a;
    } else {
      assert (a + b)[..|a + b| - 1] == a + b[..|b| - 1];
      ForestAppend(a, b[..|b| - 1]);
    }
  }

  /** Popping index k removes exactly that tree's leaves and weight from the forest. */
  lemma {:induction false} ForestRemoveAt(heap: seq<Tree>, k: nat)
    requires k < |heap|
    ensures multiset(ForestLeaves(RemoveAt(heap, k))) + multiset(Leaves(heap[k])) == multiset(ForestLeaves(heap))
    ensures HeapWeight(RemoveAt(heap, k)) + heap[k].w == HeapWeight(heap)
  {
    assert heap == heap[..k] + [heap[k]] + heap[k + 1..];
    ForestAppend(heap[..k] + [heap[k]], heap[k + 1..]);
    ForestAppend(heap[..k], [heap[k]]);
    ForestAppend(heap[..k], heap[k + 1..]);
    assert ForestLeaves([heap[k]]) == Leaves(heap[k]) by {
      assert [heap[k]][..0] == [];
    }
    assert HeapWeight([heap[k]]) == heap[k].w by {
      assert [heap[k]][..0] == [];
    }
  }

  /**
   * One round of the loop body, popping the top at index i, then the top of
   * what remains at index j, and pushing their parent, is a merge step.
   */
  lemma {:induction false} LoopRound(heap: seq<Tree>, i: nat, heap1: seq<Tree>, j: nat, next: seq<Tree>)
    requires |heap| >= 2 && i == MinIndex(heap) && heap1 == RemoveAt(heap, i)
    requires j == MinIndex(heap1) && next == RemoveAt(heap1, j) + [Node(heap[i].w + heap1[j].w, heap[i], heap1[j])]
    ensures next == MergeStep(heap)
  {
  }

  /** A merge step leaves the final tree unchanged. */
  lemma {:induction false} HuffmanStep(heap: seq<Tree>)
    requires |heap| >= 2
    ensures Huffman(MergeStep(heap)) == Huffman(heap)
  {
  }

  /** Two or more nodes always merge into an internal root. */
  lemma {:induction false} HuffmanIsInternal(heap: seq<Tree>)
    requires |heap| >= 2
    ensures Huffman(heap).Node?
    decreases |heap|
  {
    var next := MergeStep(heap);
    assert Huffman(heap) == Huffman(next);
    if |next| >= 2 {
      HuffmanIsInternal(next);
    } else {
      assert Huffman(next) == next[0];
    }
  }

  /** Popping any two nodes and pushing their parent keeps the forest's leaves and total weight. */
  lemma {:induction false} PopTwoPushParent(heap: seq<Tree>, i: nat, heap1: seq<Tree>, j: nat, next: seq<Tree>)
    requires i < |heap| && heap1 == RemoveAt(heap, i) && j < |heap1|
    requires next == RemoveAt(heap1, j) + [Node(heap[i].w + heap1[j].w, heap[i], heap1[j])]
    ensures multiset(ForestLeaves(next)) == multiset(ForestLeaves(heap))
    ensures HeapWeight(next) == HeapWeight(heap)
  {
    var heap2 := RemoveAt(heap1, j);
    var n := Node(heap[i].w + heap1[j].w, heap[i], heap1[j]);
    ForestRemoveAt(heap, i);
    ForestRemoveAt(heap1, j);
    ForestAppend(heap2, [n]);
    assert [n][..0] == [];
    assert ForestLeaves(next) == ForestLeaves(heap2) + (Leaves(heap[i]) + Leaves(heap1[j]));
    assert multiset(ForestLeaves(next)) ==
           multiset(ForestLeaves(heap2)) + multiset(Leaves(heap1[j])) + multiset(Leaves(heap[i]));
  }

  /**
   * Each round is greedy: the pushed parent's left child is the heap node at
   * some index i, of least weight in the heap, and its right child is the
   * node at another index j, of least weight among the nodes other than heap[i].
   */
  lemma {:induction false} MergeStepGreedy(heap: seq<Tree>)
    requires |heap| >= 2
    ensures var n := MergeStep(heap)[|heap| - 2];
            exists i, j :: 0 <= i < |heap| && 0 <= j < |heap| && i != j &&
                           heap[i] == n.left && heap[j] == n.right &&
                           (forall k :: 0 <= k < |heap| ==> n.left.w <= heap[k].w) &&
                           (forall k :: 0 <= k < |heap| && k != i ==> n.right.w <= heap[k].w)
  {
    var i := MinIndex(heap);
    var heap1 := RemoveAt(heap, i);
    var j := MinIndex(heap1);
    MinIndexIsTop(heap);
    MinIndexIsTop(heap1);
    var n := MergeStep(heap)[|heap| - 2];
    assert n == Node(heap[i].w + heap1[j].w, heap[i], heap1[j]);
    forall k | 0 <= k < |heap| && k != i ensures n.right.w <= heap[k].w {
      var k1 := if k < i then k else k - 1;
      assert heap1[k1] == heap[k];
    }
    var j0 := if j < i then j else j + 1;
    assert heap[j0] == heap1[j];
  }

  /** A round takes the parent's two children out of the heap and puts the parent in. */
  lemma {:induction false} MergeStepMultiset(heap: seq<Tree>)
    requires |heap| >= 2
    ensures var n := MergeStep(heap)[|heap| - 2];
            multiset(MergeStep(heap)) + multiset{n.left, n.right} == multiset(heap) + multiset{n}
  {
    var i := MinIndex(heap);
    var heap1 := RemoveAt(heap, i);
    var j := MinIndex(heap1);
    var n := Node(heap[i].w + heap1[j].w, heap[i], heap1[j]);
    var heap2 := RemoveAt(heap1, j);
    assert MergeStep(heap) == heap2 + [n];
    RemoveAtMultiset(heap, i);
    RemoveAtMultiset(heap1, j);
    assert multiset(heap2 + [n]) == multiset(heap2) + multiset{n};
    assert multiset{n.left, n.right} == multiset{heap[i]} + multiset{heap1[j]};
  }

  /** One merge keeps the forest's leaves and total weight. */
  lemma {:induction false} MergeStepLeaves(heap: seq<Tree>)
    requires |heap| >= 2
    ensures multiset(ForestLeaves(MergeStep(heap))) == multiset(ForestLeaves(heap))
    ensures HeapWeight(MergeStep(heap)) == HeapWeight(heap)
  {
    var i := MinIndex(heap);
    var heap1 := RemoveAt(heap, i);
    var j := MinIndex(heap1);
    PopTwoPushParent(heap, i, heap1, j, MergeStep(heap));
  }

  /** One merge keeps every node of the forest well weighted. */
  lemma {:induction false} MergeStepWellWeighted(heap: seq<Tree>)
    requires |heap| >= 2
    requires forall k :: 0 <= k < |heap| ==> WellWeighted(heap[k])
    ensures forall k :: 0 <= k < |heap| - 1 ==> WellWeighted(MergeStep(heap)[k])
  {
    var i := MinIndex(heap);
    var l := heap[i];
    var heap1 := RemoveAt(heap, i);
    var j := MinIndex(heap1);
    var r := heap1[j];
    var heap2 := RemoveAt(heap1, j);
    var next := heap2 + [Node(l.w + r.w, l, r)];
    assert MergeStep(heap) == next;
    RemoveAtMultiset(heap, i);
    RemoveAtMultiset(heap1, j);
    assert forall t :: t in multiset(heap1) ==> t in multiset(heap);
    assert forall t :: t in multiset(heap2) ==> t in multiset(heap1);
    forall k | 0 <= k < |next| ensures WellWeighted(next[k]) {
      if k < |heap2| {
        assert next[k] in multiset(heap2);
      }
    }
  }

  /** Merging keeps every node well weighted. */
  lemma {:induction false} HuffmanWellWeighted(heap: seq<Tree>)
    requires |heap| >= 1
    requires forall k :: 0 <= k < |heap| ==> WellWeighted(heap[k])
    ensures WellWeighted(Huffman(heap))
    decreases |heap|
  {
    if |heap| > 1 {
      MergeStepWellWeighted(heap);
      HuffmanWellWeighted(MergeStep(heap));
    }
  }

  /** Merging neither loses nor invents a leaf, and keeps the total weight. */
  lemma {:induction false} HuffmanLeaves(heap: seq<Tree>)
    requires |heap| >= 1
    ensures multiset(Leaves(Huffman(heap))) == multiset(ForestLeaves(heap))
    ensures Huffman(heap).w == HeapWeight(heap)
    decreases |heap|
  {
    if |heap| == 1 {
      assert heap[..0] == [];
    } else {
      MergeStepLeaves(heap);
      HuffmanLeaves(MergeStep(heap));
    }
  }

  /** The leaves of the initial heap are the alphabet itself. */
  lemma {:induction false} LeafHeapLeaves(alph: seq<(Symbol, nat)>)
    ensures ForestLeaves(LeafHeap(alph)) == alph
    decreases |alph|
  {
    if alph != [] {
      var front := alph[..|alph| - 1];
      var heap := LeafHeap(alph);
      assert heap[..|alph| - 1] == LeafHeap(front);
      assert Leaves(heap[|alph| - 1]) == [alph[|alph| - 1]];
      LeafHeapLeaves(front);
      assert ForestLeaves(heap) == ForestLeaves(heap[..|alph| - 1]) + Leaves(heap[|alph| - 1]);
      assert alph == front + [alph[|alph| - 1]];
    }
  }

  /** The initial heap weighs the alphabet's total. */
  lemma {:induction false} LeafHeapWeight(alph: seq<(Symbol, nat)>)
    ensures HeapWeight(LeafHeap(alph)) == Total(alph)
    decreases |alph|
  {
    if alph != [] {
      var front := alph[..|alph| - 1];
      assert LeafHeap(alph)[..|alph| - 1] == LeafHeap(front);
      LeafHeapWeight(front);
    }
  }

  /**
   * The greedy tree over an alphabet of two or more entries is internal,
   * well weighted, has the alphabet's pairs as its leaves and weighs its total.
   */
  lemma {:induction false} HuffmanOfAlphabet(alph: seq<(Symbol, nat)>)
    requires |alph| >= 2
    ensures Huffman(LeafHeap(alph)).Node? && WellWeighted(Huffman(LeafHeap(alph)))
    ensures multiset(Leaves(Huffman(LeafHeap(alph)))) == multiset(alph)
    ensures Huffman(LeafHeap(alph)).w == Total(alph)
  {
    var initial := LeafHeap(alph);
    HuffmanIsInternal(initial);
    forall k | 0 <= k < |initial| ensures WellWeighted(initial[k]) { }
    HuffmanWellWeighted(initial);
    HuffmanLeaves(initial);
    LeafHeapLeaves(alph);
    LeafHeapWeight(alph);
  }

  /**
   * The merge loop of `build_tree`: while two or more nodes remain, pop the
   * lightest l, pop the next lightest r and push their parent. The last node
   * pushed is the greedy tree; nothing is pushed when fewer than two nodes
   * are given, and the result stays NULL (None).
   */
  method MergeAll(start: seq<Tree>) returns (root: Option<Tree>)
    ensures root.None? <==> |start| < 2
    ensures root.Some? ==> root.value == Huffman(start)
  {
    var heap := start;
    root := None;
    while |heap| > 1
      invariant |heap| <= |start|
      invariant |heap| >= 1 ==> Huffman(heap) == Huffman(start)
      invariant root.None? <==> |heap| == |start|
      invariant root.Some? ==> |heap| >= 1 && root.value == heap[|heap| - 1]
      decreases |heap|
    {
      ghost var before := heap;
      var i := MinIndex(heap);
      var l := heap[i];
      var heap1 := RemoveAt(heap, i);
      var j := MinIndex(heap1);
      var r := heap1[j];
      var n := Node(l.w + r.w, l, r);
      heap := RemoveAt(heap1, j) + [n];
      root := Some(n);
      LoopRound(before, i, heap1, j, heap);
      HuffmanStep(before);
    }
  }

  /**
   * `build_tree`: push a leaf per alphabet entry, then merge the two lightest
   * nodes until one remains. The result is NULL (None) when fewer than two
   * entries exist, since the loop never runs; otherwise it is an internal
   * root whose leaves are exactly the alphabet's pairs, whose internal
   * weights are the sums of their children's, and whose weight is the total.
   */
  method BuildTree(alph: seq<(Symbol, nat)>) returns (root: Option<Tree>)
    ensures root.None? <==> |alph| < 2
    ensures root.Some? ==> root.value == Huffman(LeafHeap(alph))
    ensures root.Some? ==> root.value.Node? && WellWeighted(root.value)
    ensures root.Some? ==> multiset(Leaves(root.value)) == multiset(alph)
    ensures root.Some? ==> root.value.w == Total(alph)
  {
    var heap: seq<Tree> := [];
    for i := 0 to |alph|
      invariant |heap| == i
      invariant forall j :: 0 <= j < i ==> heap[j] == Leaf(alph[j].0, alph[j].1)
    {
      heap := heap + [Leaf(alph[i].0, alph[i].1)];
    }
    LeafHeapIs(alph, heap);
    root := MergeAll(heap);
    if root.Some? {
      HuffmanOfAlphabet(alph);
    }
  }
}
