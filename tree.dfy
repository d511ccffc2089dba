/**
 * The Huffman tree as an immutable value, and the notions of paths and
 * leaves that the code table, the encoder and the decoder are stated in.
 */
module HuffmanTree {
  import opened Wrappers

  /** One input character, taken as an unsigned byte value. */
  type Symbol = c: int | 0 <= c < 256

  /** A bit vector (`code_t`): false is bit 0 (go left), true is bit 1 (go right). */
  type Code = seq<bool>

  /**
   * A node of the tree. A leaf carries its character and its frequency; an
   * internal node carries the weight of its subtree and always two children,
   * so every tree is full. (The source also stores character 0 in internal
   * nodes; it is never read.)
   */
  datatype Tree = Leaf(c: Symbol, w: nat) | Node(w: nat, left: Tree, right: Tree)

  function Size(t: Tree): (n: nat)
    ensures n >= 1
  {
    match t
    case Leaf(_, _) => 1
    case Node(_, l, r) => 1 + Size(l) + Size(r)
  }

  function Height(t: Tree): nat
  {
    match t
    case Leaf(_, _) => 0
    case Node(_, l, r) => 1 + (if Height(l) < Height(r) then Height(r) else Height(l))
  }

  /** The (symbol, weight) pairs of the leaves, left to right. */
  function Leaves(t: Tree): seq<(Symbol, nat)>
  {
    match t
    case Leaf(c, w) => [(c, w)]
    case Node(_, l, r) => Leaves(l) + Leaves(r)
  }

  /** The characters that label some leaf. */
  function Symbols(t: Tree): set<Symbol>
  {
    match t
    case Leaf(c, _) => {c}
    case Node(_, l, r) => Symbols(l) + Symbols(r)
  }

  /** Sum of the weights of a list of (symbol, weight) pairs. */
  function Total(pairs: seq<(Symbol, nat)>): nat
  {
    if pairs == [] then 0 else Total(pairs[..|pairs| - 1]) + pairs[|pairs| - 1].1
  }

  /** Every internal node weighs exactly the sum of its two children. */
  ghost predicate WellWeighted(t: Tree)
  {
    match t
    case Leaf(_, _) => true
    case Node(w, l, r) => w == l.w + r.w && WellWeighted(l) && WellWeighted(r)
  }

  /** The node reached from t by following path p, if p stays inside the tree. */
  function Subtree(t: Tree, p: Code): Option<Tree>
  {
    if p == [] then Some(t)
    else match t
      case Leaf(_, _) => None
      case Node(_, l, r) => Subtree(if p[0] then r else l, p[1..])
  }

  /** Path p leads from the root of t to a leaf labelled c. */
  ghost predicate ReachesLeaf(t: Tree, p: Code, c: Symbol)
  {
    var n := Subtree(t, p);
    n.Some? && n.value.Leaf? && n.value.c == c
  }

  /** Path p leads from the root of t to an internal node: it is an incomplete code. */
  ghost predicate InteriorPath(t: Tree, p: Code)
  {
    var n := Subtree(t, p);
    n.Some? && n.value.Node?
  }

  lemma {:induction false} TotalAppend(a: seq<(Symbol, nat)>, b: seq<(Symbol, nat)>)
    ensures Total(a + b) == Total(a) + Total(b)
    decreases |b|
  {
    if b == [] {
      assert a + b == a;
    } else {
      assert (a + b)[..|a + b| - 1] == a + b[..|b| - 1];
      TotalAppend(a, b[..|b| - 1]);
    }
  }

  /** In a well-weighted tree the root weight is the total leaf weight. */
  lemma {:induction false} WeightIsLeafTotal(t: Tree)
    requires WellWeighted(t)
    ensures t.w == Total(Leaves(t))
  {
    match t
    case Leaf(c, w) =>
      assert Total([(c, w)]) == Total([]) + w;
    case Node(_, l, r) =>
      WeightIsLeafTotal(l);
      WeightIsLeafTotal(r);
      TotalAppend(Leaves(l), Leaves(r));
  }

  /** Every leaf pair's symbol is one of the tree's symbols. */
  lemma {:induction false} LeavesInSymbols(t: Tree)
    ensures forall e :: e in Leaves(t) ==> e.0 in Symbols(t)
  {
    match t
    case Leaf(_, _) =>
    case Node(_, l, r) =>
      LeavesInSymbols(l);
      LeavesInSymbols(r);
  }

  /** Following p then q is following p + q. */
  lemma {:induction false} SubtreeAppend(t: Tree, p: Code, q: Code)
    ensures Subtree(t, p + q) ==
            (if Subtree(t, p).Some? then Subtree(Subtree(t, p).value, q) else None)
    decreases |p|
  {
    if p == [] {
      assert p + q == q;
    } else {
      assert (p + q)[0] == p[0] && (p + q)[1..] == p[1..] + q;
      match t
      case Leaf(_, _) =>
      case Node(_, l, r) =>
        SubtreeAppend(if p[0] then r else l, p[1..], q);
    }
  }

  /** A non-empty path can reach a node only through an internal root. */
  lemma SubtreeOfLeaf(t: Tree, p: Code)
    requires t.Leaf? && p != []
    ensures Subtree(t, p) == None
  {
  }

  /** Paths that reach a node are no longer than the height. */
  lemma {:induction false} SubtreeDepth(t: Tree, p: Code)
    requires Subtree(t, p).Some?
    ensures |p| <= Height(t)
    decreases |p|
  {
    if p != [] {
      match t
      case Node(_, l, r) =>
        SubtreeDepth(if p[0] then r else l, p[1..]);
    }
  }

  /** The symbols are exactly the labels of leaves that some path reaches. */
  lemma {:induction false} SymbolsReached(t: Tree, c: Symbol)
    ensures c in Symbols(t) <==> exists p :: ReachesLeaf(t, p, c)
  {
    match t
    case Leaf(c0, _) =>
      assert ReachesLeaf(t, [], c0);
      forall p | ReachesLeaf(t, p, c) ensures c == c0 {
        if p != [] { SubtreeOfLeaf(t, p); }
      }
    case Node(_, l, r) =>
      SymbolsReached(l, c);
      SymbolsReached(r, c);
      if c in Symbols(l) {
        var p :| ReachesLeaf(l, p, c);
        assert ([false] + p)[1..] == p;
        assert ReachesLeaf(t, [false] + p, c);
      } else if c in Symbols(r) {
        var p :| ReachesLeaf(r, p, c);
        assert ([true] + p)[1..] == p;
        assert ReachesLeaf(t, [true] + p, c);
      }
      forall p | ReachesLeaf(t, p, c) ensures c in Symbols(t) {
        assert p != [];
        if p[0] {
          assert ReachesLeaf(r, p[1..], c);
        } else {
          assert ReachesLeaf(l, p[1..], c);
        }
      }
  }

  /**
   * Prefix freedom of leaf paths: a path to a leaf is never a prefix of a
   * different path to a leaf, since while walking a longer path the first
   * one stops at a leaf that has no children.
   */
  lemma {:induction false} LeafPathsPrefixFree(t: Tree, p: Code, q: Code, a: Symbol, b: Symbol)
    requires ReachesLeaf(t, p, a) && ReachesLeaf(t, q, b)
    requires p <= q
    ensures p == q && a == b
  {
    SubtreeAppend(t, p, q[|p|..]);
    assert p + q[|p|..] == q;
  }
}
