/**
 * `build_lookup_table`: a breadth-first walk of the tree that carries the
 * path from the root (0 for left, 1 for right) and records it at each leaf.
 *
 * Breadth-first order is given by levels: Level(t, d) lists the nodes at
 * depth d from left to right, each with its path, and Bfs(t) is the levels
 * one after another. The walk's queue is always the unvisited rest of one
 * level followed by the children of its visited part.
 */
module CodeTable {
  import opened Wrappers
  import opened HuffmanTree

  /** A queue element: a node and the path that leads to it. */
  type Entry = (Tree, Code)

  /** The entries of a subtree seen from its parent: bit b goes in front of every path. */
  function Extend(level: seq<Entry>, b: bool): seq<Entry>
  {
    seq(|level|, i requires 0 <= i < |level| => (level[i].0, [b] + level[i].1))
  }

  /** What visiting e pushes: both children of an internal node, nothing for a leaf. */
  function Expand(e: Entry): seq<Entry>
  {
    if e.0.Node? then [(e.0.left, e.1 + [false]), (e.0.right, e.1 + [true])] else []
  }

  /** Everything visiting the entries of q, in order, pushes. */
  function Children(q: seq<Entry>): seq<Entry>
  {
    if q == [] then [] else Children(q[..|q| - 1]) + Expand(q[|q| - 1])
  }

  /**
   * The nodes at depth d with their paths: the root, then the children of
   * the previous level in order. LevelSplit shows this is left to right.
   */
  function Level(t: Tree, d: nat): seq<Entry>
  {
    if d == 0 then [(t, [])] else Children(Level(t, d - 1))
  }

  /** Levels 0 to d - 1, one after another. */
  function Upto(t: Tree, d: nat): seq<Entry>
  {
    if d == 0 then [] else Upto(t, d - 1) + Level(t, d - 1)
  }

  /** All nodes of t in breadth-first order. */
  function Bfs(t: Tree): seq<Entry>
  {
    Upto(t, Height(t) + 1)
  }

  /**
   * Visiting one entry: a leaf's path is inserted under its character unless
   * the character is already present (map::insert keeps the first value).
   */
  function Visit(lookup: map<Symbol, Code>, e: Entry): map<Symbol, Code>
  {
    if e.0.Leaf? && e.0.c !in lookup then lookup[e.0.c := e.1] else lookup
  }

  /** The table after visiting the entries of s in order, starting empty. */
  function TableOf(s: seq<Entry>): map<Symbol, Code>
  {
    if s == [] then map[] else Visit(TableOf(s[..|s| - 1]), s[|s| - 1])
  }

  /** Entry e is a leaf labelled c. */
  ghost predicate LeafEntry(e: Entry, c: Symbol)
  {
    e.0.Leaf? && e.0.c == c
  }

  lemma {:induction false} ExtendAppend(a: seq<Entry>, b: seq<Entry>, bit: bool)
    ensures Extend(a + b, bit) == Extend(a, bit) + Extend(b, bit)
  {
  }

  lemma {:induction false} ChildrenAppend(a: seq<Entry>, b: seq<Entry>)
    ensures Children(a + b) == Children(a) + Children(b)
    decreases |b|
  {
    if b == [] {
      assert a + b == a;
    } else {
      assert (a + b)[..|a + b| - 1] == a + b[..|b| - 1];
      ChildrenAppend(a, b[..|b| - 1]);
    }
  }

  lemma {:induction false} ChildrenExtend(a: seq<Entry>, bit: bool)
    ensures Children(Extend(a, bit)) == Extend(Children(a), bit)
    decreases |a|
  {
    if a != [] {
      var n := |a| - 1;
      var e := a[n];
      assert Extend(a, bit)[..n] == Extend(a[..n], bit);
      ChildrenExtend(a[..n], bit);
      var x := (e.0, [bit] + e.1);
      assert Expand(x) == Extend(Expand(e), bit) by {
        if e.0.Node? {
          assert [bit] + e.1 + [false] == [bit] + (e.1 + [false]);
          assert [bit] + e.1 + [true] == [bit] + (e.1 + [true]);
        }
      }
      ExtendAppend(Children(a[..n]), Expand(e), bit);
    }
  }

  /** The entries of Children(q) are the entries that visiting some element of q pushes. */
  lemma {:induction false} ChildrenMember(q: seq<Entry>, e: Entry)
    ensures e in Children(q) <==> exists i :: 0 <= i < |q| && e in Expand(q[i])
    decreases |q|
  {
    if q != [] {
      var n := |q| - 1;
      var front := q[..n];
      ChildrenMember(front, e);
      assert Children(q) == Children(front) + Expand(q[n]);
      if e in Children(front) {
        var i :| 0 <= i < n && e in Expand(front[i]);
        assert q[i] == front[i];
      } else if e !in Expand(q[n]) {
        forall i | 0 <= i < |q| ensures e !in Expand(q[i]) {
          if i < n {
            assert q[i] == front[i];
          }
        }
      }
    }
  }

  /** Every entry of level d is a node at the end of its path, which has length d. */
  lemma {:induction false} LevelSound(t: Tree, d: nat, e: Entry)
    requires e in Level(t, d)
    ensures |e.1| == d && Subtree(t, e.1) == Some(e.0)
  {
    if d > 0 {
      var prev := Level(t, d - 1);
      ChildrenMember(prev, e);
      var i :| 0 <= i < |prev| && e in Expand(prev[i]);
      var x := prev[i];
      LevelSound(t, d - 1, x);
      var b := if e == (x.0.right, x.1 + [true]) then true else false;
      assert e == (if b then x.0.right else x.0.left, x.1 + [b]);
      assert Subtree(x.0, [b]) == Some(e.0);
      SubtreeAppend(t, x.1, [b]);
    }
  }

  /** Every node appears in the level of its depth. */
  lemma {:induction false} LevelComplete(t: Tree, p: Code)
    requires Subtree(t, p).Some?
    ensures (Subtree(t, p).value, p) in Level(t, |p|)
    decreases |p|
  {
    if p != [] {
      var p', b := p[..|p| - 1], p[|p| - 1];
      assert p == p' + [b];
      SubtreeAppend(t, p', [b]);
      LevelComplete(t, p');
      var m := Subtree(t, p').value;
      var L := Level(t, |p'|);
      var i :| 0 <= i < |L| && L[i] == (m, p');
      assert (Subtree(t, p).value, p) in Expand(L[i]);
      ChildrenMember(L, (Subtree(t, p).value, p));
    }
  }

  /** Some path of each length up to the height leads to a node. */
  lemma {:induction false} PathOfLength(t: Tree, d: nat) returns (p: Code)
    requires d <= Height(t)
    ensures |p| == d && Subtree(t, p).Some?
  {
    if d == 0 {
      p := [];
    } else {
      match t
      case Node(_, l, r) =>
        var b := Height(l) < Height(r);
        var p' := PathOfLength(if b then r else l, d - 1);
        p := [b] + p';
        assert p[1..] == p';
    }
  }

  /** The levels below the height are empty, the others are not. */
  lemma {:induction false} LevelEmpty(t: Tree, d: nat)
    ensures Level(t, d) == [] <==> d > Height(t)
  {
    if d <= Height(t) {
      var p := PathOfLength(t, d);
      LevelComplete(t, p);
    } else if Level(t, d) != [] {
      LevelSound(t, d, Level(t, d)[0]);
      SubtreeDepth(t, Level(t, d)[0].1);
    }
  }

  /**
   * Each level lists the nodes of the left subtree before those of the right
   * subtree, so levels are in left-to-right order.
   */
  lemma {:induction false} LevelSplit(w: nat, l: Tree, r: Tree, d: nat)
    ensures Level(Node(w, l, r), d + 1) == Extend(Level(l, d), false) + Extend(Level(r, d), true)
  {
    var t := Node(w, l, r);
    if d == 0 {
      assert Level(t, 0)[..0] == [];
      var root: Code := [];
      assert Level(t, 1) == Children([]) + Expand((t, root));
      assert root + [false] == [false] && root + [true] == [true];
      assert [false] + root == [false] && [true] + root == [true];
      assert Extend([(l, [])], false) == [(l, [false])];
      assert Extend([(r, [])], true) == [(r, [true])];
    } else {
      LevelSplit(w, l, r, d - 1);
      ChildrenAppend(Extend(Level(l, d - 1), false), Extend(Level(r, d - 1), true));
      ChildrenExtend(Level(l, d - 1), false);
      ChildrenExtend(Level(r, d - 1), true);
    }
  }

  /** The first d levels hold exactly the nodes of depth below d. */
  lemma {:induction false} UptoMembers(t: Tree, d: nat, e: Entry)
    ensures e in Upto(t, d) <==> |e.1| < d && Subtree(t, e.1) == Some(e.0)
  {
    if d > 0 {
      UptoMembers(t, d - 1, e);
      if e in Level(t, d - 1) {
        LevelSound(t, d - 1, e);
      }
      if |e.1| == d - 1 && Subtree(t, e.1) == Some(e.0) {
        LevelComplete(t, e.1);
      }
    }
  }

  /** Breadth-first order visits every node of t, and nothing else. */
  lemma {:induction false} BfsMembers(t: Tree, e: Entry)
    ensures e in Bfs(t) <==> Subtree(t, e.1) == Some(e.0)
  {
    UptoMembers(t, Height(t) + 1, e);
    if Subtree(t, e.1) == Some(e.0) {
      SubtreeDepth(t, e.1);
    }
  }

  /**
   * The table holds c exactly when some visited entry is a leaf labelled c,
   * and then its code is the path of the first such entry.
   */
  lemma {:induction false} TableOfFirst(s: seq<Entry>, c: Symbol)
    ensures c in TableOf(s) <==> exists i :: 0 <= i < |s| && LeafEntry(s[i], c)
    ensures c in TableOf(s) ==>
              exists i :: 0 <= i < |s| && LeafEntry(s[i], c) && TableOf(s)[c] == s[i].1 &&
                          forall j :: 0 <= j < i ==> !LeafEntry(s[j], c)
    decreases |s|
  {
    if s != [] {
      var n := |s| - 1;
      TableOfFirst(s[..n], c);
      if c in TableOf(s[..n]) {
        var i :| 0 <= i < n && LeafEntry(s[..n][i], c) && TableOf(s[..n])[c] == s[..n][i].1 &&
                 forall j :: 0 <= j < i ==> !LeafEntry(s[..n][j], c);
        assert s[i] == s[..n][i];
        forall j | 0 <= j < i ensures !LeafEntry(s[j], c) {
          assert s[j] == s[..n][j];
        }
      } else {
        forall i | 0 <= i < n ensures !LeafEntry(s[i], c) {
          assert s[i] == s[..n][i];
        }
        if LeafEntry(s[n], c) {
          forall j | 0 <= j < n ensures !LeafEntry(s[j], c) {
            assert s[j] == s[..n][j];
          }
        }
      }
    }
  }

  /** Visiting L[k] moves it from the queue's front to the visited part. */
  lemma {:induction false} QueueStep(P: seq<Entry>, L: seq<Entry>, k: nat)
    requires k < |L|
    ensures (L[k..] + Children(L[..k]))[0] == L[k]
    ensures (L[k..] + Children(L[..k]))[1..] + Expand(L[k]) == L[k + 1..] + Children(L[..k + 1])
    ensures TableOf(P + L[..k + 1]) == Visit(TableOf(P + L[..k]), L[k])
  {
    assert L[..k + 1] == L[..k] + [L[k]];
    assert (L[k..] + Children(L[..k]))[1..] == L[k + 1..] + Children(L[..k]);
    assert L[..k + 1][..k] == L[..k];
    assert (P + L[..k + 1])[..|P + L[..k + 1]| - 1] == P + L[..k];
  }

  /** Once level d is visited, the queue holds level d + 1 and level d joins the visited part. */
  lemma {:induction false} LevelDone(t: Tree, d: nat)
    ensures Level(t, d)[|Level(t, d)|..] + Children(Level(t, d)[..|Level(t, d)|]) ==
            Level(t, d + 1)[0..] + Children(Level(t, d + 1)[..0])
    ensures Upto(t, d) + Level(t, d)[..|Level(t, d)|] == Upto(t, d + 1) + Level(t, d + 1)[..0]
  {
    var L := Level(t, d);
    assert L[|L|..] == [] && L[..|L|] == L;
    assert Level(t, d + 1)[..0] == [] && Level(t, d + 1)[0..] == Level(t, d + 1);
  }

  /**
   * The walk's state after visiting level d up to position k: the queue is
   * the rest of level d followed by what its visited part pushed, and the
   * table is that of every node visited so far.
   */
  ghost predicate WalkState(t: Tree, d: nat, k: nat, q: seq<Entry>, lookup: map<Symbol, Code>)
  {
    (Level(t, d) == [] ==> d == Height(t) + 1) &&
    (k < |Level(t, d)| || (k == 0 && Level(t, d) == [])) &&
    q == Level(t, d)[k..] + Children(Level(t, d)[..k]) &&
    lookup == TableOf(Upto(t, d) + Level(t, d)[..k])
  }

  /** The walk starts at the root with the empty path and an empty table. */
  lemma {:induction false} WalkStart(t: Tree)
    ensures WalkState(t, 0, 0, [(t, [])], map[])
  {
    LevelEmpty(t, 0);
    assert Level(t, 0)[..0] == [];
  }

  /** The walk's position after one more visit: the next entry, or the start of the next level. */
  function Advance(t: Tree, d: nat, k: nat): (nat, nat)
  {
    if k + 1 == |Level(t, d)| then (d + 1, 0) else (d, k + 1)
  }

  /** While the queue is not empty the walk stands at an entry of a level that exists. */
  lemma {:induction false} WalkInside(t: Tree, d: nat, k: nat, q: seq<Entry>, lookup: map<Symbol, Code>)
    requires WalkState(t, d, k, q, lookup) && q != []
    ensures d <= Height(t) && k < |Level(t, d)|
  {
    var L := Level(t, d);
    assert L[..0] == [] && Children(L[..0]) == [];
    LevelEmpty(t, d);
  }

  /** Visiting the queue's front keeps the walk's state, one position further. */
  lemma {:induction false} WalkStep(t: Tree, d: nat, k: nat, q: seq<Entry>, lookup: map<Symbol, Code>)
    requires WalkState(t, d, k, q, lookup) && q != []
    ensures d <= Height(t) && k < |Level(t, d)|
    ensures WalkState(t, Advance(t, d, k).0, Advance(t, d, k).1, q[1..] + Expand(q[0]), Visit(lookup, q[0]))
  {
    WalkInside(t, d, k, q, lookup);
    QueueStep(Upto(t, d), Level(t, d), k);
    WalkAdvance(t, d, k, q[1..] + Expand(q[0]), Visit(lookup, q[0]));
  }

  /** Having visited entry k of level d, the walk stands where Advance says. */
  lemma {:induction false} WalkAdvance(t: Tree, d: nat, k: nat, q: seq<Entry>, lookup: map<Symbol, Code>)
    requires d <= Height(t) && k < |Level(t, d)|
    requires q == Level(t, d)[k + 1..] + Children(Level(t, d)[..k + 1])
    requires lookup == TableOf(Upto(t, d) + Level(t, d)[..k + 1])
    ensures WalkState(t, Advance(t, d, k).0, Advance(t, d, k).1, q, lookup)
  {
    if k + 1 == |Level(t, d)| {
      WalkNextLevel(t, d, q, lookup);
    } else {
      WalkSameLevel(t, d, k + 1, q, lookup);
    }
  }

  /** Within level d: the walk stands at position k. */
  lemma {:induction false} WalkSameLevel(t: Tree, d: nat, k: nat, q: seq<Entry>, lookup: map<Symbol, Code>)
    requires d <= Height(t) && k < |Level(t, d)|
    requires q == Level(t, d)[k..] + Children(Level(t, d)[..k])
    requires lookup == TableOf(Upto(t, d) + Level(t, d)[..k])
    ensures WalkState(t, d, k, q, lookup)
  {
  }

  /** Done with level d: the walk stands at the start of level d + 1. */
  lemma {:induction false} WalkNextLevel(t: Tree, d: nat, q: seq<Entry>, lookup: map<Symbol, Code>)
    requires d <= Height(t)
    requires q == Level(t, d)[|Level(t, d)|..] + Children(Level(t, d)[..|Level(t, d)|])
    requires lookup == TableOf(Upto(t, d) + Level(t, d)[..|Level(t, d)|])
    ensures WalkState(t, d + 1, 0, q, lookup)
  {
    LevelEmpty(t, d + 1);
    LevelDone(t, d);
  }

  /** An empty queue means every level has been visited. */
  lemma {:induction false} WalkEnd(t: Tree, d: nat, k: nat, lookup: map<Symbol, Code>)
    requires WalkState(t, d, k, [], lookup)
    ensures lookup == TableOf(Bfs(t))
  {
    var L := Level(t, d);
    assert |L[k..]| == 0;
    assert L == [] && k == 0 && d == Height(t) + 1;
    assert L[..k] == [];
    assert Upto(t, d) + L[..k] == Bfs(t);
  }

  /**
   * `build_lookup_table`: drain the queue, which starts with the root and
   * the empty path. An internal node pushes its left child with path + [0]
   * and its right child with path + [1]; a leaf inserts its path under its
   * character. The table is that of breadth-first order.
   */
  method BuildLookupTable(htree: Tree) returns (lookup: map<Symbol, Code>)
    ensures lookup == TableOf(Bfs(htree))
  {
    lookup := map[];
    var q: seq<Entry> := [(htree, [])];
    ghost var d: nat := 0;
    ghost var k: nat := 0;
    WalkStart(htree);
    while q != []
      invariant WalkState(htree, d, k, q, lookup)
      decreases Height(htree) + 1 - d, |Level(htree, d)| - k
    {
      ghost var front := q[0];
      ghost var rest := q[1..];
      WalkStep(htree, d, k, q, lookup);
      d, k := Advance(htree, d, k).0, Advance(htree, d, k).1;
      var node := q[0].0;
      var code := q[0].1;
      q := q[1..];
      if node.Node? {
        q := q + [(node.left, code + [false]), (node.right, code + [true])];
      } else {
        lookup := if node.c in lookup then lookup else lookup[node.c := code];
      }
      assert q == rest + Expand(front);
    }
    WalkEnd(htree, d, k, lookup);
  }

  /**
   * What the walk promises about its table:
   *   - a character has a code exactly when it labels a leaf;
   *   - its code is the path from the root to a leaf labelled with it
   *     (so its length is that leaf's depth), the first such leaf in
   *     breadth-first order;
   *   - when the root is internal no code is empty, and no code is a prefix
   *     of another character's code.
   */
  lemma {:induction false} CodeTableCorrect(t: Tree, lookup: map<Symbol, Code>)
    requires lookup == TableOf(Bfs(t))
    ensures forall c :: c in lookup <==> c in Symbols(t)
    ensures forall c :: c in lookup ==> ReachesLeaf(t, lookup[c], c)
    ensures forall c :: c in lookup ==>
              exists i :: 0 <= i < |Bfs(t)| && LeafEntry(Bfs(t)[i], c) && lookup[c] == Bfs(t)[i].1 &&
                          forall j :: 0 <= j < i ==> !LeafEntry(Bfs(t)[j], c)
    ensures t.Node? ==> forall c :: c in lookup ==> lookup[c] != []
    ensures forall a, b :: a in lookup && b in lookup && a != b ==> !(lookup[a] <= lookup[b])
  {
    var s := Bfs(t);
    forall c ensures c in lookup <==> c in Symbols(t) {
      TableOfFirst(s, c);
      SymbolsReached(t, c);
      if c in Symbols(t) {
        var p :| ReachesLeaf(t, p, c);
        var e := (Subtree(t, p).value, p);
        BfsMembers(t, e);
        var i :| 0 <= i < |s| && s[i] == e;
        assert LeafEntry(s[i], c);
      }
      if c in lookup {
        var i :| 0 <= i < |s| && LeafEntry(s[i], c);
        BfsMembers(t, s[i]);
        assert ReachesLeaf(t, s[i].1, c);
      }
    }
    forall c | c in lookup ensures ReachesLeaf(t, lookup[c], c) {
      TableOfFirst(s, c);
      var i :| 0 <= i < |s| && LeafEntry(s[i], c) && lookup[c] == s[i].1;
      BfsMembers(t, s[i]);
    }
    forall c | c in lookup
      ensures exists i :: 0 <= i < |s| && LeafEntry(s[i], c) && lookup[c] == s[i].1 &&
                          forall j :: 0 <= j < i ==> !LeafEntry(s[j], c)
    {
      TableOfFirst(s, c);
    }
    forall a, b | a in lookup && b in lookup && a != b ensures !(lookup[a] <= lookup[b]) {
      if lookup[a] <= lookup[b] {
        LeafPathsPrefixFree(t, lookup[a], lookup[b], a, b);
      }
    }
  }
}
