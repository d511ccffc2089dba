/**
 * `encode`, `code_lookup` and `decode`: turning characters into the
 * concatenation of their codes, and walking the tree bit by bit to turn
 * the bits back into characters.
 */
module Codec {
  import opened Wrappers
  import opened HuffmanTree
  import opened CodeTable
  import opened TreeBuilder
  import opened FreqTable
  import opened BitPack

  /** What `lookup[c]` yields: the stored code, or the empty code `operator[]` inserts for a missing key. */
  function CodeOf(lookup: map<Symbol, Code>, c: Symbol): Code
  {
    if c in lookup then lookup[c] else []
  }

  /** The codes of the characters of input, one after another. */
  function EncodeBits(input: seq<Symbol>, lookup: map<Symbol, Code>): Code
  {
    if input == [] then [] else CodeOf(lookup, input[0]) + EncodeBits(input[1..], lookup)
  }

  /** Encoding a concatenation is concatenating the encodings. */
  lemma {:induction false} EncodeAppend(a: seq<Symbol>, b: seq<Symbol>, lookup: map<Symbol, Code>)
    ensures EncodeBits(a + b, lookup) == EncodeBits(a, lookup) + EncodeBits(b, lookup)
    decreases |a|
  {
    if a == [] {
      assert a + b == b;
    } else {
      assert (a + b)[0] == a[0] && (a + b)[1..] == a[1..] + b;
      EncodeAppend(a[1..], b, lookup);
    }
  }

  /** The encoding of one character is its code. */
  lemma EncodeOne(lookup: map<Symbol, Code>, c: Symbol)
    ensures EncodeBits([c], lookup) == CodeOf(lookup, c)
  {
    assert [c][1..] == [];
  }

  /** A character missing from the table contributes no bits. */
  lemma MissingSymbol(lookup: map<Symbol, Code>, a: seq<Symbol>, c: Symbol, b: seq<Symbol>)
    requires c !in lookup
    ensures EncodeBits(a + [c] + b, lookup) == EncodeBits(a + b, lookup)
  {
    EncodeAppend(a + [c], b, lookup);
    EncodeAppend(a, [c], lookup);
    EncodeAppend(a, b, lookup);
    EncodeOne(lookup, c);
  }

  /**
   * `encode`: append the code of every character in turn. Reading
   * `lookup[c]` inserts the empty code for a character the table lacks, so
   * the caller's table comes back with those characters added.
   */
  method Encode(input: seq<Symbol>, lookup: map<Symbol, Code>) returns (result: Code, table: map<Symbol, Code>)
    ensures result == EncodeBits(input, lookup)
    ensures forall c :: c in table <==> c in lookup || c in input
    ensures forall c :: c in table ==> table[c] == CodeOf(lookup, c)
  {
    result := [];
    table := lookup;
    for i := 0 to |input|
      invariant result == EncodeBits(input[..i], lookup)
      invariant forall c :: c in table <==> c in lookup || c in input[..i]
      invariant forall c :: c in table ==> table[c] == CodeOf(lookup, c)
    {
      var c := input[i];
      if c !in table {
        table := table[c := []];
      }
      var b := table[c];
      result := result + b;
      assert input[..i + 1] == input[..i] + [c];
      EncodeAppend(input[..i], [c], lookup);
      EncodeOne(lookup, c);
    }
    assert input[..|input|] == input;
  }

  /** The outcome of `code_lookup`: a character and the position after its code, or "No more bits". */
  datatype Step = Found(c: Symbol, next: nat) | NoMoreBits

  /**
   * The walk `code_lookup` makes from node, reading bits from position pos:
   * at a leaf it yields the leaf's character; at an internal node it fails
   * when the bits are used up and otherwise follows bit 1 right, bit 0 left.
   */
  function Walk(node: Tree, bits: Code, pos: nat): (r: Step)
    requires pos <= |bits|
    ensures r.Found? ==> pos <= r.next <= |bits| && (node.Node? ==> pos < r.next)
    decreases Size(node)
  {
    match node
    case Leaf(c, _) => Found(c, pos)
    case Node(_, l, r) =>
      if pos == |bits| then NoMoreBits else Walk(if bits[pos] then r else l, bits, pos + 1)
  }

  /** The walk yields c and stops at next exactly when bits pos .. next - 1 are a path to a leaf labelled c. */
  lemma {:induction false} WalkFinds(t: Tree, bits: Code, pos: nat, c: Symbol, next: nat)
    requires pos <= |bits|
    ensures Walk(t, bits, pos) == Found(c, next) <==> pos <= next <= |bits| && ReachesLeaf(t, bits[pos..next], c)
    decreases Size(t)
  {
    match t
    case Leaf(_, _) =>
      if pos <= next <= |bits| && pos < next {
        SubtreeOfLeaf(t, bits[pos..next]);
      }
    case Node(_, l, r) =>
      if pos < |bits| {
        var child := if bits[pos] then r else l;
        WalkFinds(child, bits, pos + 1, c, next);
        if pos < next <= |bits| {
          var p := bits[pos..next];
          assert p[0] == bits[pos] && p[1..] == bits[pos + 1..next];
        }
      }
  }

  /** The walk runs out of bits exactly when the rest of the bits lead to an internal node. */
  lemma {:induction false} WalkExhausts(t: Tree, bits: Code, pos: nat)
    requires pos <= |bits|
    ensures Walk(t, bits, pos) == NoMoreBits <==> InteriorPath(t, bits[pos..])
    decreases Size(t)
  {
    match t
    case Leaf(_, _) =>
      if pos < |bits| {
        SubtreeOfLeaf(t, bits[pos..]);
      }
    case Node(_, l, r) =>
      if pos < |bits| {
        var child := if bits[pos] then r else l;
        WalkExhausts(child, bits, pos + 1);
        var p := bits[pos..];
        assert p[0] == bits[pos] && p[1..] == bits[pos + 1..];
      } else {
        assert bits[pos..] == [];
      }
  }

  /**
   * `code_lookup`: descend from the root, one bit per step, until a leaf;
   * the iterator it advances is the position returned with the character,
   * and the `out_of_range` exception is the NoMoreBits outcome.
   */
  method CodeLookup(bits: Code, pos: nat, htree: Tree) returns (r: Step)
    requires pos <= |bits|
    ensures r == Walk(htree, bits, pos)
  {
    var node := htree;
    var biter: nat := pos;
    while true
      invariant biter <= |bits|
      invariant Walk(node, bits, biter) == Walk(htree, bits, pos)
      decreases Size(node)
    {
      if !node.Node? {
        break;
      }
      if biter == |bits| {
        return NoMoreBits;
      }
      if bits[biter] {
        node := node.right;
      } else {
        node := node.left;
      }
      biter := biter + 1;
    }
    r := Found(node.c, biter);
  }

  /**
   * The characters `decode` collects from position pos on: one walk after
   * another until a walk runs out of bits. An internal root makes every walk
   * consume at least one bit.
   */
  function DecodeFrom(t: Tree, bits: Code, pos: nat): seq<Symbol>
    requires t.Node? && pos <= |bits|
    decreases |bits| - pos
  {
    match Walk(t, bits, pos)
    case NoMoreBits => []
    case Found(c, next) => [c] + DecodeFrom(t, bits, next)
  }

  /** `decode`: call `code_lookup` from the current position until it throws. */
  method Decode(compressed: Code, htree: Tree) returns (result: seq<Symbol>)
    requires htree.Node?
    ensures result == DecodeFrom(htree, compressed, 0)
  {
    result := [];
    var biter: nat := 0;
    while true
      invariant biter <= |compressed|
      invariant result + DecodeFrom(htree, compressed, biter) == DecodeFrom(htree, compressed, 0)
      decreases |compressed| - biter
    {
      var step := CodeLookup(compressed, biter, htree);
      if step.NoMoreBits? {
        break;
      }
      assert DecodeFrom(htree, compressed, biter) == [step.c] + DecodeFrom(htree, compressed, step.next);
      result := result + [step.c];
      biter := step.next;
    }
    assert result + [] == result;
  }

  /** The characters of input that have an entry in the table, in order. */
  function Known(input: seq<Symbol>, lookup: map<Symbol, Code>): seq<Symbol>
  {
    if input == [] then [] else (if input[0] in lookup then [input[0]] else []) + Known(input[1..], lookup)
  }

  /** With every character in the table, nothing is dropped. */
  lemma {:induction false} KnownAll(input: seq<Symbol>, lookup: map<Symbol, Code>)
    requires forall c :: c in input ==> c in lookup
    ensures Known(input, lookup) == input
    decreases |input|
  {
    if input != [] {
      assert forall c :: c in input[1..] ==> c in input;
      KnownAll(input[1..], lookup);
      assert [input[0]] + input[1..] == input;
    }
  }

  /** Every code of the table is a path to a leaf carrying its character. */
  ghost predicate LeafCodes(t: Tree, lookup: map<Symbol, Code>)
  {
    forall c :: c in lookup ==> ReachesLeaf(t, lookup[c], c)
  }

  /** Bits pos .. pos + |x| - 1 of bits spell x. */
  ghost predicate At(bits: Code, pos: nat, x: Code)
  {
    pos + |x| <= |bits| && forall k :: 0 <= k < |x| ==> bits[pos + k] == x[k]
  }

  /** Spelling z == x + y is spelling x, then y. */
  lemma AtSplit(bits: Code, pos: nat, z: Code, x: Code, y: Code)
    requires z == x + y && At(bits, pos, z)
    ensures At(bits, pos, x) && At(bits, pos + |x|, y)
  {
    forall k | 0 <= k < |x| ensures bits[pos + k] == x[k] {
      assert z[k] == x[k];
    }
    forall k | 0 <= k < |y| ensures bits[pos + |x| + k] == y[k] {
      assert bits[pos + (|x| + k)] == z[|x| + k];
    }
  }

  /** Bits made of x followed by y spell x at the start and leave y after it. */
  lemma AtFront(bits: Code, x: Code, y: Code)
    requires bits == x + y
    ensures At(bits, 0, x) && bits[|x|..] == y
  {
    forall k | 0 <= k < |x| ensures bits[k] == x[k] {
    }
  }

  /** Spelling x at pos is having x as the slice from pos. */
  lemma AtSlice(bits: Code, pos: nat, x: Code)
    requires At(bits, pos, x)
    ensures bits[pos..pos + |x|] == x
  {
    var s := bits[pos..pos + |x|];
    forall k | 0 <= k < |x| ensures s[k] == x[k] {
      assert s[k] == bits[pos + k];
    }
  }

  /** Bits that spell a path to a leaf labelled c make the walk yield c right after them. */
  lemma CodeWalk(t: Tree, p: Code, c: Symbol, bits: Code, pos: nat)
    requires ReachesLeaf(t, p, c) && At(bits, pos, p)
    ensures Walk(t, bits, pos) == Found(c, pos + |p|)
  {
    AtSlice(bits, pos, p);
    WalkFinds(t, bits, pos, c, pos + |p|);
  }

  /** The encoding of a non-empty input: the first code, then the encoding of the rest. */
  lemma EncodeCons(lookup: map<Symbol, Code>, input: seq<Symbol>, enc: Code)
    requires input != [] && enc == EncodeBits(input, lookup)
    ensures enc == CodeOf(lookup, input[0]) + EncodeBits(input[1..], lookup)
  {
  }

  /** The encoding and the known characters of a non-empty input, split at its first character. */
  lemma EncodeKnownCons(lookup: map<Symbol, Code>, input: seq<Symbol>)
    requires input != []
    ensures |EncodeBits(input, lookup)| == |CodeOf(lookup, input[0])| + |EncodeBits(input[1..], lookup)|
    ensures Known(input, lookup) == (if input[0] in lookup then [input[0]] else []) + Known(input[1..], lookup)
  {
  }

  /**
   * A walk from pos that yields c at mid makes decoding from pos yield c,
   * then what decoding from mid yields.
   */
  lemma DecodeStep(t: Tree, c: Symbol, bits: Code, pos: nat, mid: nat, end: nat, rest: seq<Symbol>, known: seq<Symbol>)
    requires t.Node? && pos <= mid <= end <= |bits|
    requires Walk(t, bits, pos) == Found(c, mid)
    requires DecodeFrom(t, bits, mid) == rest + DecodeFrom(t, bits, end)
    requires known == [c] + rest
    ensures DecodeFrom(t, bits, pos) == known + DecodeFrom(t, bits, end)
  {
    Concat3(DecodeFrom(t, bits, pos), DecodeFrom(t, bits, mid), DecodeFrom(t, bits, end), [c], rest, known);
  }

  /** Regrouping three concatenated parts. */
  lemma Concat3<T>(whole: seq<T>, back: seq<T>, last: seq<T>, first: seq<T>, middle: seq<T>, front: seq<T>)
    requires whole == first + back && back == middle + last && front == first + middle
    ensures whole == front + last
  {
  }

  /**
   * Decoding bits that start with the encoding of input yields the
   * characters of input that are in the table, then whatever the bits after
   * the encoding decode to.
   */
  lemma {:induction false} DecodeEncoded(t: Tree, lookup: map<Symbol, Code>, input: seq<Symbol>, bits: Code, pos: nat)
    requires t.Node? && LeafCodes(t, lookup) && At(bits, pos, EncodeBits(input, lookup))
    ensures DecodeFrom(t, bits, pos) ==
            Known(input, lookup) + DecodeFrom(t, bits, pos + |EncodeBits(input, lookup)|)
    decreases |input|
  {
    if input == [] {
      assert EncodeBits(input, lookup) == [] && Known(input, lookup) == [];
      assert [] + DecodeFrom(t, bits, pos) == DecodeFrom(t, bits, pos);
    } else {
      var c, rest := input[0], input[1..];
      var mid := pos + |CodeOf(lookup, c)|;
      EncodeCons(lookup, input, EncodeBits(input, lookup));
      AtSplit(bits, pos, EncodeBits(input, lookup), CodeOf(lookup, c), EncodeBits(rest, lookup));
      EncodeKnownCons(lookup, input);
      DecodeEncoded(t, lookup, rest, bits, mid);
      if c in lookup {
        CodeWalk(t, lookup[c], c, bits, pos);
        DecodeStep(t, c, bits, pos, mid, mid + |EncodeBits(rest, lookup)|, Known(rest, lookup), Known(input, lookup));
      } else {
        assert Known(input, lookup) == Known(rest, lookup);
      }
    }
  }

  /**
   * Decode inverts encode for the code table of an internal root: the
   * characters the table knows come back in order, and when the input uses
   * only characters of the tree, the input itself comes back.
   */
  lemma DecodeEncode(t: Tree, lookup: map<Symbol, Code>, input: seq<Symbol>)
    requires t.Node? && lookup == TableOf(Bfs(t))
    ensures DecodeFrom(t, EncodeBits(input, lookup), 0) == Known(input, lookup)
    ensures (forall c :: c in input ==> c in Symbols(t)) ==> DecodeFrom(t, EncodeBits(input, lookup), 0) == input
  {
    CodeTableCorrect(t, lookup);
    var enc := EncodeBits(input, lookup);
    AtFront(enc, enc, []);
    DecodeEncoded(t, lookup, input, enc, 0);
    if forall c :: c in input ==> c in Symbols(t) {
      KnownAll(input, lookup);
    }
  }

  /** An incomplete path left after the encoding is discarded silently. */
  lemma DecodeDropsTail(t: Tree, lookup: map<Symbol, Code>, input: seq<Symbol>, tail: Code)
    requires t.Node? && lookup == TableOf(Bfs(t)) && InteriorPath(t, tail)
    ensures DecodeFrom(t, EncodeBits(input, lookup) + tail, 0) == Known(input, lookup)
  {
    CodeTableCorrect(t, lookup);
    var enc := EncodeBits(input, lookup);
    var bits := enc + tail;
    AtFront(bits, enc, tail);
    DecodeEncoded(t, lookup, input, bits, 0);
    WalkExhausts(t, bits, |enc|);
  }

  /**
   * The whole codec: count the characters of input, build the tree from the
   * counts, derive its code table, encode, pack, unpack and decode. The
   * input comes back, whatever constant the counts carry on top of the true
   * number of occurrences.
   */
  lemma {:induction false} CodecRoundTrip(input: seq<Symbol>, cfvec: FreqVec, extra: nat, t: Tree, lookup: map<Symbol, Code>)
    requires IsFreqTable(input, cfvec, extra) && |cfvec| >= 2
    requires t == Huffman(LeafHeap(cfvec)) && lookup == TableOf(Bfs(t))
    ensures t.Node?
    ensures Unpack(Pack(EncodeBits(input, lookup))) == Some(EncodeBits(input, lookup))
    ensures DecodeFrom(t, EncodeBits(input, lookup), 0) == input
  {
    HuffmanOfAlphabet(cfvec);
    LeavesInSymbols(t);
    forall c | c in input ensures c in Symbols(t) {
      var j :| 0 <= j < |cfvec| && cfvec[j].0 == c;
      assert cfvec[j] in multiset(cfvec);
      assert cfvec[j] in Leaves(t);
    }
    PackRoundTrip(EncodeBits(input, lookup));
    DecodeEncode(t, lookup, input);
  }
}
