# Static Huffman codec, modelled in Dafny

This project models the static Huffman codec of `huffman.cpp`:

- counting the characters of an input (`make_freq_table`);
- the greedy tree construction over a min-heap ordered by
  `HuffmanTree::Compare` (`build_tree`);
- the breadth-first derivation of the code table (`build_lookup_table`);
- bit encoding (`encode`), the one-character tree walk (`code_lookup`) and
  decoding (`decode`);
- packing a bit vector into bytes and back (`bitvec_to_string`,
  `string_to_bitvec`).

Each C++ function is a Dafny `method` with the loop of the source. The one
exception is the second loop of `make_freq_table` (huffman.cpp:175-178): it
walks the map's entries from `begin()` to `end()`, while `FreqTable.Flatten`
runs over the 256 possible keys and tests each for membership. Both produce
the map's entries in ascending key order, which is what Flatten's contract
states. Each method
is proved against a specification function, and lemmas prove what the
codec promises about those functions. The tree is never changed after it is
built, so it is the datatype `Tree = Leaf(c, w) | Node(w, left, right)`. A
missing child pointer is a leaf, and an internal node always has two children.

Modules, one per file:

| file | module | source |
|---|---|---|
| wrappers.dfy | Wrappers | `Option` (a NULL tree, a failed unpack) |
| tree.dfy | HuffmanTree | the `HuffmanTree` node, paths and leaves |
| freq_table.dfy | FreqTable | `make_freq_table` |
| build_tree.dfy | TreeBuilder | `HuffmanTree::Compare`, `build_tree` |
| code_table.dfy | CodeTable | `build_lookup_table` |
| bit_pack.dfy | BitPack | `bitvec_to_string`, `string_to_bitvec` |
| codec.dfy | Codec | `encode`, `code_lookup`, `decode`, and the whole round trip |

Representation choices:

- **Characters.** A character is a `Symbol`, an integer 0..255. A byte of the
  packed string is a `bv8`. A code (`code_t`) is a `seq<bool>`, where `false`
  is 0 and means left.
- **The priority queue.** It is a sequence of trees. `top`/`pop` take the
  first node of minimum weight, and `push` appends.
  `std::priority_queue` leaves the order among equal weights unspecified, so
  this fixed rule is one of the allowed behaviours. For that reason the model
  claims no bit-exact codes.
- **Breadth-first order.** It is defined by levels: `Level(t, d)` lists the
  nodes at depth d from left to right. The walk's queue is always the
  unvisited rest of one level followed by the children of its visited part.
- **The exception.** The `out_of_range` that `code_lookup` throws when the
  bits run out is the `NoMoreBits` outcome of `Step`. The iterator it
  advances is the position returned in `Found(c, next)`.
- **`encode`'s table.** `encode` takes the table by reference and reads it
  with `operator[]`, which inserts an empty code for a missing character.
  So `Codec.Encode` also returns the table as the caller sees it
  afterwards.

Behaviour of the code that the model keeps as it is:

- **Counts.** Each count is the number of occurrences + 1 (see Findings).
  The round-trip lemma holds for any constant excess.
- **Small alphabets.** Fewer than two entries give NULL (`None`) from
  `build_tree`; there is no special one-bit code for a single symbol.
- **Unknown characters.** A character missing from the table encodes as the
  empty code.

## Model

| member | source | states |
|---|---|---|
| FreqTable.Flatten | huffman.cpp:175-178 | the vector lists every key of the map exactly once, with its count, in strictly ascending key order (map iteration order) |
| FreqTable.MakeFreqTable | huffman.cpp:164-181 | the table as written holds each distinct character of the input once, in ascending order, with count = number of occurrences + 1 |
| FreqTable.FreqOffByOne | huffman.cpp:169-172 | concrete witness of the excess: the table of "aa" is exactly [(97, 3)] although 'a' occurs twice |
| FreqTable.MakeFreqTableExact | huffman.cpp:168-173 | with the first occurrence inserted as 0, every count equals the number of occurrences |
| FreqTable.EmptyFreqTable | huffman.cpp:164-181 | the table is empty exactly when the input is empty |
| TreeBuilder.MinIndexIsTop | huffman.cpp:25-30 | the node popped as top has minimum weight among all nodes in the heap (Compare orders by weight alone); ties go to the first |
| TreeBuilder.RemoveAtMultiset | huffman.cpp:47-50 | a pop removes exactly one occurrence of the popped node |
| TreeBuilder.MergeStep | huffman.cpp:46-52 | one round leaves one node fewer, the pushed parent last and internal |
| TreeBuilder.MergeStepGreedy | huffman.cpp:46-51 | each round is greedy. The left child of the pushed parent is a heap node of least weight. The right child is a different heap node, of least weight among the rest |
| TreeBuilder.MergeStepMultiset | huffman.cpp:47-52 | the new heap is the old one less the parent's two children, plus the parent |
| TreeBuilder.PopTwoPushParent | huffman.cpp:46-52 | popping any two nodes and pushing their parent of summed weight keeps the heap's multiset of leaves and its total weight |
| TreeBuilder.MergeStepLeaves | huffman.cpp:45-53 | a round of the loop keeps the leaves and the total weight of the heap |
| TreeBuilder.MergeStepWellWeighted | huffman.cpp:51 | a round keeps every node's weight equal to the sum of its children's |
| TreeBuilder.HuffmanIsInternal | huffman.cpp:45-53 | two or more nodes always end in an internal root |
| TreeBuilder.HuffmanWellWeighted | huffman.cpp:45-53 | the final tree has every internal weight equal to the sum of its children's |
| TreeBuilder.HuffmanLeaves | huffman.cpp:45-53 | the final tree's leaves are the heap's leaves as a multiset, and its weight is the heap's total |
| TreeBuilder.LeafHeapLeaves | huffman.cpp:38-42 | the leaves of the initial heap are exactly the alphabet's pairs |
| TreeBuilder.LeafHeapWeight | huffman.cpp:38-42 | the initial heap weighs the alphabet's total |
| TreeBuilder.HuffmanOfAlphabet | huffman.cpp:34-56 | for two or more pairs the tree is internal and well weighted, its leaves are exactly the pairs, and its weight is their total |
| TreeBuilder.MergeAll | huffman.cpp:44-55 | NULL exactly when fewer than two nodes are given, otherwise the last pushed node, which is the greedy tree |
| TreeBuilder.BuildTree | huffman.cpp:34-56 | NULL exactly for fewer than two pairs; otherwise an internal, well-weighted root whose leaves are the pairs and whose weight is their total |
| HuffmanTree.WeightIsLeafTotal | huffman.cpp:51 | in a well-weighted tree the root weight is the sum of the leaf weights |
| HuffmanTree.SymbolsReached | huffman.cpp:13-21 | a character labels a leaf exactly when some path leads to a leaf carrying it |
| HuffmanTree.SubtreeDepth | huffman.cpp:13-21 | a path that reaches a node is no longer than the tree's height |
| HuffmanTree.LeafPathsPrefixFree | huffman.cpp:93-99 | a path to a leaf is never a proper prefix of another path to a leaf, and equal paths end at the same character |
| CodeTable.LevelSound | huffman.cpp:93-99 | every queued entry at depth d carries a path of length d that leads to its node |
| CodeTable.LevelComplete | huffman.cpp:93-99 | every node of the tree is queued with its path, at the level of its depth |
| CodeTable.LevelSplit | huffman.cpp:97-99 | the left child is pushed before the right, so each level lists the left subtree's nodes before the right's |
| CodeTable.BfsMembers | huffman.cpp:84-108 | the breadth-first walk visits exactly the nodes of the tree, each with its path |
| CodeTable.TableOfFirst | huffman.cpp:101 | `insert` keeps the first value: a character is in the table exactly when a visited leaf carries it, and then its code is the path of the first such leaf |
| CodeTable.BuildLookupTable | huffman.cpp:82-111 | the queue-draining loop yields the table of breadth-first order |
| CodeTable.CodeTableCorrect | huffman.cpp:82-111 | the table has a code exactly for each leaf character. That code is a root-to-leaf path to a leaf carrying it (length = depth), namely the first such leaf in breadth-first order. With an internal root no code is empty, and no character's code is a prefix of another's |
| Codec.EncodeAppend | huffman.cpp:113-122 | encoding a concatenation is the concatenation of the encodings |
| Codec.MissingSymbol | huffman.cpp:117 | a character missing from the table contributes no bits |
| Codec.Encode | huffman.cpp:113-122 | the result is the concatenation of the codes of the input in order. The caller's table comes back with an empty code for every input character it lacked, and is otherwise unchanged |
| Codec.Walk | huffman.cpp:124-145 | a found character comes with a position inside the bits, and past the start when the root is internal |
| Codec.WalkFinds | huffman.cpp:124-145 | the walk yields c and stops at next exactly when the bits it consumed are a root-to-leaf path to a leaf carrying c |
| Codec.WalkExhausts | huffman.cpp:133-135 | the walk runs out of bits exactly when the remaining bits lead to an internal node |
| Codec.CodeLookup | huffman.cpp:124-145 | the descent loop returns the walk's outcome: the character and the advanced iterator, or "No more bits" |
| Codec.Decode | huffman.cpp:148-162 | the loop collects one walk after another until a walk runs out of bits |
| Codec.KnownAll | huffman.cpp:117 | when every character of the input has an entry in the table, the characters the table knows are the whole input; DecodeEncode uses this to conclude decode(encode(s)) == s |
| Codec.DecodeEncoded | huffman.cpp:113-162 | decoding bits that start with an encoding yields the input's characters that the table has (Known), in order, then the decoding of whatever follows |
| Codec.DecodeEncode | huffman.cpp:82-162 | with the table of an internal root, decode(encode(s)) is s less the characters the table lacks, and s itself when every character of s is in the tree |
| Codec.DecodeDropsTail | huffman.cpp:152-159 | an incomplete path after the encoding is discarded silently |
| Codec.CodecRoundTrip | huffman.cpp:34-231 | count, build the tree (two or more distinct characters), derive the table, encode, pack, unpack, decode: the input comes back, whatever constant excess the counts carry |
| BitPack.ShiftIsMask | huffman.cpp:195 | the mask of offset k is 1 shifted left by k |
| BitPack.ShiftReadsBit | huffman.cpp:220 | shifting right by k and keeping bit 0 reads bit k |
| BitPack.HeaderValue | huffman.cpp:187-190 | the header byte written for n hanging bits converts back to n, as `packed[0]` is read at line 217 |
| BitPack.ByteOfBits | huffman.cpp:192-201 | bit k of the byte built from up to eight bits is bit k of the group, and 0 past its end |
| BitPack.Packed | huffman.cpp:187-204 | the header and the first m data bytes: length 1 + m and header first |
| BitPack.Pack | huffman.cpp:183-207 | the packed form has length 1 + ceil(n / 8) and header byte n mod 8 |
| BitPack.PackedBit | huffman.cpp:192-204 | bit i of the vector is bit i mod 8 of byte 1 + i / 8, and the padding bits of the last byte are 0 |
| BitPack.PackEmpty | huffman.cpp:187-190 | the empty vector packs to the single byte 0 |
| BitPack.PackedBits | huffman.cpp:183-222 | unpacking the data bytes of a packed vector gives the vector followed by zero padding |
| BitPack.UnpackBit | huffman.cpp:218-228 | every position below 8 bits per data byte, less the trimmed padding, is in the unpacked vector, and bit i there is bit i mod 8 of data byte i / 8 |
| BitPack.UnpackLength | huffman.cpp:212-228 | unpacking fails exactly on the empty string and on one non-zero byte. A single 0 byte is the empty vector. Otherwise the vector has 8 bits per data byte less 8 - n when the header n is not 0 |
| BitPack.PackRoundTrip | huffman.cpp:183-231 | unpacking the packed form of any vector gives it back |
| BitPack.BitvecToString | huffman.cpp:183-207 | the packing loop produces the packed form |
| BitPack.StringToBitvec | huffman.cpp:209-231 | the unpacking loop produces the unpacked form, and the failures of the source's assertions |

## Left out

- Debug output is left out: `print_tree` (huffman.cpp:59-78), `hexdump` (huffman.cpp:233-252) and the trace `build_lookup_table` writes with `cout` (huffman.cpp:102-106). They are console I/O with no effect on results.
- Memory management is left out: the recursive destructor and the lone leaf leaked when `build_tree` returns NULL. The tree is a value here.
- Huffman optimality (minimum weighted path length) is not modelled; the code never relies on it. Only greedy selection of the two lightest nodes is proved.
- TreeBuilder.MinIndex: fixes the tie rule "first minimum in heap order". `std::priority_queue` may break ties differently, so codes can differ bit for bit from a real run.
- TreeBuilder.BuildTree: weights are unbounded naturals. This leaves out the conversion of the `unsigned` count to the `int cfreq` field when a leaf is made (huffman.cpp:40), and signed `int` overflow, which is undefined behaviour, in the sum `l->cfreq + r->cfreq` (huffman.cpp:51).
- BitPack.BitvecToString: the loop counter is unbounded. The source's `unsigned i` (huffman.cpp:193) is compared with the `size_t` `bitvec.size()`, so a vector of 2^32 or more bits makes `i` wrap to 0 and the loop never ends. The model's loop always terminates, and PackRoundTrip holds for vectors of any length.
- FreqTable.MakeFreqTable: counts are unbounded naturals, without `unsigned` overflow. The loop counter is unbounded too: the source's `unsigned i` (huffman.cpp:168) is compared with the `size_t` `inp.size()`, so an input of 2^32 or more characters (where `size_t` is wider) makes `i` wrap to 0 and the loop never ends. The model's loop always terminates.
- Platform signedness of `char` is not modelled: characters and bytes are 0..255. So the map's key order is that of unsigned characters, and the header byte is read as 0..255.
- BitPack.StringToBitvec: assumes assertions are enabled. The empty string and a single non-zero byte return None where the `assert`s at huffman.cpp:212 and 214 fail. Built with NDEBUG, a single non-zero byte would return the empty vector (line 215), and an empty string would reach `packed.begin() + 1` (line 218), which is undefined behaviour.
- BitPack.StringToBitvec: requires a header of at most 8 when there are data bytes. With a larger header the source computes `8 - nbits` in unsigned arithmetic and pops more bits than it holds, which is undefined behaviour. Where `char` is signed, a header byte of 128..255 is read as a huge `nbits`, and `8 - nbits` wraps to 264 minus the byte. That case is left out with the signedness of `char` (see the line on signedness above).
- BitPack.Unpack: carries the same requirement as StringToBitvec.
- Codec.Decode: requires an internal root. With a leaf root `code_lookup` consumes no bits and `decode` never terminates.
- Codec.DecodeFrom: requires an internal root, for the same reason as Codec.Decode.
- BitPack.Mask, BitPack.Header: the shift `bitvec[i] << boff` and the casts between `char`, `unsigned` and `size_t` are rendered as table lookups on bytes. They are equated to the shifts by ShiftIsMask, ShiftReadsBit and HeaderValue.
- A NULL tree is not modelled as an input of `build_lookup_table`, `code_lookup` or `decode`; the source dereferences it.

## Findings

| source | as written | input that shows it | evidently intended | confidence | as-written member | corrected member |
|---|---|---|---|---|---|---|
| huffman.cpp:169-172 | a new character is inserted with count 1 and then incremented, so every count is occurrences + 1 | "aa" gives [('a', 3)] | the count of each character is its number of occurrences, [('a', 2)] | high, not executed | FreqTable.MakeFreqTable, FreqTable.FreqOffByOne | FreqTable.MakeFreqTableExact |

The excess does not break the codec: Codec.CodecRoundTrip holds for tables
with any constant excess, including the exact one. Only the weights, and so
the shape of the tree, change.
