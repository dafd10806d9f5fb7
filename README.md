# Huffman code tree

A model of the `HuffmanTree` class of a Huffman-coding program. The tree is
built from a frequency table (symbol to count) by the greedy Huffman
construction:

- one leaf per symbol goes into a min-priority forest;
- while more than one tree remains, the two lightest trees are taken out and
  merged under a new internal node (the first taken out on the left) whose
  weight is the Java `int` sum of theirs, and the merge is put back;
- the last tree is the root.

`decodeChar` reads a bit string one character at a time as a decimal digit.
It walks left on 0 and right on any other digit. It throws a decode error
when the node it ends on has the key `'\0'`, which is the key internal nodes
carry; otherwise it returns that node's key. `lookup` searches the tree
depth-first, left subtree first, and returns the path to the first leaf that
holds the symbol (`'0'` for a left turn, `'1'` for a right one).

Modules:

- `JavaInt` (`java_int.dfy`): Java's 32-bit `int` and its wrapping `+`.
- `CodeTree` (`code_tree.dfy`): the nodes and the shape predicates. Also the
  walk along a digit path, with its lemmas. A node is tagged as a `Leaf` or an
  `Internal` node, instead of carrying the `'\0'` key the source gives internal
  nodes.
- `Forests` (`forest.dfy`): the priority queue of trees, as a class holding
  a multiset, and the comparator that orders it.
- `Huffman` (`huffman_tree.dfy`): the `HuffmanTree` class. This covers its
  constructor, `DecodeChar` and `Lookup`, the specification functions `Decode`
  and `LookHelper`, and the properties of encoding and decoding.

A built tree keeps `Valid()`:

- its leaves carry each symbol of the table exactly once, weighing that
  symbol's count;
- every internal node weighs the wrapped sum of its children, and its left
  child is no heavier than its right;
- the exact leaf total is the table's total.

## Model

| member | source | states |
|---|---|---|
| JavaInt.Add | src/HuffmanTree.java:82 | Java `int` addition: the exact sum when it fits in 32 bits, and always congruent to it modulo 2^32 |
| JavaInt.WrapAdd | src/HuffmanTree.java:82 | wrapping after each addition gives the same result as wrapping the exact sum once |
| Forests.Compare | src/HuffmanTree.java:53-63 | the comparator returns -1 or 1, and is negative exactly when the first node's count is strictly smaller |
| Forests.LightestExists | src/HuffmanTree.java:79-80 | a non-empty forest always has a tree that no other tree comes before, so `delete` always has an answer |
| Forests.ForestSymbolsRemove | src/HuffmanTree.java:79-80 | removing any one tree from the forest removes exactly that tree's symbols |
| Forests.ForestSumRemove | src/HuffmanTree.java:79-80 | removing any one tree from the forest removes exactly that tree's leaf total |
| Forests.Forest.constructor | src/HuffmanTree.java:65 | the new forest is empty |
| Forests.Forest.Size | src/HuffmanTree.java:77 | returns the number of trees in the forest |
| Forests.Forest.Insert | src/HuffmanTree.java:74 | the forest gains exactly the inserted tree |
| Forests.Forest.Delete | src/HuffmanTree.java:79-80 | removes and returns a tree that no other tree comes before under the comparator; nothing else leaves the forest |
| CodeTree.WalkAppend | src/HuffmanTree.java:110-117 | walking `p + q` is walking `p`, then `q` from where `p` stopped; a walk that ran past a leaf stays failed |
| CodeTree.KeyAtInSymbols | src/HuffmanTree.java:119-124 | a leaf reached by a walk holds one of the tree's symbols |
| CodeTree.WalkedLeafWeight | src/HuffmanTree.java:74 | a leaf reached by a walk holds a table symbol and weighs that symbol's count |
| CodeTree.WeightIsWrappedLeafSum | src/HuffmanTree.java:82 | a node's weight is its leaves' exact total, wrapped to a Java `int` |
| CodeTree.SymbolsCount | src/HuffmanTree.java:26-28 | every tree has a leaf, and an internal node has at least two |
| Huffman.FirstNonDigit | src/HuffmanTree.java:104-106 | returns the position of the first character that is not a decimal digit; everything before it is a digit |
| Huffman.ParsePath | src/HuffmanTree.java:104-106 | parsing succeeds exactly when every character is a decimal digit, giving one digit per character, each the value of its character (`'0'` is 0, ..., `'9'` is 9); otherwise the failure names the first non-digit character |
| Huffman.Decode | src/HuffmanTree.java:101-126 | a decoded symbol is one of the tree's symbols and the input was all digits; on failure, a digit string gives DecodeError and anything else gives NumberFormatError |
| Huffman.HuffmanTree.DecodeChar | src/HuffmanTree.java:101-126 | the two loops (parse each character, then walk one step per digit) compute `Decode` of the root |
| Huffman.LookHelper | src/HuffmanTree.java:150-168 | finds a path exactly when the symbol is on a leaf below `n`; the path extends `path` by 0/1 turns that lead to a leaf holding the symbol |
| Huffman.StepDown | src/HuffmanTree.java:154-158 | from an internal node, a code word's first character picks the child (`'0'` left, `'1'` right), and its tail is walked from there |
| Huffman.HuffmanTree.Lookup | src/HuffmanTree.java:137-148 | succeeds exactly when a leaf holds the symbol, and otherwise fails with EncodeError for it; the code word is made of 0s and 1s and leads to a leaf holding the symbol |
| Huffman.SeedStep | src/HuffmanTree.java:73-74 | inserting the next symbol's leaf keeps the seeding invariant: symbols and counts are split between the forest and the symbols not yet visited |
| Huffman.SeedingDone | src/HuffmanTree.java:72-77 | after the seeding loop the forest is non-empty and carries every symbol once, with the table's total |
| Huffman.PlantLeaves | src/HuffmanTree.java:72-75 | the seeding loop leaves exactly as many trees as the table has symbols; every tree is a leaf holding a table symbol and weighing its count, every symbol's leaf is present, and the forest meets the merge invariant |
| Huffman.MergeStep | src/HuffmanTree.java:79-83 | merging the lightest tree with the next one keeps the merge invariant (symbols, total, weights, lighter child on the left), and the forest shrinks by one |
| Huffman.MergeKeepsSymbols | src/HuffmanTree.java:79-83 | a merge step keeps the forest's symbols |
| Huffman.MergeKeepsSum | src/HuffmanTree.java:79-83 | a merge step keeps the forest's exact leaf total |
| Huffman.MergeKeepsShape | src/HuffmanTree.java:79-83 | the merged node weighs the wrapped sum of its children, and its left child is no heavier than its right |
| Huffman.MergingDone | src/HuffmanTree.java:88 | the last tree carries every table symbol once, with the table's total and a root weight equal to that total wrapped |
| Huffman.MergeLightest | src/HuffmanTree.java:77-88 | the merge loop ends with one tree, which it removes and returns; that tree carries the whole table and the forest is left empty |
| Huffman.HuffmanTree.constructor | src/HuffmanTree.java:52-91 | the built tree is valid for the given table: each symbol on exactly one leaf with its count, weights as Java `int` sums, the lighter child on the left, and a root weight equal to the total wrapped |
| Huffman.RoundTrip | src/HuffmanTree.java:101-168 | every symbol of the tree has a code word, and decoding it gives the symbol back |
| Huffman.LeafPathsPrefixFree | src/HuffmanTree.java:108-124 | two 0/1 strings that both end on a leaf are equal when one is a prefix of the other |
| Huffman.PrefixFree | src/HuffmanTree.java:150-168 | the code word of one symbol is never a prefix of another symbol's code word |
| Huffman.CodeUnique | src/HuffmanTree.java:150-168 | when no symbol is on two leaves, a symbol is reached by only one 0/1 path |
| Huffman.DecodeThenLookup | src/HuffmanTree.java:101-168 | when no symbol is on two leaves, a 0/1 string that decodes to a symbol is that symbol's code word |
| Huffman.DecodeShortFails | src/HuffmanTree.java:119-121 | a proper prefix of a code word ends on an internal node and gives DecodeError |
| Huffman.DecodeLongFails | src/HuffmanTree.java:110-121 | a code word followed by more digits runs past its leaf and fails |
| Huffman.DecodeTurn | src/HuffmanTree.java:110-117 | from an internal node, a leading `'0'` decodes the rest in the left subtree and any other digit in the right one |
| Huffman.BuiltAlphabet | src/HuffmanTree.java:72-75 | a built tree has no symbol on two leaves; its leaf symbols are exactly the table's, as many as the table's entries |
| Huffman.CodeLeadsToCount | src/HuffmanTree.java:74 | each table symbol's code word leads to its leaf, which weighs its count |
| Huffman.RootWeight | src/HuffmanTree.java:82-88 | the root weighs the table's total wrapped to a Java `int`, and the exact total when that fits |
| Huffman.SingleSymbol | src/HuffmanTree.java:77-88 | a one-symbol table gives a single leaf: the code word is empty and the empty string decodes to the symbol |
| Huffman.EmptyCodeFails | src/HuffmanTree.java:119-121 | with two or more symbols, the empty string gives DecodeError |
| Huffman.DecodeAsWritten | src/HuffmanTree.java:108-124 | the decoder as written never returns `'\0'`, and when it succeeds it agrees with `Decode` |
| Huffman.SentinelBreaksRoundTrip | src/HuffmanTree.java:119-121 | as written, a `'\0'` symbol's code word gives DecodeError, though it leads to that symbol's leaf |
| Huffman.OverrunDereferencesNull | src/HuffmanTree.java:110-117 | as written, a code word followed by more digits dereferences a null child instead of giving DecodeError |
| Huffman.DecodersAgree | src/HuffmanTree.java:108-124 | away from a `'\0'` symbol and from walks past a leaf, the decoder as written and `Decode` agree |

## Left out

- The priority queue (`Heap`, `PriorityQueue`) is not part of this model. The forest keeps only what the construction relies on: `delete` returns a tree that no other tree comes before under the comparator. Among trees of equal count, the choice is left open.
- `FrequencyTable` is not part of this model. It is a map from symbols to Java `int` counts. The order in which its key set is visited is left open.
- The exact tree shape and the exact bit patterns depend on the heap's tie-breaking and on the set's order, so they are not modelled. What every such tree satisfies is modelled instead.
- Huffman optimality (minimal weighted code length) is promised only in the class comment, so it is not proved.
- Huffman.HuffmanTree.constructor: requires a non-empty table. With no symbols the source's merge loop deletes from an empty heap, whose behaviour is outside this model.
- Huffman.ParsePath: treats only ASCII `'0'`..`'9'` as digits. `Integer.parseInt` also accepts other Unicode decimal digits.
- Huffman.Decode: differs from the source in two cases (see Findings). A walk that runs past a leaf gives DecodeError, the documented behaviour, where the source dereferences null. A path ending on a leaf for `'\0'` gives `'\0'`, where the source throws DecodeException. `Huffman.DecodeAsWritten` models the code as written in both cases.
- Huffman.HuffmanTree.DecodeChar: computes `Huffman.Decode`, so it differs from the source in the same two cases. It also stops walking as soon as the path runs past a leaf. The source keeps stepping until the null dereference, and the outcome is a failure either way.
- Symbols are Dafny `char`s, which are Unicode scalar values; a Java `char` is a UTF-16 code unit. A table keyed by a lone surrogate half cannot be represented, and symbols above U+FFFF can be, though Java cannot hold them in one `char`.
- `Node.toString`, `Node.isLeaf` (replaced by the `Leaf`/`Internal` tag) and the unused imports are not modelled.
- Exceptions are modelled as `Failure` results, not as thrown objects.

## Findings

| source | as written | input that shows it | evidently intended | confidence | as-written member | corrected member |
|---|---|---|---|---|---|---|
| src/HuffmanTree.java:119-121 | a node is treated as internal when its key is `'\0'`, so a leaf for the symbol `'\0'` is refused | a table with `'\0'` and `'a'`: decoding `'\0'`'s code word (`lookup('\0')`) raises DecodeException | the leaf for `'\0'` decodes to `'\0'`; a node is a leaf when it has no children | not executed | Huffman.SentinelBreaksRoundTrip | Huffman.RoundTrip |
| src/HuffmanTree.java:110-124 | a walk that runs past a leaf steps onto a null child and dereferences it, raising NullPointerException | a table with `'a'` and `'b'`: decoding `lookup('a') + "0"` | DecodeException, as the method documents for bits that match no character | not executed | Huffman.OverrunDereferencesNull | Huffman.DecodeLongFails |
