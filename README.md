# Huffman text compressor: a verified model

This project models the Huffman text compressor: the binary tree type
`CharBinTree` and the `Compression` object. The compressor runs this pipeline:

1. Count every character of the text into a sorted frequency table (`freqTable`).
2. Seed a priority queue with one leaf per character (`charQueue`).
3. Merge the two lightest trees until one remains (`createTree`).
4. Read the code table off that tree: '0' for a left step, '1' for a right step (`makePath`, `pathHelper`).
5. Write the codes of the text's characters as bits (`compressFile`).
6. Decode the bits with a cursor that walks the tree (`decompress`).

Files:

- `Wrappers.dfy`: Java `null` is `Option.None`. The exceptions are modelled per operation:
  - `equalsTree`'s `NullPointerException` is `Result.Err`.
  - In `compressFile`, the null dereference of a character without a code is `completed == false`.
  - `makePath`, `pathHelper` and `decompress` rule out the inputs on which they would throw by their preconditions (see "Left out").
- `BinTree.dfy`: the tree as a datatype with nullable label, weight and children. It holds the structural queries (`isLeaf`, `isInner`, `size`, `height`, `fringe`, `equalsTree`).
- `JavaText.dfy`: the two `java.lang.String` behaviours the pipeline relies on.
  - `split("")`: the empty text gives one empty word.
  - `compareTo`: the order in which a `TreeMap` returns its keys.
- `Coding.dfy`: the definitions the pipeline is proved against, and the lemmas about them.
  - The well-formed shape of Huffman trees.
  - The priority queue's total weight and leaves.
  - The code table.
  - The encoding.
  - The decoder's cursor machine.
- `Huffman.dfy`: the `Compression` class, with the fields `pageItems`, `treeQueue` and `codeTree`. Its methods change those fields step by step, as the Java methods do. `RoundTrip` runs the pipeline the way the program's entry point does.

The main results:

- `createTree` ends with a single tree.
  - Every inner node of that tree weighs the sum of its children.
  - Its total weight is the number of words in the text.
  - Its leaves are a permutation of the frequency table's keys.
- The code table gives each leaf's label the path down to that leaf. It is prefix-free.
- `compressFile` writes the concatenation of the codes, in text order.
- Decoding those bits returns the text.

The last result has one exception the code really has: a text of two or more copies of one character comes back as that character once. The tree is a single leaf, so its code is empty, no bits are written, and `decompress` only appends the text's last character. `Huffman.RoundTrip` proves both behaviours.

## Model

| member | source | states |
|---|---|---|
| BinTree.Leaf | compress/CharBinTree.java:19-27 | a leaf constructor stores the given label and weight and no children: a leaf of size 1, height 0, whose fringe is its label |
| BinTree.Inner | compress/CharBinTree.java:32-41 | an inner-node constructor stores exactly the given label, weight and children. The node is inner exactly when a child is given. With both children present, its size is one more than theirs and its fringe is theirs joined, left first |
| BinTree.HasLeft | compress/CharBinTree.java:66-68 | `hasLeft` holds exactly when the left child is not null |
| BinTree.HasRight | compress/CharBinTree.java:73-75 | `hasRight` holds exactly when the right child is not null |
| BinTree.IsLeaf | compress/CharBinTree.java:59-61 | `isLeaf` holds exactly when both children are absent |
| BinTree.IsInner | compress/CharBinTree.java:52-61 | `isInner` is exactly the negation of `isLeaf` |
| BinTree.Size | compress/CharBinTree.java:94-99 | the node count is at least 1, and is 1 exactly for a leaf |
| BinTree.Height | compress/CharBinTree.java:104-110 | the height is never negative and always below the node count. It is 0 exactly for a leaf |
| BinTree.Fringe | compress/CharBinTree.java:127-144 | the left-to-right leaf list has at least one entry and never more entries than the tree has nodes |
| BinTree.FringeHasOneEntryPerLeaf | compress/CharBinTree.java:127-144 | the fringe has exactly one entry per leaf |
| BinTree.AddToFringe | compress/CharBinTree.java:136-144 | appends the tree's leaves, left to right, to the accumulated list |
| BinTree.CollectFringe | compress/CharBinTree.java:127-131 | starting from an empty list yields exactly the fringe |
| BinTree.EqualsTree | compress/CharBinTree.java:115-122 | false whenever the two roots differ in which children they have. True only for identical trees. It throws only if the receiver has a null label or weight somewhere, and only when the comparison reaches it |
| BinTree.EqualsTreeIsEquality | compress/CharBinTree.java:115-122 | when the receiver has every label and weight, `equalsTree` never throws and is true exactly for identical shape, labels and weights |
| BinTree.EqualsTreeReflexive | compress/CharBinTree.java:115-122 | a fully labelled and weighted tree equals itself |
| BinTree.EqualsTreeSymmetric | compress/CharBinTree.java:115-122 | for fully labelled and weighted trees the comparison gives the same answer in both directions |
| JavaText.SplitWords | compress/Compression.java:31 | `split("")` gives one word per character, each word being that character. The empty text gives the single word "" |
| JavaText.StrLessIrreflexive | compress/Compression.java:35 | the `TreeMap` key order puts no string before itself |
| JavaText.StrLessTransitive | compress/Compression.java:35 | the key order is transitive |
| JavaText.StrLessTotal | compress/Compression.java:35 | of two different strings, one comes first |
| JavaText.LeastKeyExists | compress/Compression.java:59-60 | every non-empty key set has a first key in that order, which iteration visits first |
| JavaText.AscendingIsDistinct | compress/Compression.java:59-60 | keys visited in ascending order are pairwise distinct |
| Coding.HuffmanShapedIsFullAndLabelled | compress/Compression.java:66-76 | every tree the queue holds has, at every node, no child or two children, and a label at every leaf |
| Coding.FullInnerHasTwoLeaves | compress/Compression.java:66-76 | a tree whose root was made by a merge has at least two leaves |
| Coding.LightestExists | compress/Compression.java:12 | a non-empty queue ordered by weight has a tree that weighs no more than any other, which `remove()` can return |
| Coding.TakeLightest | compress/Compression.java:69-71 | removing a lightest tree leaves a well-shaped queue one shorter. The queue loses that tree's weight from its total and that tree's leaves from its leaves |
| Coding.MergeInto | compress/Compression.java:68-74 | one round takes out two trees and adds their merge. The queue stays well shaped and keeps its total weight and its multiset of leaves |
| Coding.MergedNode | compress/Compression.java:72 | the merged node is well shaped and weighs the sum of its children. Its leaves are the first tree's followed by the second's |
| Coding.CountSumIsWordCount | compress/Compression.java:30-51 | over distinct keys that cover every word, the per-key counts add up to the number of words |
| Coding.SeededQueue | compress/Compression.java:54-64 | seeding adds one leaf per key. This adds the number of words to the queue's total weight and the keys to its leaves |
| Coding.Codes | compress/Compression.java:88-98 | the table `pathHelper` builds from a starting path is never empty: every tree has a leaf, and every leaf writes an entry |
| Coding.CodesKeys | compress/Compression.java:88-98 | the code table has an entry for exactly the labels on the fringe |
| Coding.CodesFollowLeafPaths | compress/Compression.java:88-98 | every code is the starting path followed by '0'/'1' steps leading down to a leaf with that label |
| Coding.LeafPathIsCode | compress/Compression.java:88-98 | with distinct leaf labels, each label's code is exactly the path down to its leaf |
| Coding.PermutedKeysDistinct | compress/Compression.java:54-76 | the tree `createTree` builds from an empty queue, whose leaves are a permutation of the ascending keys, has pairwise distinct leaf labels |
| Coding.BuiltTreeCodes | compress/Compression.java:78-98 | for that tree, each leaf's label is mapped to exactly the path down to that leaf |
| Coding.CodesPrefixFree | compress/Compression.java:78-98 | no code in the table is a prefix of another label's code |
| Coding.LeafPathDepth | compress/Compression.java:88-98 | a code is as long as its leaf is deep. It is never longer than the tree's height, and at least one bit when the root is an inner node |
| Coding.Encode | compress/Compression.java:100-109 | the bits for a text: none for the empty text, and at least one bit per character when no code is empty |
| Coding.EncodeConcat | compress/Compression.java:100-109 | the bits of a text are the bits of its first part followed by the bits of the rest |
| Coding.EncodeWithEmptyCodes | compress/Compression.java:100-109 | when every code is empty, as for a one-leaf tree, no bit is written |
| Coding.Written | compress/Compression.java:118-121 | a cursor on a leaf writes that leaf's label when a bit arrives; a cursor on an inner node writes nothing |
| Coding.Run | compress/Compression.java:115-130 | the decoder loop over the bits writes nothing when there are no bits |
| Coding.RunWritesOnePerBit | compress/Compression.java:115-130 | with labels of at most one character, the loop writes at most one character per bit |
| Coding.Next | compress/Compression.java:118-129 | the cursor after a bit stays inside a full tree with labelled leaves (and with short labels, if both trees have them), so no null child is dereferenced |
| Coding.RunFrom | compress/Compression.java:115-130 | each round of the decoder loop writes what the cursor stands on and continues from the next cursor |
| Coding.WalkToLeaf | compress/Compression.java:115-130 | following a leaf's code from the root writes nothing until the next bit. Then it writes that leaf's label and starts again from the root |
| Coding.DecodeEncoded | compress/Compression.java:113-130 | on the bits of a text whose codes are leaf paths of a tree with an inner root, the loop writes every character except the last |
| Huffman.Compression.constructor | compress/Compression.java:11-28 | the object holds the given text, an empty queue and a placeholder code tree whose label and weight are null |
| Huffman.Compression.FreqTable | compress/Compression.java:30-51 | the table's keys are exactly the words of the text. Each key is mapped to its number of occurrences, which is at least 1 |
| Huffman.Compression.CharQueue | compress/Compression.java:54-64 | the queue gains one leaf per key of the table, in ascending key order, each weighted by that key's count |
| Huffman.Compression.RemoveLightest | compress/Compression.java:69-71 | takes out some tree of least weight. The queue shrinks by that tree and loses its weight and its leaves |
| Huffman.Compression.CreateTree | compress/Compression.java:66-76 | ends with exactly one well-shaped tree. It weighs the former total plus the number of words, and its leaves are the former leaves plus one per key. From an empty queue its leaf labels are distinct |
| Huffman.Compression.MakePath | compress/Compression.java:78-86 | removes the lightest tree, which after `createTree` empties the queue, and keeps it as the code tree. Returns that tree's code table, built from the empty path |
| Huffman.Compression.PathHelper | compress/Compression.java:88-98 | adds the codes of the subtree to the table, later entries overriding earlier ones. A leaf gets the path so far, so a one-leaf tree gets the empty code |
| Huffman.Compression.CompressFile | compress/Compression.java:100-111 | writes exactly the codes of the text's characters in order, '1' as true. The write is complete exactly when every character has a code; otherwise it stops at the first character without one |
| Huffman.Compression.Decompress | compress/Compression.java:113-134 | writes what the cursor machine writes on the bits, from the given tree and resetting to the code tree. Then, for a non-empty text, it writes the text's last character |
| Huffman.RoundTrip | compress/Compression.java:145-155 | decompressing the compressed text gives the text back when it is empty, a single character, or has two different characters. A longer text of one repeated character gives that character once |
| Huffman.PipelineOutcome | compress/Compression.java:131 | what the tree, table, encoder and decoder promise together yields the round trip, including the appended last character |
| Huffman.CharsHaveLeafPaths | compress/Compression.java:103 | every character of the text has a code, and that code is the path to its leaf. Conversely, the path to any leaf is the code of that leaf's label |
| Huffman.OneLeafText | compress/Compression.java:66-76 | a one-leaf tree comes only from a text of one repeated character |
| Huffman.InnerRootText | compress/Compression.java:66-76 | a tree whose root is an inner node comes only from a text with two different characters |

## Left out

- Reading the input: the `BufferedReader` loop in the constructor, `readIntoString` and both `main` methods. The text is given directly as a string.
- Stream `close()` calls and `EOFException` handling are also left out.
- `BufferedBitWriter` and `BufferedBitReader` are not part of this model. The bits written and read are a `seq<bool>`, consumed in order with no padding.
- `java.util.PriorityQueue` breaks ties between equal weights in its own way.
  - The queue is a sequence.
  - `remove()` takes out some tree of least weight, chosen nondeterministically.
  - All proofs hold for any such choice.
- `traverse`, `toString` and `toStringHelper` print or format the tree and are left out.
- `parseNewick` is test-only code that no compression step uses, and is left out.
- `copyToDepth` and `copyHelper` are not used by the pipeline and depend on aliasing the original's children, so they are left out.
- The static `page` field and the generic parameter `E` carry no logic.
- Java `int`/`Integer` overflow is not modelled. Weights sum to at most the text length, which a Java string keeps below 2^31.
- Characters are Dafny `char`s. UTF-16 surrogate pairs are not split apart as `split("")` would split them.
- Huffman.Compression.FreqTable: a Dafny map has no key order. The `TreeMap`'s ascending iteration is stated in `CharQueue` through the order of the keys it returns.
- Huffman.Compression.CharQueue: the source calls `freqTable()` again for every key. The model calls it once, which gives the same counts because the text does not change.
- BinTree.AddToFringe passes its list in and returns it. This stands for the shared `ArrayList`, of which no other alias is observed.
- Huffman.Compression.PathHelper passes its table in and returns it. This stands for the shared `Map`, of which no other alias is observed.
- Huffman.Compression.MakePath requires a non-empty queue. On an empty queue the source throws `NoSuchElementException`, which the program never reaches.
- Huffman.Compression.Decompress requires the code tree and the start tree to be full and to have labelled leaves.
  - The program's only call (line 155) passes the code tree from `makePath`, which `MakePath` proves full with labelled leaves.
  - On other trees the source may or may not throw.
  - A step into a missing child is only dereferenced on the next round (line 118), so e.g. a tree without a right child fed only `false` bits runs without error.
  - An unlabelled leaf fails in `finalText.write(null)` at line 119.
- Huffman.Compression.PathHelper requires every leaf to carry a label. On an unlabelled leaf the source's `TreeMap.put` throws on the null key.
- Huffman.Compression.Decompress: the source's test `pageItems != ""` compares references. It behaves as an emptiness test, because the constructor leaves the literal `""` only when nothing was read. The model tests for emptiness.
