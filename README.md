# Huffman-Compress in Dafny

A Dafny model of the Huffman pipeline of the Java program Huffman-Compress,
with proofs about it. The pipeline works like this:

- `HuffmanCompressor` counts the characters of a text file (`makeKeyMap`).
- It puts one leaf tree per distinct character into a priority queue ordered
  by `TreeComparator` (`fillQueue`).
- It merges the two lightest trees until one is left (`makeSingleTree`).
- It gives every character the path to its leaf as a string of `0`s and `1`s
  (`makeCharCodes`).
- `compress` writes those codes as bits, and `decompress` walks the tree bit
  by bit to write the characters back.
- The trees are the generic `BinaryTree` container. Its node payload is
  `CharFreq`: a character, or none for an internal node, plus a frequency.

Files and modules, one per part of the program:

| file | module | models |
|---|---|---|
| `wrappers.dfy` | `Wrappers` | `Option`, standing for null results and thrown exceptions |
| `binary_tree.dfy` | `BinaryTrees` | BinaryTree.java: queries, traversals into a list, reconstruction |
| `char_freq.dfy` | `CharFreqs` | CharFreq.java: constructors, getters, `toString` |
| `tree_comparator.dfy` | `TreeComparators` | TreeComparator.java |
| `frequency_counting.dfy` | `FrequencyCounting` | the counts `makeKeyMap` builds, and listings of the map's keys |
| `huffman_trees.dfy` | `HuffmanTrees` | Huffman-tree invariants and the queue's weight and characters |
| `huffman_codes.dfy` | `HuffmanCodes` | the code table, the encoder and the decoder, as functions |
| `compressor.dfy` | `Compressor` | the `HuffmanCompressor` class, its loops, and `main`'s round trip |

How the Java is represented:

- **Trees are values.** `BinaryTree<E>` is `Nil | Node(left, data, right)`, and a null child is `Nil`.
- **The traversals are methods.** `preorder`, `inorder`, `postorder` and `addToFringe` append to a `DataList` (a class with a `seq` field). Each is proved to append the matching traversal function's result.
- **`reconstructTree`** is a method whose iterator-driven loops copy the slices of both lists. It is proved equal to the function `Reconstruct`, which gives `None` where the Java iterators would throw.
- **`HuffmanCompressor`** is a class:
  - The input file is the constant `input`, read in full by every pass.
  - The fields are `charsAndFreqs` (a map), `minPQ` (a sequence) and `charCodes` (a map).
  - The compressed file is the bit sequence `Compress` returns and `Decompress` takes.
  - A removal from the queue takes any tree of least root frequency.
  - The order in which `fillQueue` visits the map's keys is a ghost out-parameter `order`, because `HashMap` order is unspecified.

The main results:

- The counts are the numbers of occurrences, and they sum to the input length.
- Each merge round keeps the queue's total weight and its multiset of characters, and shrinks the queue by one.
- A fresh compressor's final tree is a Huffman tree with one leaf per distinct character, and it weighs the input length.
- The code table is prefix-free.
- Decoding the bits `compress` writes gives back the input, both for the one-character special case and in general (`Compressor.CompressThenDecompress`).
- Reconstructing a tree from its preorder and inorder traversals gives the tree back when no value repeats.

One point about the Java:

- **`code == ""` in makeCharCodes** (HuffmanCompressor.java:95) compares references. It is true only on the root call, which passes the literal `""`. Every deeper call passes a fresh, non-empty string. So the model tests for the empty string.

## Model

| member | source | states |
|---|---|---|
| `BinaryTrees.MakeLeaf` | BinaryTree.java:22-26 | the leaf constructor stores the data and leaves both children absent |
| `BinaryTrees.IsLeaf` | BinaryTree.java:47-49 | a node is a leaf exactly when its subtree is the node alone |
| `BinaryTrees.IsInternal` | BinaryTree.java:40-49 | a node is internal exactly when it is not a leaf |
| `BinaryTrees.Size` | BinaryTree.java:113-115 | a node's subtree has at least one node |
| `BinaryTrees.Height` | BinaryTree.java:120-125 | the height is at most the size minus one |
| `BinaryTrees.Equals` | BinaryTree.java:130-140 | trees that compare equal are both present, hold the same data and have the same size |
| `BinaryTrees.EqualsIsEquality` | BinaryTree.java:130-140 | structural `equals` holds exactly when the two trees are the same value |
| `BinaryTrees.EqualsReflexive` | BinaryTree.java:130-140 | every tree `equals` itself |
| `BinaryTrees.LeavesBounds` | BinaryTree.java:145-163 | a tree's fringe has at least one element and no more than its size |
| `BinaryTrees.AddToFringe` | BinaryTree.java:154-163 | addToFringe appends the leaves' data, left to right, after the list's earlier contents |
| `BinaryTrees.Fringe` | BinaryTree.java:145-149 | fringe returns exactly the leaves' data, left to right |
| `BinaryTrees.AddPreorder` | BinaryTree.java:200-206 | preorder appends the node, then the left and right subtrees' preorders, keeping the earlier contents |
| `BinaryTrees.AddInorder` | BinaryTree.java:213-219 | inorder appends the left subtree's inorder, the node, then the right subtree's, keeping the earlier contents |
| `BinaryTrees.AddPostorder` | BinaryTree.java:226-232 | postorder appends both subtrees' postorders, then the node, keeping the earlier contents |
| `BinaryTrees.TraversalLengths` | BinaryTree.java:200-232 | each traversal lists exactly `size` values |
| `BinaryTrees.TraversalsSameValues` | BinaryTree.java:200-232 | the three traversals hold the same multiset of values |
| `BinaryTrees.SetLeft` | BinaryTree.java:83-85 | setLeft replaces the left child and keeps the data and the right child |
| `BinaryTrees.SetRight` | BinaryTree.java:91-93 | setRight replaces the right child and keeps the data and the left child |
| `BinaryTrees.SetValue` | BinaryTree.java:106-108 | setValue replaces the data and keeps both children |
| `BinaryTrees.ReconstructTree` | BinaryTree.java:242-286 | the loop method returns what `Reconstruct` defines: empty lists give null, failed iterator reads give `None` |
| `BinaryTrees.CopyLeftPart` | BinaryTree.java:252-263 | the first loop succeeds exactly when the root occurs in the inorder list before position `|pre|`; it then stops at the root's first inorder position with the left parts copied, and its failure means `reconstructTree` throws |
| `BinaryTrees.CopyRightPart` | BinaryTree.java:272-275 | the second loop copies the rest of both lists, and fails exactly when the inorder list is shorter |
| `BinaryTrees.ReconstructFails` | BinaryTree.java:252-274 | a missing or misplaced root, or an inorder list shorter than the preorder list, makes reconstruction throw |
| `BinaryTrees.ReconstructSound` | BinaryTree.java:242-286 | any tree reconstructed has the given preorder and the matching prefix of the given inorder |
| `BinaryTrees.ReconstructInvertsTraversals` | BinaryTree.java:234-286 | for a tree with no repeated value, reconstructing from its preorder and inorder gives the tree back |
| `CharFreqs.MakeCharFreq` | CharFreq.java:11-14 | the two-argument constructor stores the character and the frequency, which the getters return |
| `CharFreqs.FreqOnly` | CharFreq.java:15-17 | the frequency-only constructor leaves the character null and stores the frequency |
| `CharFreqs.ToString` | CharFreq.java:24-29 | "c : f" with the character first for a leaf payload, the bare frequency otherwise; the number is a canonical decimal int (no leading zero, no "-0") that reads back as exactly the frequency |
| `CharFreqs.ParseIntToString` | CharFreq.java:26-28 | the decimal rendering of an integer reads back as that integer |
| `CharFreqs.ParseIntCanonical` | CharFreq.java:26-28 | a string that reads back as an integer is that integer's rendering, so the rendering is fixed character by character |
| `CharFreqs.NatToStringParse` | CharFreq.java:26-28 | every numeral without a leading zero is the rendering of the number it denotes |
| `CharFreqs.SpaceMarksLeaf` | CharFreq.java:24-29 | the rendering contains a space exactly when the payload has a character |
| `CharFreqs.ToStringInjective` | CharFreq.java:24-29 | different payloads render differently |
| `TreeComparators.Compare` | TreeComparator.java:10-17 | -1 exactly for a smaller root frequency; 0 only for the same Integer object; 1 for a greater frequency or equal values in different objects |
| `TreeComparators.CompareDependsOnlyOnRootFrequencies` | TreeComparator.java:10-17 | the result depends only on the two roots' frequencies |
| `TreeComparators.CompareAntisymmetric` | TreeComparator.java:11-16 | for different frequencies, swapping the arguments negates the result |
| `TreeComparators.EqualIsNotLess` | TreeComparator.java:11-16 | equal frequencies never compare as less, either way round |
| `FrequencyCounting.Bump` | HuffmanCompressor.java:35-43 | one step of the scan adds the character as a key and raises its count by one, or starts it at 1, leaving every other count alone |
| `FrequencyCounting.TallyCounts` | HuffmanCompressor.java:29-45 | after a scan, the keys are the old keys plus the characters read, and each count grew by that character's occurrences |
| `FrequencyCounting.CountsFromEmpty` | HuffmanCompressor.java:29-45 | from an empty map, the keys are exactly the characters read, and each count is its number of occurrences (so at least 1) |
| `FrequencyCounting.CountsSumToLength` | HuffmanCompressor.java:29-45 | the counts of all keys add up to the length of the input |
| `FrequencyCounting.EnumerationSize` | HuffmanCompressor.java:59 | a list visiting each key once has as many elements as the map has keys |
| `HuffmanTrees.LeafTree` | HuffmanCompressor.java:60-61 | fillQueue's leaf holds the character and its count, with no children |
| `HuffmanTrees.MergeTrees` | HuffmanCompressor.java:78 | the merged node has no character, the first tree on the left and the second on the right, the sum of their frequencies, and their characters, and it keeps the shape invariants |
| `HuffmanTrees.WellFormedIsWalkable` | HuffmanCompressor.java:78 | a Huffman tree has at least one character, and its root is internal exactly when it has two or more |
| `HuffmanTrees.WellFormedShape` | HuffmanCompressor.java:61 | a Huffman tree has no node with one child, one leaf per character, and 2n - 1 nodes for n characters |
| `HuffmanTrees.MinExists` | HuffmanCompressor.java:74 | a non-empty queue has a tree of least root frequency for peek to return |
| `HuffmanTrees.MeasuresOfRemoveAt` | HuffmanCompressor.java:75 | removing a tree takes its weight and characters out of the queue's totals |
| `HuffmanTrees.LeafQueueAt` | HuffmanCompressor.java:59-63 | the i-th leaf added is the leaf for the i-th key visited, with that key's count |
| `HuffmanTrees.LeafQueueMeasures` | HuffmanCompressor.java:59-63 | the leaves weigh the sum of the counts, carry exactly the keys visited, and are Huffman trees |
| `HuffmanTrees.LeavesAppended` | HuffmanCompressor.java:59-63 | adding the leaves to a queue adds their weight and characters and keeps the shape invariants |
| `HuffmanTrees.MergeRound` | HuffmanCompressor.java:73-80 | one round shrinks the queue by one and keeps its total weight, its characters and the shape invariants |
| `HuffmanTrees.MergeRoundKeeps` | HuffmanCompressor.java:73-80 | one round keeps what the merge loop keeps of the queue it started from |
| `HuffmanTrees.EnumerationMultiset` | HuffmanCompressor.java:59-63 | the keys visited form each key exactly once and nothing else |
| `HuffmanCodes.CodeTable` | HuffmanCompressor.java:86-100 | every code extends the path to its subtree and is non-empty; below an internal node every code is longer than that path; a leaf reached by a non-empty path records exactly that path |
| `HuffmanCodes.LoneLeafCode` | HuffmanCompressor.java:95-96 | a lone leaf at the root gets the code "0" |
| `HuffmanCodes.CodeTableKeys` | HuffmanCompressor.java:86-100 | the table has a code for exactly the characters in the tree |
| `HuffmanCodes.CodesArePrefixFree` | HuffmanCompressor.java:86-100 | no character's code is a prefix of another character's code |
| `HuffmanCodes.EncodeSnoc` | HuffmanCompressor.java:114-131 | encoding one more character appends its code's bits |
| `HuffmanCodes.EncodeDefinedIff` | HuffmanCompressor.java:121-128 | encoding succeeds exactly when every input character has a code |
| `HuffmanCodes.BitsSnoc` | HuffmanCompressor.java:123-128 | one more code character writes 1 for '1' and 0 for anything else |
| `HuffmanCodes.DecodeBranch` | HuffmanCompressor.java:156-161 | at an internal node, reading a bit moves to the left child on 0 and to the right otherwise |
| `HuffmanCodes.DecodeBranchAtEnd` | HuffmanCompressor.java:156-161 | at an internal node, the end of the bits ends the output |
| `HuffmanCodes.DecodeEmit` | HuffmanCompressor.java:173-177 | with two or more keys, a leaf writes its character without reading and goes back to the root |
| `HuffmanCodes.DecodeEmitSingle` | HuffmanCompressor.java:165-171 | with fewer than two keys, each bit read writes the character and goes back to the root |
| `HuffmanCodes.DecodeSingleAtEnd` | HuffmanCompressor.java:165-171 | with fewer than two keys, the end of the bits ends the output |
| `HuffmanCodes.CodeDecodes` | HuffmanCompressor.java:150-180 | from the root, the bits of a character's code, then anything, decode to that character, then what the rest decodes to |
| `HuffmanCodes.DecodeEncoded` | HuffmanCompressor.java:114-180 | decoding the concatenated codes of any string over the tree's characters gives the string back |
| `Compressor.HuffmanCompressor.constructor` | HuffmanCompressor.java:12-19 | a new compressor holds the input and empty maps and queue |
| `Compressor.HuffmanCompressor.MakeKeyMap` | HuffmanCompressor.java:25-50 | the map becomes the old map with the input's characters counted in |
| `Compressor.HuffmanCompressor.FillQueue` | HuffmanCompressor.java:56-64 | after counting, exactly one leaf per key is added, in the order the keys are visited |
| `Compressor.HuffmanCompressor.Poll` | HuffmanCompressor.java:74-77 | peek and remove take out a tree of least root frequency and nothing else |
| `Compressor.MinAtByCompare` | TreeComparator.java:10-17 | the trees `Poll` may take out are exactly those no tree of the queue is less than by TreeComparator |
| `Compressor.HuffmanCompressor.MakeSingleTree` | HuffmanCompressor.java:71-81 | at most one tree is left; it carries the old weight plus the counts and the old characters plus the keys, and the shape invariants |
| `Compressor.HuffmanCompressor.MakeCharCodes` | HuffmanCompressor.java:86-100 | the table gains the codes `CodeTable` gives below the tree |
| `Compressor.HuffmanCompressor.Compress` | HuffmanCompressor.java:106-140 | no tree means no bits and no codes; otherwise the codes are the tree's table and the bits its encoding of the input |
| `Compressor.WriteCodes` | HuffmanCompressor.java:114-131 | the loop writes exactly the encoding of the input |
| `Compressor.HuffmanCompressor.Decompress` | HuffmanCompressor.java:147-188 | no tree means nothing written; otherwise the output is what walking a least tree over the bits writes |
| `Compressor.InputHasCodes` | HuffmanCompressor.java:106-121 | after the tree is built, every input character has a code, so the lookup never yields null |
| `Compressor.FreshKeys` | HuffmanCompressor.java:25-64 | from a fresh map, the keys visited number the distinct characters, and none exactly for an empty input |
| `Compressor.SingleTreeShape` | HuffmanCompressor.java:71-81 | the lone tree is a Huffman tree holding exactly the characters of the leaves added, with an internal root exactly for two of them or more |
| `Compressor.TreeDecodesInput` | HuffmanCompressor.java:106-188 | the bits written with a tree's own code table walk back to the input, in the one-character mode exactly when the root holds a character |
| `Compressor.FreshTreeWeight` | HuffmanCompressor.java:71-81 | the lone tree of a fresh compressor weighs the length of the input |
| `Compressor.FreshCompressDecodes` | HuffmanCompressor.java:106-188 | for a fresh compressor: no tree exactly for an empty input, an internal root for two or more keys, the table `{c: "0"}` for a lone character `c`, and the bits written decode to the input |
| `Compressor.LoneCharacterCode` | HuffmanCompressor.java:86-100 | with one distinct character, the table holds exactly that character with the code "0" |
| `Compressor.CompressThenDecompress` | HuffmanCompressor.java:204-210 | compressing and then decompressing gives back the input, and an empty input writes no bits (the Java `compress` then creates no compressed file at all, which its `decompress` opens before testing the queue: HuffmanCompressor.java:108-111, 148) |

## Left out

- File and stream I/O are not modelled: the readers and writers, the output-path derivation, `getFilePath` and its file-chooser dialog, and the `finally` blocks that close streams. The input is a character sequence and the compressed file a bit sequence.
- For an empty input, the Java `compress` creates no compressed file (HuffmanCompressor.java:108-111), yet `decompress` opens it before testing the queue (HuffmanCompressor.java:148). What then happens depends on the bit reader, which is not part of this model. The model's `Decompress` just writes nothing.
- Character width is not modelled. Java reads UTF-16 code units (`(char)cCharInt`, HuffmanCompressor.java:32), so a character outside the Basic Multilingual Plane is counted and coded as two surrogate units. A Dafny `char` is a Unicode scalar value and cannot hold a lone surrogate. The algorithm does not depend on the width.
- The bit writer and bit reader are not part of this model, so their byte packing and padding are not modelled. The end of the bit sequence stands for `readBit()` returning -1.
- `BinaryTree.main` (test printing) and `BinaryTree.toString`/`toStringHelper` (indented printing) are not modelled. `HuffmanCompressor.main` appears only as the compress-then-decompress round trip.
- `PriorityQueue` heap internals are not modelled. A removal takes any tree of least root frequency, so the model promises no particular tree shape or tie-breaking.
- `HashMap` iteration order is unspecified. The order `fillQueue` visits the keys in is a ghost value, and every result holds for any order.
- Java `int` and `Integer` overflow is not modelled. Counts, frequencies, sizes and heights are unbounded integers.
- `TreeComparators.Compare`: the boxed `Integer` `==` becomes the parameter `sameInteger`. Whether two equal frequencies share one Integer object depends on the JVM's boxing cache, which is not modelled.
- `BinaryTrees.Equals`: only a tree or null (`Nil`) can be the argument. A non-tree argument, for which `equals` returns false, is not modelled.
- `BinaryTrees.SetLeft`, `BinaryTrees.SetRight`, `BinaryTrees.SetValue`: trees are values, so a setter returns an updated tree. Aliasing between nodes is not modelled, and neither is the consequence that changing a reconstructed tree leaves the original untouched (BinaryTree.java:320-323). The Huffman code never changes a node after building it.
- `Compressor.HuffmanCompressor.Decompress`: the precondition rules out two or more keys with a character at the root of the tree chosen, because the Java loop never ends in that case. After `compress` on a fresh compressor it never happens (`Compressor.FreshCompressDecodes`).
- A `CharFreq` with a null frequency is not modelled: frequencies are plain integers, and the program never builds one with a null frequency.
- The optimality of Huffman codes (least total code length) is not stated. The program relies on it for compression ratio only, not for correctness.
