/**
 * HuffmanCompressor.java: the object that counts the characters of the
 * input file, builds the Huffman tree in a priority queue, builds the code
 * table, writes the code bits and reads them back.
 *
 * The input file is the constant `input`, read afresh by each pass as the
 * source reopens the file; the compressed file is the bit sequence that
 * `Compress` returns and `Decompress` takes; the decompressed file is what
 * `Decompress` returns. The priority queue is the sequence `minPQ`, whose
 * removal takes any tree of least root frequency (see `Poll`).
 */
module Compressor {
  import opened Wrappers
  import opened BinaryTrees
  import opened CharFreqs
  import opened FrequencyCounting
  import opened HuffmanTrees
  import opened HuffmanCodes
  import opened TreeComparators

  class HuffmanCompressor {
    /** The characters of the uncompressed file. */
    const input: seq<char>
    /** Character to number of occurrences. */
    var charsAndFreqs: map<char, int>
    /** The priority queue of partial trees, in no particular order. */
    var minPQ: seq<HTree>
    /** Character to its code, a string of '0' and '1'. */
    var charCodes: map<char, string>

    constructor(input: seq<char>)
      ensures this.input == input
      ensures charsAndFreqs == map[] && minPQ == [] && charCodes == map[]
    {
      this.input := input;
      charsAndFreqs := map[];
      minPQ := [];
      charCodes := map[];
    }

    /** makeKeyMap: one pass over the input, counting each character. */
    method MakeKeyMap()
      modifies this`charsAndFreqs
      ensures charsAndFreqs == Tally(old(charsAndFreqs), input)
    {
      var i := 0;
      while i < |input|
        invariant 0 <= i <= |input|
        invariant charsAndFreqs == Tally(old(charsAndFreqs), input[..i])
      {
        var c := input[i];
        if c in charsAndFreqs {
          charsAndFreqs := charsAndFreqs[c := charsAndFreqs[c] + 1];
        } else {
          charsAndFreqs := charsAndFreqs[c := 1];
        }
        assert input[..i + 1][..i] == input[..i];
        i := i + 1;
      }
      assert input[..|input|] == input;
    }

    /**
     * fillQueue: count, then add one leaf per key of the map. The map's
     * iteration order is unspecified; `order` is the order taken.
     */
    method FillQueue() returns (ghost order: seq<char>)
      modifies this`charsAndFreqs, this`minPQ
      ensures charsAndFreqs == Tally(old(charsAndFreqs), input)
      ensures Enumerates(order, charsAndFreqs.Keys)
      ensures minPQ == old(minPQ) + LeafQueue(charsAndFreqs, order)
    {
      MakeKeyMap();
      var remaining := charsAndFreqs.Keys;
      ghost var keys := remaining;
      order := [];
      while remaining != {}
        invariant charsAndFreqs == Tally(old(charsAndFreqs), input)
        invariant keys == charsAndFreqs.Keys
        invariant ListingSoFar(keys, remaining, order)
        invariant minPQ == old(minPQ) + LeafQueue(charsAndFreqs, order)
        decreases remaining
      {
        var c :| c in remaining;
        ListingStep(keys, remaining, order, c);
        LeafQueueSnocAfter(old(minPQ), charsAndFreqs, order, c);
        minPQ := minPQ + [LeafTree(c, charsAndFreqs[c])];
        order := order + [c];
        remaining := remaining - {c};
      }
      ListingDone(keys, order);
    }

    /**
     * peek followed by remove: take out a tree of least root frequency.
     * With equal frequencies TreeComparator never answers "less", so the
     * heap underneath keeps its sift invariant on frequencies alone, and
     * any least tree may come out first.
     */
    method Poll() returns (t: HTree, k: nat)
      requires |minPQ| > 0
      modifies this`minPQ
      ensures MinAt(old(minPQ), k) && t == old(minPQ)[k]
      ensures minPQ == RemoveAt(old(minPQ), k)
    {
      MinExists(minPQ);
      k :| 0 <= k < |minPQ| && MinAt(minPQ, k);
      t := minPQ[k];
      minPQ := RemoveAt(minPQ, k);
    }

    /**
     * makeSingleTree: fill the queue, then merge the two least trees until
     * at most one is left. The queue's total weight and its characters stay
     * what the leaves brought in.
     */
    method MakeSingleTree() returns (ghost order: seq<char>)
      requires AllWalkable(minPQ)
      modifies this`charsAndFreqs, this`minPQ
      ensures charsAndFreqs == Tally(old(charsAndFreqs), input)
      ensures Enumerates(order, charsAndFreqs.Keys)
      ensures TotalWeight(minPQ) == TotalWeight(old(minPQ)) + SumOver(charsAndFreqs, order)
      ensures QueueSymbols(minPQ) == QueueSymbols(old(minPQ)) + multiset(order)
      ensures |minPQ| == (if |old(minPQ)| + |order| == 0 then 0 else 1)
      ensures AllWalkable(minPQ)
      ensures AllWellFormed(old(minPQ)) ==> AllWellFormed(minPQ)
    {
      ghost var q0 := minPQ;
      order := FillQueue();
      LeavesAppended(q0, charsAndFreqs, order);
      ghost var q := minPQ;
      while |minPQ| > 1
        invariant charsAndFreqs == Tally(old(charsAndFreqs), input)
        invariant KeepsMeasures(q, minPQ)
        decreases |minPQ|
      {
        ghost var before := minPQ;
        var left, i := Poll();
        var right, j := Poll();
        MergeRoundKeeps(q, before, i, j);
        minPQ := minPQ + [MergeTrees(left, right)];
      }
    }

    /**
     * makeCharCodes: record the code of every character below `cTree`,
     * `code` being the path from the root to `cTree`.
     */
    method MakeCharCodes(cTree: HTree, code: string)
      requires Walkable(cTree)
      modifies this`charCodes
      ensures charCodes == old(charCodes) + CodeTable(cTree, code)
      decreases cTree
    {
      if GetChar(cTree.data).None? {
        ghost var before := charCodes;
        MakeCharCodes(cTree.left, code + "0");
        MakeCharCodes(cTree.right, code + "1");
        MapUnionAssociative(before, CodeTable(cTree.left, code + "0"), CodeTable(cTree.right, code + "1"));
      } else if code == "" {
        charCodes := charCodes[GetChar(cTree.data).value := "0"];
      } else {
        charCodes := charCodes[GetChar(cTree.data).value := code];
      }
    }

    /**
     * compress: build the tree; when the queue is not empty, build the code
     * table from its tree and write the code of each input character. Every
     * input character has a code by then, so the lookup never yields null.
     */
    method Compress() returns (compressed: seq<Bit>, ghost order: seq<char>)
      requires AllWalkable(minPQ)
      modifies this`charsAndFreqs, this`minPQ, this`charCodes
      ensures charsAndFreqs == Tally(old(charsAndFreqs), input)
      ensures Enumerates(order, charsAndFreqs.Keys)
      ensures TotalWeight(minPQ) == TotalWeight(old(minPQ)) + SumOver(charsAndFreqs, order)
      ensures QueueSymbols(minPQ) == QueueSymbols(old(minPQ)) + multiset(order)
      ensures |minPQ| == (if |old(minPQ)| + |order| == 0 then 0 else 1)
      ensures AllWalkable(minPQ)
      ensures AllWellFormed(old(minPQ)) ==> AllWellFormed(minPQ)
      ensures |minPQ| == 0 ==> compressed == [] && charCodes == old(charCodes)
      ensures |minPQ| == 1 ==>
                (charCodes == old(charCodes) + CodeTable(minPQ[0], "")
                 && Encode(input, charCodes) == Some(compressed))
    {
      order := MakeSingleTree();
      compressed := [];
      if |minPQ| == 0 {
        return;
      }
      var root := minPQ[0];
      ghost var codes0 := charCodes;
      MakeCharCodes(root, "");
      assert minPQ == [root];
      InputHasCodes(old(charsAndFreqs), input, order, old(minPQ), root, codes0);
      compressed := WriteCodes(input, charCodes);
    }

    /**
     * decompress: when the queue is not empty, walk its least tree bit by
     * bit, writing a character at each node that has one and starting again
     * at the root; with fewer than two distinct characters every bit read
     * writes the lone character. With two or more keys and a lone leaf at
     * the root the source would write that character forever, which the
     * precondition rules out.
     */
    method Decompress(compressed: seq<Bit>) returns (out: seq<char>, k: nat)
      requires AllWalkable(minPQ)
      requires |charsAndFreqs| >= 2 ==>
                 forall j :: 0 <= j < |minPQ| && MinAt(minPQ, j) ==> GetChar(minPQ[j].data).None?
      ensures |minPQ| == 0 ==> out == []
      ensures |minPQ| > 0 ==>
                (MinAt(minPQ, k) && out == Walk(minPQ[k], minPQ[k], compressed, |charsAndFreqs| < 2))
    {
      out, k := [], 0;
      if |minPQ| == 0 {
        return;
      }
      MinExists(minPQ);
      k :| 0 <= k < |minPQ| && MinAt(minPQ, k);
      var top := minPQ[k];
      var single := |charsAndFreqs| < 2;
      var bit := 0;
      var pos := 0;
      var temp := top;
      ghost var whole := Walk(top, top, compressed, single);
      assert compressed[0..] == compressed;
      while bit != -1
        invariant 0 <= pos <= |compressed|
        invariant bit != -1 ==> Decoding(top, temp, compressed, pos, single, out, whole)
        invariant bit == -1 ==> out == whole
        decreases (if bit == -1 then 0 else 1), |compressed| - pos,
                  (if temp.Node? && GetChar(temp.data).None? then 0 else 1)
      {
        if GetChar(temp.data).None? {
          bit := if pos < |compressed| then compressed[pos] else -1;
          if bit != -1 {
            DecodeBranch(top, temp, compressed, pos, single, out, whole);
            pos := pos + 1;
          } else {
            DecodeBranchAtEnd(top, temp, compressed, pos, single, out, whole);
          }
          if bit == 0 {
            temp := temp.left;
          } else {
            temp := temp.right;
          }
        } else if single {
          bit := if pos < |compressed| then compressed[pos] else -1;
          if bit != -1 {
            DecodeEmitSingle(top, temp, compressed, pos, single, out, whole);
            pos := pos + 1;
            out := out + [GetChar(temp.data).value];
            temp := top;
          } else {
            DecodeSingleAtEnd(top, temp, compressed, pos, single, out, whole);
          }
        } else {
          DecodeEmit(top, temp, compressed, pos, single, out, whole);
          out := out + [GetChar(temp.data).value];
          temp := top;
        }
      }
    }
  }

  /**
   * The trees `Poll` may take out are exactly those no other tree of the
   * queue is "less" than by TreeComparator.
   */
  lemma MinAtByCompare(q: seq<HTree>, k: int)
    requires forall i :: 0 <= i < |q| ==> q[i].Node?
    ensures MinAt(q, k) <==> 0 <= k < |q| && forall j :: 0 <= j < |q| ==> Compare(q[j], q[k], false) != -1
  {
  }

  lemma MapUnionAssociative(a: map<char, string>, b: map<char, string>, c: map<char, string>)
    ensures (a + b) + c == a + (b + c)
  {
  }

  /**
   * The writing loop of compress: for each character read, look up its code
   * and write a 1 for each '1' in it and a 0 for any other character.
   */
  method WriteCodes(s: seq<char>, codes: map<char, string>) returns (bits: seq<Bit>)
    requires forall c :: c in s ==> c in codes
    ensures Encode(s, codes) == Some(bits)
  {
    bits := [];
    var i := 0;
    while i < |s|
      invariant 0 <= i <= |s|
      invariant Encode(s[..i], codes) == Some(bits)
    {
      var code := codes[s[i]];
      ghost var written := bits;
      var j := 0;
      while j < |code|
        invariant 0 <= j <= |code|
        invariant bits == written + Bits(code[..j])
      {
        var b: Bit := if code[j] == '1' then 1 else 0;
        BitsSnoc(code[..j], code[j]);
        assert code[..j + 1] == code[..j] + [code[j]];
        bits := bits + [b];
        j := j + 1;
      }
      assert code[..|code|] == code;
      EncodeSnoc(s[..i], s[i], codes);
      assert s[..i + 1] == s[..i] + [s[i]];
      i := i + 1;
    }
    assert s[..|s|] == s;
  }

  /**
   * After makeSingleTree leaves one tree, every character read has a code:
   * each was counted, so it has a leaf in that tree.
   */
  lemma InputHasCodes(m0: map<char, int>, input: seq<char>, order: seq<char>,
                      q0: seq<HTree>, root: HTree, codes0: map<char, string>)
    requires Enumerates(order, Tally(m0, input).Keys)
    requires Walkable(root) && QueueSymbols([root]) == QueueSymbols(q0) + multiset(order)
    ensures forall c :: c in input ==> c in codes0 + CodeTable(root, "")
  {
    CodeTableKeys(root, "");
    TallyKeys(m0, input);
    assert QueueSymbols([root]) == Symbols(root) + QueueSymbols([]);
    assert Symbols(root) == QueueSymbols(q0) + multiset(order);
    forall c | c in input ensures c in CodeTable(root, "") {
      assert c in order;
      assert c in Symbols(root);
    }
  }

  /**
   * What a fresh compressor holds after compress: the queue is empty exactly
   * when the input is, otherwise its one tree has an internal root when
   * there are two or more distinct characters and decodes the bits written
   * back to the input.
   */
  lemma FreshCompressDecodes(input: seq<char>, order: seq<char>, q: seq<HTree>,
                             codes: map<char, string>, compressed: seq<Bit>)
    requires Enumerates(order, Tally(map[], input).Keys)
    requires QueueSymbols(q) == QueueSymbols([]) + multiset(order)
    requires |q| == (if |order| == 0 then 0 else 1)
    requires AllWalkable(q) && (AllWellFormed([]) ==> AllWellFormed(q))
    requires |q| == 0 ==> compressed == []
    requires |q| == 1 ==>
               (codes == map[] + CodeTable(q[0], "") && Encode(input, codes) == Some(compressed))
    ensures |q| == 0 <==> |input| == 0
    ensures |input| == 0 ==> compressed == []
    ensures |Tally(map[], input)| >= 2 ==> |q| == 1 && GetChar(q[0].data).None?
    ensures |q| == 1 ==> Walk(q[0], q[0], compressed, |Tally(map[], input)| < 2) == input
    ensures |Tally(map[], input)| >= 2 ==>
              forall j :: 0 <= j < |q| && MinAt(q, j) ==> GetChar(q[j].data).None?
    ensures forall j :: 0 <= j < |q| && MinAt(q, j) ==> j == 0
    ensures |order| == 1 ==> |q| == 1 && codes == map[order[0] := "0"]
  {
    FreshKeys(input, order);
    if |q| == 1 {
      SingleTreeShape(q, order);
      TreeDecodesInput(q[0], input, codes, compressed, |Tally(map[], input)| < 2);
      if |order| == 1 {
        LoneCharacterCode(q[0], order, codes);
      }
    }
  }

  /** With one distinct character, the tree is a lone leaf and its code is "0". */
  lemma LoneCharacterCode(root: HTree, order: seq<char>, codes: map<char, string>)
    requires WellFormed(root) && Walkable(root) && Symbols(root) == multiset(order) && |order| == 1
    requires codes == map[] + CodeTable(root, "")
    ensures codes == map[order[0] := "0"]
  {
    WellFormedIsWalkable(root);
    assert order == [order[0]];
    assert GetChar(root.data).Some?;
    assert Symbols(root) == multiset{GetChar(root.data).value};
    assert multiset(order) == multiset{order[0]};
    assert GetChar(root.data).value == order[0];
  }

  /** The lone tree built for a fresh compressor weighs the length of the input. */
  lemma FreshTreeWeight(input: seq<char>, order: seq<char>, q: seq<HTree>)
    requires Enumerates(order, Tally(map[], input).Keys)
    requires TotalWeight(q) == TotalWeight([]) + SumOver(Tally(map[], input), order)
    requires |q| == 1
    ensures RootFreq(q[0]) == |input|
  {
    CountsSumToLength(input, order);
    assert q[1..] == [];
  }

  /** The bits written with a tree's own code table decode back to the input. */
  lemma TreeDecodesInput(root: HTree, input: seq<char>, codes: map<char, string>,
                         compressed: seq<Bit>, single: bool)
    requires Walkable(root) && (single <==> GetChar(root.data).Some?)
    requires codes == map[] + CodeTable(root, "") && Encode(input, codes) == Some(compressed)
    ensures Walk(root, root, compressed, single) == input
  {
    assert codes == CodeTable(root, "");
    DecodeEncoded(root, input, [], single);
    assert Encode(input, CodeTable(root, "")).value + [] == compressed;
    assert Walk(root, root, [], single) == [];
    assert input + [] == input;
  }

  /** The keys counted from a fresh map: none exactly for an empty input. */
  lemma FreshKeys(input: seq<char>, order: seq<char>)
    requires Enumerates(order, Tally(map[], input).Keys)
    ensures |order| == |Tally(map[], input)|
    ensures |order| == 0 <==> |input| == 0
  {
    var m := Tally(map[], input);
    CountsFromEmpty(input);
    EnumerationSize(order, m.Keys);
    if |input| > 0 {
      assert input[0] in m;
    } else {
      assert m.Keys == {};
    }
  }

  /**
   * The lone tree left by makeSingleTree from leaves for `order` is a
   * Huffman tree with one leaf per key, and its root is internal exactly
   * when there are two keys or more.
   */
  lemma SingleTreeShape(q: seq<HTree>, order: seq<char>)
    requires |q| == 1 && AllWellFormed(q)
    requires QueueSymbols(q) == QueueSymbols([]) + multiset(order)
    ensures WellFormed(q[0]) && Walkable(q[0])
    ensures Symbols(q[0]) == multiset(order)
    ensures GetChar(q[0].data).None? <==> |order| >= 2
  {
    assert q[1..] == [];
    assert QueueSymbols([]) == multiset{};
    assert QueueSymbols(q) == Symbols(q[0]) + QueueSymbols(q[1..]);
    assert QueueSymbols(q) == Symbols(q[0]);
    assert QueueSymbols(q) == multiset(order);
    WellFormedIsWalkable(q[0]);
  }

  /**
   * main: a fresh compressor compresses its input and then decompresses the
   * result, which gives the input back.
   */
  method CompressThenDecompress(input: seq<char>) returns (compressed: seq<Bit>, output: seq<char>)
    ensures output == input
    ensures |input| == 0 ==> compressed == []
  {
    var c := new HuffmanCompressor(input);
    ghost var order;
    compressed, order := c.Compress();
    ghost var q := c.minPQ;
    FreshCompressDecodes(input, order, q, c.charCodes, compressed);
    var k;
    output, k := c.Decompress(compressed);
  }
}
