/**
 * Huffman trees as HuffmanCompressor.java builds them: BinaryTree nodes
 * carrying a CharFreq, where a node without a character is internal. This
 * module holds the shape invariants, the queue's abstract measures (total
 * weight, the multiset of characters at the leaves) and the facts the tree
 * builder's loop rests on.
 */
module HuffmanTrees {
  import opened Wrappers
  import opened BinaryTrees
  import opened CharFreqs
  import opened FrequencyCounting

  type HTree = BinaryTree<CharFreq>

  /** The frequency at the root; absent trees weigh nothing. */
  function RootFreq(t: HTree): int
  {
    if t.Node? then GetFreq(t.data) else 0
  }

  /** fillQueue's leaf for character `c` with count `f`. */
  function LeafTree(c: char, f: int): (t: HTree)
    ensures t.Node? && IsLeaf(t) && GetChar(t.data) == Some(c) && RootFreq(t) == f
  {
    MakeLeaf(MakeCharFreq(Some(c), f))
  }

  /**
   * The characters a walk from the root can reach: an internal node (no
   * character) contributes its children's, a node with a character just
   * that character.
   */
  ghost function Symbols(t: HTree): multiset<char>
  {
    match t
    case Nil => multiset{}
    case Node(l, d, r) => if d.c.None? then Symbols(l) + Symbols(r) else multiset{d.c.value}
  }

  /** Every node without a character has both children, all the way down. */
  ghost predicate Walkable(t: HTree)
  {
    t.Node? && (t.data.c.None? ==> Walkable(t.left) && Walkable(t.right))
  }

  /**
   * A Huffman tree: each internal node has no character, both children and
   * the sum of their frequencies; each leaf has a character.
   */
  ghost predicate WellFormed(t: HTree)
  {
    match t
    case Nil => false
    case Node(l, d, r) =>
      if d.c.None? then WellFormed(l) && WellFormed(r) && d.f == RootFreq(l) + RootFreq(r)
      else l.Nil? && r.Nil?
  }

  /** The node makeSingleTree pushes: first popped on the left, second on the right. */
  function MergeTrees(left: HTree, right: HTree): (t: HTree)
    requires left.Node? && right.Node?
    ensures t.Node? && t.left == left && t.right == right && GetChar(t.data).None?
    ensures RootFreq(t) == RootFreq(left) + RootFreq(right)
    ensures Symbols(t) == Symbols(left) + Symbols(right)
    ensures WellFormed(left) && WellFormed(right) ==> WellFormed(t)
    ensures Walkable(left) && Walkable(right) ==> Walkable(t)
  {
    Node(left, FreqOnly(GetFreq(left.data) + GetFreq(right.data)), right)
  }

  lemma {:induction false} WellFormedIsWalkable(t: HTree)
    requires WellFormed(t)
    ensures Walkable(t)
    ensures |Symbols(t)| >= 1
    ensures |Symbols(t)| >= 2 <==> GetChar(t.data).None?
  {
    if t.data.c.None? {
      WellFormedIsWalkable(t.left);
      WellFormedIsWalkable(t.right);
    }
  }

  /**
   * A Huffman tree lists its characters in its fringe, has no node with one
   * child, and so has 2n - 1 nodes for n leaves.
   */
  lemma {:induction false} WellFormedShape(t: HTree)
    requires WellFormed(t)
    ensures EveryNodeHasZeroOrTwoChildren(t)
    ensures |Leaves(t)| == |Symbols(t)|
    ensures Size(t) == 2 * |Symbols(t)| - 1
  {
    if t.data.c.None? {
      WellFormedShape(t.left);
      WellFormedShape(t.right);
    }
    TwoChildTreeSize(t);
  }

  // ----- the queue of partial trees -----

  function TotalWeight(q: seq<HTree>): int
  {
    if |q| == 0 then 0 else RootFreq(q[0]) + TotalWeight(q[1..])
  }

  ghost function QueueSymbols(q: seq<HTree>): multiset<char>
  {
    if |q| == 0 then multiset{} else Symbols(q[0]) + QueueSymbols(q[1..])
  }

  ghost predicate AllWellFormed(q: seq<HTree>)
  {
    forall i :: 0 <= i < |q| ==> WellFormed(q[i])
  }

  ghost predicate AllWalkable(q: seq<HTree>)
  {
    forall i :: 0 <= i < |q| ==> Walkable(q[i])
  }

  /** The queue without its element at position `k`. */
  function RemoveAt(q: seq<HTree>, k: nat): (q': seq<HTree>)
    requires k < |q|
    ensures |q'| == |q| - 1
  {
    q[..k] + q[k + 1..]
  }

  /** Position `k` holds a tree of least root frequency: one that peek may return. */
  predicate MinAt(q: seq<HTree>, k: int)
  {
    0 <= k < |q| && forall j :: 0 <= j < |q| ==> RootFreq(q[k]) <= RootFreq(q[j])
  }

  lemma {:induction false} MinExists(q: seq<HTree>)
    requires |q| > 0
    ensures exists k :: MinAt(q, k)
  {
    if |q| == 1 {
      assert MinAt(q, 0);
    } else {
      MinExists(q[1..]);
      var k :| MinAt(q[1..], k);
      if RootFreq(q[0]) <= RootFreq(q[1..][k]) {
        assert MinAt(q, 0);
      } else {
        assert MinAt(q, k + 1);
      }
    }
  }

  lemma {:induction false} MeasuresOfConcat(a: seq<HTree>, b: seq<HTree>)
    ensures TotalWeight(a + b) == TotalWeight(a) + TotalWeight(b)
    ensures QueueSymbols(a + b) == QueueSymbols(a) + QueueSymbols(b)
    decreases |a|
  {
    if |a| > 0 {
      assert (a + b)[1..] == a[1..] + b;
      MeasuresOfConcat(a[1..], b);
    } else {
      assert a + b == b;
    }
  }

  /** Taking one tree out of the queue takes its weight and characters with it. */
  lemma {:induction false} MeasuresOfRemoveAt(q: seq<HTree>, k: nat)
    requires k < |q|
    ensures TotalWeight(q) == RootFreq(q[k]) + TotalWeight(RemoveAt(q, k))
    ensures QueueSymbols(q) == Symbols(q[k]) + QueueSymbols(RemoveAt(q, k))
    decreases k
  {
    if k == 0 {
      assert RemoveAt(q, k) == q[1..];
    } else {
      var rest := RemoveAt(q[1..], k - 1);
      MeasuresOfRemoveAt(q[1..], k - 1);
      assert RemoveAt(q, k) == [q[0]] + rest;
      assert ([q[0]] + rest)[1..] == rest;
    }
  }

  /** Taking one tree out keeps every remaining tree's shape invariants. */
  lemma RemoveAtKeepsInvariants(q: seq<HTree>, k: nat)
    requires k < |q|
    ensures AllWalkable(q) ==> AllWalkable(RemoveAt(q, k))
    ensures AllWellFormed(q) ==> AllWellFormed(RemoveAt(q, k))
  {
    var q' := RemoveAt(q, k);
    assert forall i :: 0 <= i < |q'| ==> q'[i] == q[if i < k then i else i + 1];
  }

  /** Adding a tree at the end of the queue adds its weight and characters. */
  lemma MeasuresOfAppend(q: seq<HTree>, t: HTree)
    ensures TotalWeight(q + [t]) == TotalWeight(q) + RootFreq(t)
    ensures QueueSymbols(q + [t]) == QueueSymbols(q) + Symbols(t)
  {
    MeasuresOfConcat(q, [t]);
    assert [t][1..] == [];
  }

  /** One leaf per listed key, with that key's count, in the order listed. */
  function LeafQueue(m: map<char, int>, ks: seq<char>): (q: seq<HTree>)
    requires forall i :: 0 <= i < |ks| ==> ks[i] in m
    ensures |q| == |ks|
  {
    if |ks| == 0 then []
    else LeafQueue(m, ks[..|ks| - 1]) + [LeafTree(ks[|ks| - 1], m[ks[|ks| - 1]])]
  }

  /** Position `i` of the leaves holds the leaf for the `i`-th key, with that key's count. */
  lemma {:induction false} LeafQueueAt(m: map<char, int>, ks: seq<char>, i: nat)
    requires forall j :: 0 <= j < |ks| ==> ks[j] in m
    requires i < |ks|
    ensures LeafQueue(m, ks)[i] == LeafTree(ks[i], m[ks[i]])
    decreases |ks|
  {
    if i < |ks| - 1 {
      LeafQueueAt(m, ks[..|ks| - 1], i);
    }
  }

  /** Listing one more key adds its leaf at the end. */
  lemma LeafQueueSnoc(m: map<char, int>, ks: seq<char>, c: char)
    requires forall i :: 0 <= i < |ks| ==> ks[i] in m
    requires c in m
    ensures LeafQueue(m, ks + [c]) == LeafQueue(m, ks) + [LeafTree(c, m[c])]
  {
    assert (ks + [c])[..|ks|] == ks;
  }

  /** With the leaves after a queue `q`, listing one more key adds its leaf at the end. */
  lemma LeafQueueSnocAfter(q: seq<HTree>, m: map<char, int>, ks: seq<char>, c: char)
    requires forall i :: 0 <= i < |ks| ==> ks[i] in m
    requires c in m
    ensures q + LeafQueue(m, ks + [c]) == q + LeafQueue(m, ks) + [LeafTree(c, m[c])]
  {
    LeafQueueSnoc(m, ks, c);
  }

  /** The leaves weigh the sum of the counts and hold exactly the listed keys. */
  lemma {:induction false} LeafQueueMeasures(m: map<char, int>, ks: seq<char>)
    requires forall i :: 0 <= i < |ks| ==> ks[i] in m
    ensures TotalWeight(LeafQueue(m, ks)) == SumOver(m, ks)
    ensures QueueSymbols(LeafQueue(m, ks)) == multiset(ks)
    ensures AllWellFormed(LeafQueue(m, ks))
    decreases |ks|
  {
    if |ks| > 0 {
      var init, last := ks[..|ks| - 1], ks[|ks| - 1];
      var q, leaf := LeafQueue(m, init), LeafTree(last, m[last]);
      assert LeafQueue(m, ks) == q + [leaf];
      LeafQueueMeasures(m, init);
      MeasuresOfAppend(q, leaf);
      WellFormedSnoc(q, leaf);
      assert ks == init + [last];
      assert multiset(ks) == multiset(init) + multiset{last};
    }
  }

  lemma WellFormedSnoc(q: seq<HTree>, t: HTree)
    requires AllWellFormed(q) && WellFormed(t)
    ensures AllWellFormed(q + [t])
  {
    assert forall i :: 0 <= i < |q| ==> (q + [t])[i] == q[i];
  }

  /** Appending the leaves adds their weight and characters and keeps the invariants. */
  lemma LeavesAppended(q: seq<HTree>, m: map<char, int>, ks: seq<char>)
    requires forall i :: 0 <= i < |ks| ==> ks[i] in m
    ensures TotalWeight(q + LeafQueue(m, ks)) == TotalWeight(q) + SumOver(m, ks)
    ensures QueueSymbols(q + LeafQueue(m, ks)) == QueueSymbols(q) + multiset(ks)
    ensures AllWalkable(q) ==> AllWalkable(q + LeafQueue(m, ks))
    ensures AllWellFormed(q) ==> AllWellFormed(q + LeafQueue(m, ks))
  {
    var leaves := LeafQueue(m, ks);
    LeafQueueMeasures(m, ks);
    MeasuresOfConcat(q, leaves);
    forall i | 0 <= i < |leaves| ensures Walkable(leaves[i]) {
      WellFormedIsWalkable(leaves[i]);
    }
  }

  /**
   * One round of makeSingleTree: take out a least tree, then a least tree
   * of what is left, and add their merge. Weight, characters and the shape
   * invariants are unchanged, and the queue shrinks by one.
   */
  lemma MergeRound(q: seq<HTree>, i: nat, j: nat)
    requires i < |q| && j < |q| - 1
    requires AllWalkable(q)
    ensures var q' := RemoveAt(q, i);
      var q'' := RemoveAt(q', j) + [MergeTrees(q[i], q'[j])];
      && |q''| == |q| - 1
      && TotalWeight(q'') == TotalWeight(q)
      && QueueSymbols(q'') == QueueSymbols(q)
      && AllWalkable(q'')
      && (AllWellFormed(q) ==> AllWellFormed(q''))
  {
    var q' := RemoveAt(q, i);
    MeasuresOfRemoveAt(q, i);
    RemoveAtKeepsInvariants(q, i);
    MeasuresOfRemoveAt(q', j);
    RemoveAtKeepsInvariants(q', j);
    var merged := MergeTrees(q[i], q'[j]);
    MeasuresOfAppend(RemoveAt(q', j), merged);
    WalkableSnoc(RemoveAt(q', j), merged);
    if AllWellFormed(q) {
      WellFormedSnoc(RemoveAt(q', j), merged);
    }
  }

  lemma WalkableSnoc(q: seq<HTree>, t: HTree)
    requires AllWalkable(q) && Walkable(t)
    ensures AllWalkable(q + [t])
  {
    assert forall i :: 0 <= i < |q| ==> (q + [t])[i] == q[i];
  }

  /**
   * What makeSingleTree's loop keeps about the queue `q`, starting from the
   * queue `q0`: the same weight, the same characters, the shape invariants,
   * and emptiness.
   */
  ghost predicate KeepsMeasures(q0: seq<HTree>, q: seq<HTree>)
  {
    && TotalWeight(q) == TotalWeight(q0)
    && QueueSymbols(q) == QueueSymbols(q0)
    && AllWalkable(q)
    && (AllWellFormed(q0) ==> AllWellFormed(q))
    && (|q| == 0 <==> |q0| == 0)
  }

  /** A merge round keeps what the loop keeps. */
  lemma MergeRoundKeeps(q0: seq<HTree>, q: seq<HTree>, i: nat, j: nat)
    requires i < |q| && j < |q| - 1
    requires KeepsMeasures(q0, q)
    ensures var q' := RemoveAt(q, i);
      var q'' := RemoveAt(q', j) + [MergeTrees(q[i], q'[j])];
      |q''| == |q| - 1 && KeepsMeasures(q0, q'')
  {
    MergeRound(q, i, j);
  }

  /** A list with no repeats holds each listed key once and nothing else. */
  lemma EnumerationMultiset(ks: seq<char>, keys: set<char>)
    requires Enumerates(ks, keys)
    ensures forall c :: multiset(ks)[c] == if c in keys then 1 else 0
  {
    forall c ensures multiset(ks)[c] == if c in keys then 1 else 0 {
      if c in keys {
        assert c in ks;
      } else {
        assert c !in ks;
      }
    }
  }
}
