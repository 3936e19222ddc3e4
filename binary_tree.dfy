/**
 * The generic binary-tree container of BinaryTree.java.
 *
 * A Java `BinaryTree<E>` object is a `Node`; a null child reference is `Nil`.
 * The pure queries are functions, the traversals that append to a
 * caller-supplied list are methods over a `DataList`, and reconstruction from
 * preorder and inorder traversals is a loop method proved equal to a
 * recursive function.
 */
module BinaryTrees {
  import opened Wrappers

  datatype BinaryTree<E> = Nil | Node(left: BinaryTree<E>, data: E, right: BinaryTree<E>)

  /** Construct a leaf node: both children absent. */
  function MakeLeaf<E>(data: E): (t: BinaryTree<E>)
    ensures t.Node? && t.data == data && IsLeaf(t)
  {
    Node(Nil, data, Nil)
  }

  /** A node is a leaf when it has neither child: its subtree is the node alone. */
  function IsLeaf<E>(t: BinaryTree<E>): (b: bool)
    requires t.Node?
    ensures b <==> Size(t) == 1
  {
    t.left.Nil? && t.right.Nil?
  }

  /** A node is internal when it has at least one child. */
  function IsInternal<E>(t: BinaryTree<E>): (b: bool)
    requires t.Node?
    ensures b <==> !IsLeaf(t)
  {
    t.left.Node? || t.right.Node?
  }

  /** Number of nodes; an absent child contributes nothing. */
  function Size<E>(t: BinaryTree<E>): (n: nat)
    ensures t.Node? ==> n >= 1
  {
    match t
    case Nil => 0
    case Node(l, _, r) => 1 + Size(l) + Size(r)
  }

  function Max(a: int, b: int): int
  {
    if a < b then b else a
  }

  /** Length of a longest path from the node down to a leaf. */
  function Height<E>(t: BinaryTree<E>): (h: nat)
    requires t.Node?
    ensures h <= Size(t) - 1
  {
    if IsLeaf(t) then 0
    else 1 + Max(if t.left.Node? then Height(t.left) else 0,
                 if t.right.Node? then Height(t.right) else 0)
  }

  /**
   * Structural comparison of the node `t` with `other` (Nil plays the part
   * of a null argument, which is not a BinaryTree): the same children are
   * present, the data are equal and present children are equal in turn.
   */
  function Equals<E(==)>(t: BinaryTree<E>, other: BinaryTree<E>): (r: bool)
    requires t.Node?
    ensures r ==> other.Node? && other.data == t.data && Size(other) == Size(t)
  {
    other.Node?
    && t.left.Node? == other.left.Node?
    && t.right.Node? == other.right.Node?
    && t.data == other.data
    && (t.left.Nil? || Equals(t.left, other.left))
    && (t.right.Nil? || Equals(t.right, other.right))
  }

  /** Structural equality is exactly equality of tree values. */
  lemma {:induction false} EqualsIsEquality<E>(t: BinaryTree<E>, other: BinaryTree<E>)
    requires t.Node?
    ensures Equals(t, other) <==> t == other
  {
    if other.Node? {
      if t.left.Node? && other.left.Node? {
        EqualsIsEquality(t.left, other.left);
      }
      if t.right.Node? && other.right.Node? {
        EqualsIsEquality(t.right, other.right);
      }
    }
  }

  /** `Equals` is reflexive. */
  lemma EqualsReflexive<E>(t: BinaryTree<E>)
    requires t.Node?
    ensures Equals(t, t)
  {
    EqualsIsEquality(t, t);
  }

  /** The data of the leaves, left to right. */
  function Leaves<E>(t: BinaryTree<E>): seq<E>
  {
    match t
    case Nil => []
    case Node(l, d, r) => if l.Nil? && r.Nil? then [d] else Leaves(l) + Leaves(r)
  }

  /** Every leaf is counted once and only nodes are counted: 1 <= |fringe| <= size. */
  lemma {:induction false} LeavesBounds<E>(t: BinaryTree<E>)
    ensures |Leaves(t)| <= Size(t)
    ensures t.Node? ==> 1 <= |Leaves(t)|
  {
    match t
    case Nil =>
    case Node(l, _, r) =>
      LeavesBounds(l);
      LeavesBounds(r);
  }

  /** Every node has no child or both children. */
  ghost predicate EveryNodeHasZeroOrTwoChildren<E>(t: BinaryTree<E>)
  {
    match t
    case Nil => true
    case Node(l, _, r) =>
      l.Nil? == r.Nil?
      && EveryNodeHasZeroOrTwoChildren(l) && EveryNodeHasZeroOrTwoChildren(r)
  }

  /** In a tree where no node has exactly one child, size = 2 * leaves - 1. */
  lemma {:induction false} TwoChildTreeSize<E>(t: BinaryTree<E>)
    requires t.Node? && EveryNodeHasZeroOrTwoChildren(t)
    ensures Size(t) == 2 * |Leaves(t)| - 1
  {
    if t.left.Node? {
      TwoChildTreeSize(t.left);
      TwoChildTreeSize(t.right);
    }
  }

  function Preorder<E>(t: BinaryTree<E>): seq<E>
  {
    match t
    case Nil => []
    case Node(l, d, r) => [d] + Preorder(l) + Preorder(r)
  }

  function Inorder<E>(t: BinaryTree<E>): seq<E>
  {
    match t
    case Nil => []
    case Node(l, d, r) => Inorder(l) + [d] + Inorder(r)
  }

  function Postorder<E>(t: BinaryTree<E>): seq<E>
  {
    match t
    case Nil => []
    case Node(l, d, r) => Postorder(l) + Postorder(r) + [d]
  }

  /** Each traversal lists every node exactly once. */
  lemma {:induction false} TraversalLengths<E>(t: BinaryTree<E>)
    ensures |Preorder(t)| == Size(t)
    ensures |Inorder(t)| == Size(t)
    ensures |Postorder(t)| == Size(t)
  {
    match t
    case Nil =>
    case Node(l, _, r) =>
      TraversalLengths(l);
      TraversalLengths(r);
  }

  /** The traversals differ only in order: they hold the same values. */
  lemma {:induction false} TraversalsSameValues<E>(t: BinaryTree<E>)
    ensures multiset(Preorder(t)) == multiset(Inorder(t))
    ensures multiset(Inorder(t)) == multiset(Postorder(t))
  {
    match t
    case Nil =>
    case Node(l, _, r) =>
      TraversalsSameValues(l);
      TraversalsSameValues(r);
  }

  /** A list the traversals append to; its prior contents are kept. */
  class DataList<E> {
    var elems: seq<E>

    constructor ()
      ensures elems == []
    {
      elems := [];
    }

    method Add(x: E)
      modifies this
      ensures elems == old(elems) + [x]
    {
      elems := elems + [x];
    }
  }

  method AddPreorder<E>(t: BinaryTree<E>, dataList: DataList<E>)
    requires t.Node?
    modifies dataList
    ensures dataList.elems == old(dataList.elems) + Preorder(t)
    decreases t
  {
    dataList.Add(t.data);
    if t.left.Node? {
      AddPreorder(t.left, dataList);
    }
    if t.right.Node? {
      AddPreorder(t.right, dataList);
    }
  }

  method AddInorder<E>(t: BinaryTree<E>, dataList: DataList<E>)
    requires t.Node?
    modifies dataList
    ensures dataList.elems == old(dataList.elems) + Inorder(t)
    decreases t
  {
    if t.left.Node? {
      AddInorder(t.left, dataList);
    }
    dataList.Add(t.data);
    if t.right.Node? {
      AddInorder(t.right, dataList);
    }
  }

  method AddPostorder<E>(t: BinaryTree<E>, dataList: DataList<E>)
    requires t.Node?
    modifies dataList
    ensures dataList.elems == old(dataList.elems) + Postorder(t)
    decreases t
  {
    if t.left.Node? {
      AddPostorder(t.left, dataList);
    }
    if t.right.Node? {
      AddPostorder(t.right, dataList);
    }
    dataList.Add(t.data);
  }

  method AddToFringe<E>(t: BinaryTree<E>, fringe: DataList<E>)
    requires t.Node?
    modifies fringe
    ensures fringe.elems == old(fringe.elems) + Leaves(t)
    decreases t
  {
    if IsLeaf(t) {
      fringe.Add(t.data);
    } else {
      if t.left.Node? {
        AddToFringe(t.left, fringe);
      }
      if t.right.Node? {
        AddToFringe(t.right, fringe);
      }
    }
  }

  /** The leaves' data in a new list, left to right. */
  method Fringe<E>(t: BinaryTree<E>) returns (f: seq<E>)
    requires t.Node?
    ensures f == Leaves(t)
  {
    var list := new DataList<E>();
    AddToFringe(t, list);
    f := list.elems;
  }

  function SetLeft<E>(t: BinaryTree<E>, newLeft: BinaryTree<E>): (r: BinaryTree<E>)
    requires t.Node?
    ensures r.Node? && r.left == newLeft && r.data == t.data && r.right == t.right
  {
    t.(left := newLeft)
  }

  function SetRight<E>(t: BinaryTree<E>, newRight: BinaryTree<E>): (r: BinaryTree<E>)
    requires t.Node?
    ensures r.Node? && r.right == newRight && r.data == t.data && r.left == t.left
  {
    t.(right := newRight)
  }

  function SetValue<E>(t: BinaryTree<E>, newValue: E): (r: BinaryTree<E>)
    requires t.Node?
    ensures r.Node? && r.data == newValue && r.left == t.left && r.right == t.right
  {
    t.(data := newValue)
  }

  /** No value occurs twice. */
  ghost predicate Distinct<E>(s: seq<E>)
  {
    forall x :: x in s ==> multiset(s)[x] == 1
  }

  /** Position of the first occurrence of `x` in `s`, or |s| when there is none. */
  function IndexOf<E(==)>(s: seq<E>, x: E): (k: nat)
    ensures k <= |s|
    ensures k < |s| ==> s[k] == x
  {
    if |s| == 0 then 0
    else if s[0] == x then 0
    else 1 + IndexOf(s[1..], x)
  }

  /** No occurrence comes before the one IndexOf finds. */
  lemma {:induction false} IndexOfIsFirst<E>(s: seq<E>, x: E, m: nat)
    requires m <= |s| && forall j :: 0 <= j < m ==> s[j] != x
    ensures IndexOf(s, x) >= m
    ensures m < |s| && s[m] == x ==> IndexOf(s, x) == m
  {
    if m > 0 {
      IndexOfIsFirst(s[1..], x, m - 1);
    }
  }

  /**
   * What reconstructTree computes. `None` stands for the exception the
   * iterators throw when they run off the end of a list, which happens
   * exactly when the lists are not the traversals of one tree: the root is
   * missing from the inorder list, it stands too far right, or the inorder
   * list is shorter than the preorder list. `Some(Nil)` is the null result
   * for an empty preorder list.
   */
  function Reconstruct<E(==)>(pre: seq<E>, ino: seq<E>): (r: Option<BinaryTree<E>>)
    ensures |pre| == 0 ==> r == Some(Nil)
    decreases |pre|
  {
    if |pre| == 0 then Some(Nil)
    else
      var k := IndexOf(ino, pre[0]);
      if |ino| < |pre| || k >= |pre| then None
      else
        var leftSubtree := Reconstruct(pre[1..k + 1], ino[..k]);
        var rightSubtree := Reconstruct(pre[k + 1..], ino[k + 1..|pre|]);
        if leftSubtree.None? || rightSubtree.None? then None
        else Some(Node(leftSubtree.value, pre[0], rightSubtree.value))
  }

  /** A slice grows by one at its end. */
  lemma SliceExtend<E>(s: seq<E>, a: nat, b: nat)
    requires a <= b < |s|
    ensures s[a..b + 1] == s[a..b] + [s[b]]
  {
  }

  /** Joining two subtrees whose traversals are the parts around the root. */
  lemma JoinTraversals<E>(l: BinaryTree<E>, r: BinaryTree<E>, pre: seq<E>, ino: seq<E>, k: nat)
    requires k < |pre| <= |ino| && ino[k] == pre[0]
    requires Preorder(l) == pre[1..k + 1] && Preorder(r) == pre[k + 1..]
    requires Inorder(l) == ino[..k] && Inorder(r) == ino[k + 1..|pre|]
    ensures Preorder(Node(l, pre[0], r)) == pre
    ensures Inorder(Node(l, pre[0], r)) == ino[..|pre|]
  {
    PreorderJoin(l, r, pre, k);
    InorderJoin(l, r, ino, k, |pre|);
  }

  lemma PreorderJoin<E>(l: BinaryTree<E>, r: BinaryTree<E>, pre: seq<E>, k: nat)
    requires k < |pre|
    requires Preorder(l) == pre[1..k + 1] && Preorder(r) == pre[k + 1..]
    ensures Preorder(Node(l, pre[0], r)) == pre
  {
    assert pre == [pre[0]] + pre[1..k + 1] + pre[k + 1..];
  }

  lemma InorderJoin<E>(l: BinaryTree<E>, r: BinaryTree<E>, ino: seq<E>, k: nat, n: nat)
    requires k < n <= |ino|
    requires Inorder(l) == ino[..k] && Inorder(r) == ino[k + 1..n]
    ensures Inorder(Node(l, ino[k], r)) == ino[..n]
  {
    assert ino[..n] == ino[..k] + [ino[k]] + ino[k + 1..n];
  }

  /**
   * Whatever reconstructTree returns has the given preorder traversal and
   * the matching prefix of the given inorder traversal.
   */
  lemma {:induction false} ReconstructSound<E>(pre: seq<E>, ino: seq<E>)
    requires Reconstruct(pre, ino).Some?
    ensures |pre| <= |ino|
    ensures Preorder(Reconstruct(pre, ino).value) == pre
    ensures Inorder(Reconstruct(pre, ino).value) == ino[..|pre|]
    decreases |pre|
  {
    if |pre| > 0 {
      var k := IndexOf(ino, pre[0]);
      if |ino| < |pre| || k >= |pre| {
        ReconstructFails(pre, ino);
      }
      var lp, li, rp, ri := pre[1..k + 1], ino[..k], pre[k + 1..], ino[k + 1..|pre|];
      ReconstructSplits(pre, ino, k);
      var l, r := Reconstruct(lp, li).value, Reconstruct(rp, ri).value;
      assert Reconstruct(pre, ino).value == Node(l, pre[0], r);
      ReconstructSound(lp, li);
      ReconstructSound(rp, ri);
      assert li[..|lp|] == li;
      JoinTraversals(l, r, pre, ino, k);
    }
  }

  /** The cases in which reconstructTree throws. */
  lemma ReconstructFails<E>(pre: seq<E>, ino: seq<E>)
    requires |pre| > 0 && (|ino| < |pre| || IndexOf(ino, pre[0]) >= |pre|)
    ensures Reconstruct(pre, ino) == None
  {
  }

  /** The case in which reconstructTree splits both lists at the root. */
  lemma ReconstructSplits<E>(pre: seq<E>, ino: seq<E>, k: nat)
    requires 0 < |pre| <= |ino| && k == IndexOf(ino, pre[0]) && k < |pre|
    ensures Reconstruct(pre, ino)
         == var leftSubtree := Reconstruct(pre[1..k + 1], ino[..k]);
            var rightSubtree := Reconstruct(pre[k + 1..], ino[k + 1..|pre|]);
            if leftSubtree.None? || rightSubtree.None? then None
            else Some(Node(leftSubtree.value, pre[0], rightSubtree.value))
  {
  }

  /**
   * reconstructTree: copy the left subtree's part of both lists, rebuild it,
   * copy the right subtree's part, rebuild it, and join the two under the root.
   */
  method ReconstructTree<E(==)>(pre: seq<E>, ino: seq<E>) returns (r: Option<BinaryTree<E>>)
    ensures r == Reconstruct(pre, ino)
    decreases |pre|
  {
    if |pre| == 0 {
      return Some(Nil);
    }
    var found, i, leftPre, leftIn := CopyLeftPart(pre, ino);
    if !found {
      return None;
    }
    var leftSubtree := ReconstructTree(leftPre, leftIn);
    if leftSubtree.None? {
      if |ino| < |pre| {
        ReconstructFails(pre, ino);
      } else {
        ReconstructSplits(pre, ino, i);
      }
      return None;
    }
    var complete, rightPre, rightIn := CopyRightPart(pre, ino, i);
    if !complete {
      ReconstructFails(pre, ino);
      return None;
    }
    ReconstructSplits(pre, ino, i);
    var rightSubtree := ReconstructTree(rightPre, rightIn);
    if rightSubtree.None? {
      return None;
    }
    r := Some(Node(leftSubtree.value, pre[0], rightSubtree.value));
  }

  /**
   * The first loop of reconstructTree: step both iterators together, copying
   * each value, until the inorder iterator reaches the root's value. It fails
   * (the iterators run dry) exactly where reconstructTree throws before the
   * left subtree is known; otherwise the root stands at inorder position `i`
   * and the copies hold the left subtree's parts of both lists.
   */
  method CopyLeftPart<E(==)>(pre: seq<E>, ino: seq<E>)
      returns (found: bool, i: nat, leftPre: seq<E>, leftIn: seq<E>)
    requires |pre| > 0
    ensures found <==> IndexOf(ino, pre[0]) < |pre| && IndexOf(ino, pre[0]) < |ino|
    ensures !found ==> Reconstruct(pre, ino) == None
    ensures found ==> i == IndexOf(ino, pre[0]) && i < |pre| && i < |ino|
    ensures found ==> leftPre == pre[1..i + 1] && leftIn == ino[..i]
  {
    if |ino| == 0 {
      ReconstructFails(pre, ino);
      return false, 0, [], [];
    }
    var rootValue := pre[0];
    var p := 1;        // position of the next value iterPre hands out
    i := 0;            // position of inValue in the inorder list
    var inValue := ino[0];
    leftPre, leftIn := [], [];
    while rootValue != inValue
      invariant 0 <= i < |ino| && p == i + 1 && p <= |pre|
      invariant inValue == ino[i]
      invariant forall j :: 0 <= j < i ==> ino[j] != rootValue
      invariant leftPre == pre[1..p] && leftIn == ino[..i]
      decreases |ino| - i
    {
      if p >= |pre| {
        IndexOfIsFirst(ino, rootValue, i + 1);
        ReconstructFails(pre, ino);
        return false, i, leftPre, leftIn;
      }
      SliceExtend(pre, 1, p);
      leftPre := leftPre + [pre[p]];
      p := p + 1;
      SliceExtend(ino, 0, i);
      leftIn := leftIn + [inValue];
      if i + 1 >= |ino| {
        IndexOfIsFirst(ino, rootValue, i + 1);
        ReconstructFails(pre, ino);
        return false, i, leftPre, leftIn;
      }
      i := i + 1;
      inValue := ino[i];
    }
    IndexOfIsFirst(ino, rootValue, i);
    found := true;
  }

  /**
   * The second loop of reconstructTree: copy the rest of the preorder list
   * and as many values of the inorder list after the root. It fails (the
   * inorder iterator runs dry) exactly when the inorder list is the shorter.
   */
  method CopyRightPart<E>(pre: seq<E>, ino: seq<E>, i: nat)
      returns (complete: bool, rightPre: seq<E>, rightIn: seq<E>)
    requires i < |pre| && i < |ino|
    ensures complete <==> |pre| <= |ino|
    ensures complete ==> rightPre == pre[i + 1..] && rightIn == ino[i + 1..|pre|]
  {
    var p, q := i + 1, i + 1;
    rightPre, rightIn := [], [];
    while p < |pre|
      invariant i + 1 <= p <= |pre| && q == p && q <= |ino|
      invariant rightPre == pre[i + 1..p] && rightIn == ino[i + 1..q]
    {
      SliceExtend(pre, i + 1, p);
      rightPre := rightPre + [pre[p]];
      p := p + 1;
      if q >= |ino| {
        return false, rightPre, rightIn;
      }
      SliceExtend(ino, i + 1, q);
      rightIn := rightIn + [ino[q]];
      q := q + 1;
    }
    complete := true;
  }

  /**
   * Reconstructing from the traversals of the node `t` with no repeated value
   * gives back `t`.
   */
  lemma {:induction false} ReconstructInvertsTraversals<E>(t: BinaryTree<E>)
    requires Distinct(Preorder(t))
    ensures Reconstruct(Preorder(t), Inorder(t)) == Some(t)
  {
    match t
    case Nil =>
    case Node(l, d, r) =>
      var pre, ino := Preorder(t), Inorder(t);
      var k := Size(l);
      TraversalsAroundRoot(l, d, r);
      DistinctSubtrees(l, d, r);
      forall j | 0 <= j < k ensures ino[j] != d {
        assert ino[j] == Inorder(l)[j];
      }
      IndexOfIsFirst(ino, d, k);
      ReconstructInvertsTraversals(l);
      ReconstructInvertsTraversals(r);
      assert Reconstruct(pre[1..k + 1], ino[..k]) == Some(l);
      assert Reconstruct(pre[k + 1..], ino[k + 1..|pre|]) == Some(r);
      ReconstructSplits(pre, ino, k);
  }

  /** The parts of a list without repeats have none, and the head is not repeated. */
  lemma DistinctParts<E>(d: E, a: seq<E>, b: seq<E>)
    requires Distinct([d] + a + b)
    ensures Distinct(a) && Distinct(b) && multiset(a)[d] == 0
  {
    var s := [d] + a + b;
    assert multiset(s) == multiset{d} + multiset(a) + multiset(b);
    assert d in s;
    forall x | x in a ensures multiset(a)[x] == 1 {
      assert x in s;
    }
    forall x | x in b ensures multiset(b)[x] == 1 {
      assert x in s;
    }
  }

  /**
   * Without repeats in a node's preorder, its subtrees have none either and
   * the root's value does not occur in the left subtree.
   */
  lemma DistinctSubtrees<E>(l: BinaryTree<E>, d: E, r: BinaryTree<E>)
    requires Distinct(Preorder(Node(l, d, r)))
    ensures Distinct(Preorder(l)) && Distinct(Preorder(r))
    ensures forall j :: 0 <= j < |Inorder(l)| ==> Inorder(l)[j] != d
  {
    assert Preorder(Node(l, d, r)) == [d] + Preorder(l) + Preorder(r);
    DistinctParts(d, Preorder(l), Preorder(r));
    AbsentFromInorder(l, d);
  }

  /** A value missing from a tree's preorder is missing from its inorder. */
  lemma AbsentFromInorder<E>(t: BinaryTree<E>, d: E)
    requires multiset(Preorder(t))[d] == 0
    ensures forall j :: 0 <= j < |Inorder(t)| ==> Inorder(t)[j] != d
  {
    TraversalsSameValues(t);
    forall j | 0 <= j < |Inorder(t)| ensures Inorder(t)[j] != d {
      assert Inorder(t)[j] in multiset(Inorder(t));
    }
  }

  /** Where the parts of the node's traversals lie. */
  lemma TraversalsAroundRoot<E>(l: BinaryTree<E>, d: E, r: BinaryTree<E>)
    ensures var pre, ino, k := Preorder(Node(l, d, r)), Inorder(Node(l, d, r)), Size(l);
      && k < |pre| == |ino|
      && pre[0] == d && ino[k] == d
      && pre[1..k + 1] == Preorder(l) && pre[k + 1..] == Preorder(r)
      && ino[..k] == Inorder(l) && ino[k + 1..|pre|] == Inorder(r)
  {
    TraversalLengths(Node(l, d, r));
    TraversalLengths(l);
    PreorderAroundRoot(l, d, r);
    InorderAroundRoot(l, d, r);
  }

  lemma PreorderAroundRoot<E>(l: BinaryTree<E>, d: E, r: BinaryTree<E>)
    ensures var pre, k := Preorder(Node(l, d, r)), |Preorder(l)|;
      pre[0] == d && pre[1..k + 1] == Preorder(l) && pre[k + 1..] == Preorder(r)
  {
    var pre := Preorder(Node(l, d, r));
    assert pre == [d] + Preorder(l) + Preorder(r);
  }

  lemma InorderAroundRoot<E>(l: BinaryTree<E>, d: E, r: BinaryTree<E>)
    ensures var ino, k := Inorder(Node(l, d, r)), |Inorder(l)|;
      ino[k] == d && ino[..k] == Inorder(l) && ino[k + 1..] == Inorder(r)
  {
    var ino := Inorder(Node(l, d, r));
    assert ino == Inorder(l) + [d] + Inorder(r);
  }
}
