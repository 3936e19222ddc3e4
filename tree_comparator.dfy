/**
 * TreeComparator.java: orders Huffman subtrees by the frequency stored at
 * their roots.
 *
 * The source tests the two boxed Integer frequencies with `<` (a comparison
 * of values) and then with `==` (a comparison of object references). Whether
 * two equal frequencies are the same Integer object depends on how they were
 * boxed, so the model takes that as the parameter `sameInteger`; identical
 * objects always hold equal values.
 */
module TreeComparators {
  import opened BinaryTrees
  import opened CharFreqs

  function Compare(a: BinaryTree<CharFreq>, b: BinaryTree<CharFreq>, sameInteger: bool): (r: int)
    requires a.Node? && b.Node?
    requires sameInteger ==> GetFreq(a.data) == GetFreq(b.data)
    ensures r == -1 <==> GetFreq(a.data) < GetFreq(b.data)
    ensures r == 1 <==> GetFreq(a.data) > GetFreq(b.data) || (!sameInteger && GetFreq(a.data) == GetFreq(b.data))
    ensures r == 0 <==> sameInteger
  {
    if GetFreq(a.data) < GetFreq(b.data) then -1
    else if sameInteger then 0
    else 1
  }

  /** Only the roots' frequencies matter, never characters or children. */
  lemma CompareDependsOnlyOnRootFrequencies(a: BinaryTree<CharFreq>, b: BinaryTree<CharFreq>,
                                            a': BinaryTree<CharFreq>, b': BinaryTree<CharFreq>,
                                            sameInteger: bool)
    requires a.Node? && b.Node? && a'.Node? && b'.Node?
    requires GetFreq(a.data) == GetFreq(a'.data) && GetFreq(b.data) == GetFreq(b'.data)
    requires sameInteger ==> GetFreq(a.data) == GetFreq(b.data)
    ensures Compare(a, b, sameInteger) == Compare(a', b', sameInteger)
  {
  }

  /** For different frequencies the order is antisymmetric. */
  lemma CompareAntisymmetric(a: BinaryTree<CharFreq>, b: BinaryTree<CharFreq>)
    requires a.Node? && b.Node? && GetFreq(a.data) != GetFreq(b.data)
    ensures Compare(a, b, false) == -Compare(b, a, false)
  {
  }

  /** Equal frequencies never compare as less: the equal case is "not less". */
  lemma EqualIsNotLess(a: BinaryTree<CharFreq>, b: BinaryTree<CharFreq>, sameInteger: bool)
    requires a.Node? && b.Node? && GetFreq(a.data) == GetFreq(b.data)
    ensures Compare(a, b, sameInteger) != -1 && Compare(b, a, sameInteger) != -1
  {
  }
}
