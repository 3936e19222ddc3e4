/**
 * What makeKeyMap computes (HuffmanCompressor.java): a map from each
 * character read to the number of times it was read, built by bumping one
 * count per character. The scan itself is the loop of
 * `Compressor.HuffmanCompressor.MakeKeyMap`; this module states its result as a
 * function and proves what that result is.
 */
module FrequencyCounting {
  import opened BinaryTrees

  /** One step of the scan: increment the count of `c`, or start it at 1. */
  function Bump(m: map<char, int>, c: char): (m': map<char, int>)
    ensures m'.Keys == m.Keys + {c}
    ensures m'[c] == (if c in m then m[c] else 0) + 1
    ensures forall k :: k in m && k != c ==> m'[k] == m[k]
  {
    if c in m then m[c := m[c] + 1] else m[c := 1]
  }

  /** The map after scanning `s`, one character after another, starting from `m`. */
  function Tally(m: map<char, int>, s: seq<char>): map<char, int>
    decreases |s|
  {
    if |s| == 0 then m else Bump(Tally(m, s[..|s| - 1]), s[|s| - 1])
  }

  /** Scanning adds the number of occurrences in `s` to the count of each character. */
  lemma {:induction false} TallyCounts(m: map<char, int>, s: seq<char>)
    ensures Tally(m, s).Keys == m.Keys + set c | c in s
    ensures forall k :: k in Tally(m, s) ==>
              Tally(m, s)[k] == (if k in m then m[k] else 0) + multiset(s)[k]
    decreases |s|
  {
    if |s| > 0 {
      var init, last := s[..|s| - 1], s[|s| - 1];
      assert s == init + [last];
      TallyCounts(m, init);
      assert multiset(s) == multiset(init) + multiset{last};
    }
  }

  /** Every character scanned is a key afterwards. */
  lemma TallyKeys(m: map<char, int>, s: seq<char>)
    ensures forall c :: c in s ==> c in Tally(m, s)
  {
    TallyCounts(m, s);
  }

  /**
   * From an empty map, the keys are exactly the characters of `s` and each
   * count is that character's number of occurrences, so at least 1.
   */
  lemma CountsFromEmpty(s: seq<char>)
    ensures forall c :: c in Tally(map[], s) <==> c in s
    ensures forall c :: c in Tally(map[], s) ==> Tally(map[], s)[c] == multiset(s)[c] >= 1
  {
    TallyCounts(map[], s);
  }

  /** `ks` lists every element of `keys` exactly once, in some order. */
  ghost predicate Enumerates(ks: seq<char>, keys: set<char>)
  {
    Distinct(ks) && (forall i :: 0 <= i < |ks| ==> ks[i] in keys) && (forall k :: k in keys ==> k in ks)
  }

  /** The sum of the counts of the keys `ks`. */
  function SumOver(m: map<char, int>, ks: seq<char>): int
    requires forall i :: 0 <= i < |ks| ==> ks[i] in m
  {
    if |ks| == 0 then 0 else SumOver(m, ks[..|ks| - 1]) + m[ks[|ks| - 1]]
  }

  /** The sum of the multiplicities in `ms` of the elements `ks`. */
  ghost function SumMultiplicities(ms: multiset<char>, ks: seq<char>): int
  {
    if |ks| == 0 then 0 else SumMultiplicities(ms, ks[..|ks| - 1]) + ms[ks[|ks| - 1]]
  }

  lemma DistinctPrefix(ks: seq<char>)
    requires |ks| > 0 && Distinct(ks)
    ensures Distinct(ks[..|ks| - 1]) && ks[|ks| - 1] !in ks[..|ks| - 1]
  {
    var init, last := ks[..|ks| - 1], ks[|ks| - 1];
    assert ks == init + [last];
    assert multiset(ks) == multiset(init) + multiset{last};
    assert last in ks;
    forall x | x in init ensures multiset(init)[x] == 1 {
      assert x in ks;
    }
  }

  lemma DistinctAppend(ks: seq<char>, x: char)
    requires Distinct(ks) && x !in ks
    ensures Distinct(ks + [x])
  {
    assert multiset(ks + [x]) == multiset(ks) + multiset{x};
    forall y | y in ks + [x] ensures multiset(ks + [x])[y] == 1 {
      if y != x {
        assert y in ks;
      }
    }
  }

  /**
   * Part way through listing `keys`: `order` lists without repeats the keys
   * already taken, `remaining` the others.
   */
  ghost predicate ListingSoFar(keys: set<char>, remaining: set<char>, order: seq<char>)
  {
    && remaining <= keys
    && (forall i :: 0 <= i < |order| ==> order[i] in keys)
    && (forall k :: k in keys ==> (k in remaining <==> k !in order))
    && Distinct(order)
  }

  /** Taking one more remaining key continues the listing, and nothing remaining ends it. */
  lemma ListingStep(keys: set<char>, remaining: set<char>, order: seq<char>, c: char)
    requires ListingSoFar(keys, remaining, order) && c in remaining
    ensures ListingSoFar(keys, remaining - {c}, order + [c])
  {
    DistinctAppend(order, c);
  }

  lemma ListingDone(keys: set<char>, order: seq<char>)
    requires ListingSoFar(keys, {}, order)
    ensures Enumerates(order, keys)
  {
  }

  /** A list enumerating a set has as many elements as the set. */
  lemma {:induction false} EnumerationSize(ks: seq<char>, keys: set<char>)
    requires Enumerates(ks, keys)
    ensures |ks| == |keys|
    decreases |ks|
  {
    if |ks| == 0 {
      assert keys == {};
    } else {
      var init, last := ks[..|ks| - 1], ks[|ks| - 1];
      DistinctPrefix(ks);
      assert ks == init + [last];
      assert forall k :: k in keys - {last} ==> k in init;
      EnumerationSize(init, keys - {last});
    }
  }

  lemma {:induction false} SumMultiplicitiesAdd(ms: multiset<char>, x: char, ks: seq<char>)
    requires Distinct(ks)
    ensures SumMultiplicities(ms + multiset{x}, ks) == SumMultiplicities(ms, ks) + (if x in ks then 1 else 0)
    decreases |ks|
  {
    if |ks| > 0 {
      var init := ks[..|ks| - 1];
      DistinctPrefix(ks);
      SumMultiplicitiesAdd(ms, x, init);
      assert ks == init + [ks[|ks| - 1]];
    }
  }

  lemma {:induction false} SumMultiplicitiesOfEmpty(ks: seq<char>)
    ensures SumMultiplicities(multiset{}, ks) == 0
    decreases |ks|
  {
    if |ks| > 0 {
      SumMultiplicitiesOfEmpty(ks[..|ks| - 1]);
    }
  }

  /** Summing the multiplicities over a list covering the multiset once gives its size. */
  lemma {:induction false} SumMultiplicitiesCovering(ms: multiset<char>, ks: seq<char>)
    requires Distinct(ks) && forall x :: x in ms ==> x in ks
    ensures SumMultiplicities(ms, ks) == |ms|
    decreases |ms|
  {
    if |ms| == 0 {
      SumMultiplicitiesOfEmpty(ks);
    } else {
      var x :| x in ms;
      var rest := ms - multiset{x};
      assert ms == rest + multiset{x};
      SumMultiplicitiesCovering(rest, ks);
      SumMultiplicitiesAdd(rest, x, ks);
    }
  }

  lemma {:induction false} SumOverIsSumMultiplicities(s: seq<char>, ks: seq<char>)
    requires forall i :: 0 <= i < |ks| ==> ks[i] in Tally(map[], s)
    ensures SumOver(Tally(map[], s), ks) == SumMultiplicities(multiset(s), ks)
    decreases |ks|
  {
    CountsFromEmpty(s);
    if |ks| > 0 {
      SumOverIsSumMultiplicities(s, ks[..|ks| - 1]);
    }
  }

  /** The counts of all the keys, in any order, add up to the input length. */
  lemma CountsSumToLength(s: seq<char>, ks: seq<char>)
    requires Enumerates(ks, Tally(map[], s).Keys)
    ensures SumOver(Tally(map[], s), ks) == |s|
  {
    CountsFromEmpty(s);
    SumOverIsSumMultiplicities(s, ks);
    SumMultiplicitiesCovering(multiset(s), ks);
  }
}
