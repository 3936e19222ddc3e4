/**
 * The code table, the encoder and the decoder of HuffmanCompressor.java, as
 * functions: `CodeTable` is what makeCharCodes stores, `Encode` the bits the
 * compress loop writes, and `Walk` the characters the decompress state
 * machine writes. The loops themselves are methods of
 * `Compressor.HuffmanCompressor`, proved equal to these functions.
 */
module HuffmanCodes {
  import opened Wrappers
  import opened BinaryTrees
  import opened CharFreqs
  import opened HuffmanTrees

  /** A bit as the bit writer takes it and the bit reader returns it. */
  type Bit = b: int | 0 <= b <= 1

  /**
   * makeCharCodes(t, code): below an internal node the left child gets
   * `code + "0"` and the right child `code + "1"`; a node with a character
   * records `code`, or "0" when `code` is empty (a lone leaf at the root).
   * Entries made later (further right) win over earlier ones for the same
   * character.
   */
  function CodeTable(t: HTree, code: string): (codes: map<char, string>)
    requires Walkable(t)
    ensures forall c :: c in codes ==> code <= codes[c] && |codes[c]| >= 1
    ensures GetChar(t.data).None? ==> forall c :: c in codes ==> |codes[c]| > |code|
    ensures GetChar(t.data).Some? && code != "" ==> codes == map[GetChar(t.data).value := code]
    decreases t
  {
    if GetChar(t.data).None? then
      CodeTable(t.left, code + "0") + CodeTable(t.right, code + "1")
    else
      map[GetChar(t.data).value := if code == "" then "0" else code]
  }

  /** A lone leaf at the root gets the code "0", since its path is empty. */
  lemma LoneLeafCode(c: char, f: int)
    ensures CodeTable(LeafTree(c, f), "") == map[c := "0"]
  {
  }

  /** The table has one entry per character the tree holds. */
  lemma {:induction false} CodeTableKeys(t: HTree, code: string)
    requires Walkable(t)
    ensures forall c :: c in CodeTable(t, code) <==> c in Symbols(t)
  {
    if GetChar(t.data).None? {
      CodeTableKeys(t.left, code + "0");
      CodeTableKeys(t.right, code + "1");
    }
  }

  /** No code of one character is a prefix of the code of another. */
  ghost predicate PrefixFree(codes: map<char, string>)
  {
    forall a, b :: a in codes && b in codes && a != b ==> !(codes[a] <= codes[b])
  }

  /** Codes below different children of one node are not prefixes of each other. */
  lemma BranchesDiffer(code: string, zero: string, one: string)
    requires code + "0" <= zero && code + "1" <= one
    ensures !(zero <= one) && !(one <= zero)
  {
    assert zero[|code|] == '0' && one[|code|] == '1';
  }

  /** The table makeCharCodes builds is prefix-free. */
  lemma {:induction false} CodesArePrefixFree(t: HTree, code: string)
    requires Walkable(t)
    ensures PrefixFree(CodeTable(t, code))
  {
    if GetChar(t.data).None? {
      var c0, c1 := code + "0", code + "1";
      var left, right := CodeTable(t.left, c0), CodeTable(t.right, c1);
      CodesArePrefixFree(t.left, c0);
      CodesArePrefixFree(t.right, c1);
      var codes := CodeTable(t, code);
      forall a, b | a in codes && b in codes && a != b ensures !(codes[a] <= codes[b]) {
        var ca := if a in right then right[a] else left[a];
        var cb := if b in right then right[b] else left[b];
        assert codes[a] == ca && codes[b] == cb;
        if a in right && b !in right {
          BranchesDiffer(code, cb, ca);
        } else if a !in right && b in right {
          BranchesDiffer(code, ca, cb);
        } else if a in right {
          assert !(right[a] <= right[b]);
        } else {
          assert !(left[a] <= left[b]);
        }
      }
    }
  }

  /** The bits written for one code: '1' gives 1, any other character 0. */
  function Bits(code: string): (bits: seq<Bit>)
    ensures |bits| == |code|
  {
    if |code| == 0 then [] else [if code[0] == '1' then 1 else 0] + Bits(code[1..])
  }

  /**
   * The compress loop: the codes of the characters of `s`, in order; None
   * when some character has no code (the source's lookup yields null).
   */
  function Encode(s: seq<char>, codes: map<char, string>): Option<seq<Bit>>
    decreases |s|
  {
    if |s| == 0 then Some([])
    else
      var init, last := s[..|s| - 1], s[|s| - 1];
      if last !in codes then None
      else
        var prefix := Encode(init, codes);
        if prefix.None? then None else Some(prefix.value + Bits(codes[last]))
  }

  /** Encoding one more character appends its code's bits. */
  lemma EncodeSnoc(s: seq<char>, c: char, codes: map<char, string>)
    requires c in codes && Encode(s, codes).Some?
    ensures Encode(s + [c], codes) == Some(Encode(s, codes).value + Bits(codes[c]))
  {
    assert (s + [c])[..|s|] == s;
  }

  /** A non-empty encoding ends with the bits of the last character. */
  lemma EncodeLast(s: seq<char>, codes: map<char, string>)
    requires |s| > 0 && Encode(s, codes).Some?
    ensures s[|s| - 1] in codes && Encode(s[..|s| - 1], codes).Some?
    ensures Encode(s, codes).value == Encode(s[..|s| - 1], codes).value + Bits(codes[s[|s| - 1]])
  {
  }

  lemma AppendAssociative<T>(a: seq<T>, b: seq<T>, c: seq<T>)
    ensures a + b + c == a + (b + c)
  {
  }

  /** Encoding succeeds exactly when every character of the input has a code. */
  lemma {:induction false} EncodeDefinedIff(s: seq<char>, codes: map<char, string>)
    ensures Encode(s, codes).Some? <==> forall i :: 0 <= i < |s| ==> s[i] in codes
    decreases |s|
  {
    if |s| > 0 {
      EncodeDefinedIff(s[..|s| - 1], codes);
      assert forall i :: 0 <= i < |s| - 1 ==> s[..|s| - 1][i] == s[i];
    }
  }

  /**
   * The decoder can run from node `temp` of the tree `root`: both are
   * complete below every internal node, and unless there is a single
   * distinct character the root is internal, so that each emitted character
   * is followed by reading at least one bit.
   */
  ghost predicate Decodable(root: HTree, temp: HTree, single: bool)
  {
    Walkable(root) && Walkable(temp) && (single || GetChar(root.data).None?)
  }

  /**
   * The decompress state machine, from node `temp`: at an internal node read
   * one bit and go left on 0, right otherwise (end of input stops it); at a
   * node with a character, with a single distinct character read one bit and
   * emit the character unless the input has ended, otherwise emit the
   * character without reading. After emitting it starts again at the root.
   */
  function Walk(root: HTree, temp: HTree, bits: seq<Bit>, single: bool): seq<char>
    requires Decodable(root, temp, single)
    decreases |bits|, if GetChar(temp.data).None? then 0 else 1
  {
    if GetChar(temp.data).None? then
      if |bits| == 0 then []
      else Walk(root, if bits[0] == 0 then temp.left else temp.right, bits[1..], single)
    else if single then
      if |bits| == 0 then [] else [GetChar(temp.data).value] + Walk(root, root, bits[1..], single)
    else
      [GetChar(temp.data).value] + Walk(root, root, bits, single)
  }

  /** Writing one more code character appends its bit. */
  lemma {:induction false} BitsSnoc(code: string, ch: char)
    ensures Bits(code + [ch]) == Bits(code) + [if ch == '1' then 1 else 0]
    decreases |code|
  {
    if |code| > 0 {
      assert (code + [ch])[1..] == code[1..] + [ch];
      BitsSnoc(code[1..], ch);
    } else {
      assert code + [ch] == [ch];
    }
  }

  /** The bits of a code that extends `code + [ch]`, read from after `code`. */
  lemma SuffixBits(code: string, ch: char, full: string, rest: seq<Bit>)
    requires code + [ch] <= full
    ensures Bits(full[|code|..]) + rest
         == [if ch == '1' then 1 else 0] + (Bits(full[|code| + 1..]) + rest)
  {
    assert full[|code|..] == [ch] + full[|code| + 1..];
  }

  /** One step of the decoder at an internal node. */
  lemma WalkStep(root: HTree, t: HTree, b: Bit, tail: seq<Bit>)
    requires Walkable(root) && GetChar(root.data).None?
    requires Walkable(t) && GetChar(t.data).None?
    ensures Walk(root, t, [b] + tail, false)
         == Walk(root, if b == 0 then t.left else t.right, tail, false)
  {
    assert ([b] + tail)[1..] == tail;
  }

  /**
   * A state of the decompress loop on its way to writing `whole`: it stands
   * at node `temp`, has read `bits[..pos]` and written `out`, and walking on
   * from there writes the rest of `whole`.
   */
  ghost predicate Decoding(root: HTree, temp: HTree, bits: seq<Bit>, pos: int, single: bool,
                           out: seq<char>, whole: seq<char>)
  {
    && 0 <= pos <= |bits|
    && Decodable(root, temp, single)
    && out + Walk(root, temp, bits[pos..], single) == whole
  }

  /** At an internal node, reading a bit moves to the child it names. */
  lemma DecodeBranch(root: HTree, temp: HTree, bits: seq<Bit>, pos: int, single: bool,
                     out: seq<char>, whole: seq<char>)
    requires Decoding(root, temp, bits, pos, single, out, whole)
    requires GetChar(temp.data).None? && pos < |bits|
    ensures Decoding(root, if bits[pos] == 0 then temp.left else temp.right, bits, pos + 1, single, out, whole)
  {
    assert bits[pos..][1..] == bits[pos + 1..];
  }

  /** At an internal node, the end of the bits ends the output. */
  lemma DecodeBranchAtEnd(root: HTree, temp: HTree, bits: seq<Bit>, pos: int, single: bool,
                          out: seq<char>, whole: seq<char>)
    requires Decoding(root, temp, bits, pos, single, out, whole)
    requires GetChar(temp.data).None? && pos == |bits|
    ensures out == whole
  {
    assert bits[pos..] == [];
  }

  /** Below an internal root, a node with a character writes it and goes back to the root. */
  lemma DecodeEmit(root: HTree, temp: HTree, bits: seq<Bit>, pos: int, single: bool,
                   out: seq<char>, whole: seq<char>)
    requires Decoding(root, temp, bits, pos, single, out, whole)
    requires GetChar(temp.data).Some? && !single
    ensures Decoding(root, root, bits, pos, single, out + [GetChar(temp.data).value], whole)
  {
    AppendAssociative(out, [GetChar(temp.data).value], Walk(root, root, bits[pos..], single));
  }

  /** With a single character, each bit read writes it. */
  lemma DecodeEmitSingle(root: HTree, temp: HTree, bits: seq<Bit>, pos: int, single: bool,
                         out: seq<char>, whole: seq<char>)
    requires Decoding(root, temp, bits, pos, single, out, whole)
    requires GetChar(temp.data).Some? && single && pos < |bits|
    ensures Decoding(root, root, bits, pos + 1, single, out + [GetChar(temp.data).value], whole)
  {
    assert bits[pos..][1..] == bits[pos + 1..];
    AppendAssociative(out, [GetChar(temp.data).value], Walk(root, root, bits[pos + 1..], single));
  }

  /** With a single character, the end of the bits ends the output. */
  lemma DecodeSingleAtEnd(root: HTree, temp: HTree, bits: seq<Bit>, pos: int, single: bool,
                          out: seq<char>, whole: seq<char>)
    requires Decoding(root, temp, bits, pos, single, out, whole)
    requires GetChar(temp.data).Some? && single && pos == |bits|
    ensures out == whole
  {
    assert bits[pos..] == [];
  }

  /**
   * Below an internal root, the bits of a character's code lead from the
   * subtree it was generated in to that character, which is then emitted.
   */
  lemma {:induction false} WalkFollowsCode(root: HTree, t: HTree, code: string, c: char, rest: seq<Bit>)
    requires Walkable(root) && GetChar(root.data).None? && Walkable(t)
    requires c in CodeTable(t, code) && (code != "" || GetChar(t.data).None?)
    ensures Walk(root, t, Bits(CodeTable(t, code)[c][|code|..]) + rest, false)
         == [c] + Walk(root, root, rest, false)
    decreases t
  {
    var full := CodeTable(t, code)[c];
    if GetChar(t.data).None? {
      var c0, c1 := code + "0", code + "1";
      var right := CodeTable(t.right, c1);
      var child := if c in right then t.right else t.left;
      var sub := if c in right then c1 else c0;
      var b: Bit := if c in right then 1 else 0;
      assert full == CodeTable(child, sub)[c];
      WalkFollowsCode(root, child, sub, c, rest);
      SuffixBits(code, if c in right then '1' else '0', full, rest);
      WalkStep(root, t, b, Bits(full[|sub|..]) + rest);
    } else {
      assert full[|code|..] == [];
      assert Bits(full[|code|..]) + rest == rest;
    }
  }

  /** From the root, reading a character's code emits exactly that character. */
  lemma CodeDecodes(root: HTree, c: char, rest: seq<Bit>, single: bool)
    requires Walkable(root) && c in CodeTable(root, "")
    requires single <==> GetChar(root.data).Some?
    ensures Walk(root, root, Bits(CodeTable(root, "")[c]) + rest, single)
         == [c] + Walk(root, root, rest, single)
  {
    if single {
      var bits := Bits(CodeTable(root, "")[c]) + rest;
      assert bits[0] == 0 && bits[1..] == rest;
    } else {
      WalkFollowsCode(root, root, "", c, rest);
      assert CodeTable(root, "")[c][0..] == CodeTable(root, "")[c];
    }
  }

  /** Decoding the concatenated codes of `s` gives back `s`. */
  lemma {:induction false} DecodeEncoded(root: HTree, s: seq<char>, rest: seq<Bit>, single: bool)
    requires Walkable(root) && (single <==> GetChar(root.data).Some?)
    requires Encode(s, CodeTable(root, "")).Some?
    ensures Walk(root, root, Encode(s, CodeTable(root, "")).value + rest, single)
         == s + Walk(root, root, rest, single)
    decreases |s|
  {
    if |s| > 0 {
      var codes := CodeTable(root, "");
      var init, last := s[..|s| - 1], s[|s| - 1];
      EncodeLast(s, codes);
      var bits := Bits(codes[last]);
      AppendAssociative(Encode(init, codes).value, bits, rest);
      DecodeEncoded(root, init, bits + rest, single);
      CodeDecodes(root, last, rest, single);
      AppendAssociative(init, [last], Walk(root, root, rest, single));
      assert s == init + [last];
    } else {
      assert Encode(s, CodeTable(root, "")).value + rest == rest;
    }
  }
}
