/**
 * The node payload of CharFreq.java: an optional character and a
 * frequency. An absent character (Java's null) marks an internal node of a
 * Huffman tree. Both fields are fixed at construction: there are no setters.
 */
module CharFreqs {
  import opened Wrappers

  datatype CharFreq = CharFreq(c: Option<char>, f: int)

  /** The two-argument constructor: stores the character and the frequency. */
  function MakeCharFreq(character: Option<char>, frequency: int): (cf: CharFreq)
    ensures GetChar(cf) == character && GetFreq(cf) == frequency
  {
    CharFreq(character, frequency)
  }

  /** The frequency-only constructor: the character stays null. */
  function FreqOnly(frequency: int): (cf: CharFreq)
    ensures GetChar(cf).None? && GetFreq(cf) == frequency
  {
    CharFreq(None, frequency)
  }

  function GetChar(cf: CharFreq): Option<char>
  {
    cf.c
  }

  function GetFreq(cf: CharFreq): int
  {
    cf.f
  }

  function DigitChar(d: nat): (ch: char)
    requires d < 10
    ensures '0' <= ch <= '9' && ch as int - '0' as int == d
  {
    ['0', '1', '2', '3', '4', '5', '6', '7', '8', '9'][d]
  }

  predicate IsDigits(s: string)
  {
    forall i :: 0 <= i < |s| ==> '0' <= s[i] <= '9'
  }

  /** A decimal numeral as Integer.toString writes one: digits, no leading zero unless it is "0". */
  predicate IsNumeral(s: string)
  {
    |s| >= 1 && IsDigits(s) && (s[0] == '0' ==> |s| == 1)
  }

  /** Decimal digits of a natural number, without leading zeros. */
  function NatToString(n: nat): (s: string)
    ensures IsNumeral(s)
    ensures s[0] == '0' ==> n == 0
  {
    if n < 10 then [DigitChar(n)] else NatToString(n / 10) + [DigitChar(n % 10)]
  }

  /** Java's decimal rendering of an int: a minus sign, then the digits. */
  function IntToString(n: int): (s: string)
    ensures |s| >= 1
  {
    if n < 0 then "-" + NatToString(-n) else NatToString(n)
  }

  function ParseDigits(s: string): nat
    requires IsDigits(s)
  {
    if |s| == 0 then 0
    else 10 * ParseDigits(s[..|s| - 1]) + (s[|s| - 1] as int - '0' as int)
  }

  /**
   * Reads a decimal int in the form Integer.toString writes it: an optional
   * minus sign before a numeral other than "0". Anything else is None.
   */
  function ParseInt(s: string): Option<int>
  {
    if |s| > 0 && s[0] == '-' && IsNumeral(s[1..]) && s[1] != '0' then Some(0 - ParseDigits(s[1..]) as int)
    else if IsNumeral(s) then Some(ParseDigits(s) as int)
    else None
  }

  lemma {:induction false} ParseNatToString(n: nat)
    ensures ParseDigits(NatToString(n)) == n
  {
    if n >= 10 {
      var s := NatToString(n);
      ParseNatToString(n / 10);
      assert s[..|s| - 1] == NatToString(n / 10);
    }
  }

  /** A numeral is the rendering of the number it denotes. */
  lemma {:induction false} NatToStringParse(s: string)
    requires IsNumeral(s)
    ensures NatToString(ParseDigits(s)) == s
    decreases |s|
  {
    var n, d := ParseDigits(s), s[|s| - 1] as int - '0' as int;
    if |s| == 1 {
      assert DigitChar(d) == s[0];
    } else {
      var init := s[..|s| - 1];
      assert init[0] == s[0];
      NatToStringParse(init);
      var m := ParseDigits(init);
      assert m != 0;
      assert n / 10 == m && n % 10 == d;
      assert DigitChar(d) == s[|s| - 1];
      assert s == init + [s[|s| - 1]];
    }
  }

  /** A minus sign before the rendering of a positive number reads as its negation. */
  lemma ParseNegative(m: nat)
    requires m > 0
    ensures ParseInt("-" + NatToString(m)) == Some(-(m as int))
  {
    var digits := NatToString(m);
    ParseNatToString(m);
    assert ("-" + digits)[1..] == digits;
  }

  /** The rendering of a natural number reads as that number. */
  lemma ParseNumeral(m: nat)
    ensures ParseInt(NatToString(m)) == Some(m)
  {
    var digits := NatToString(m);
    ParseNatToString(m);
    assert '0' <= digits[0] <= '9';
  }

  /** A numeral with a non-zero first digit denotes a positive number. */
  lemma NumeralPositive(digits: string)
    requires IsNumeral(digits) && digits[0] != '0'
    ensures ParseDigits(digits) > 0
  {
    NatToStringParse(digits);
    assert NatToString(0)[0] == '0';
  }

  /** The decimal rendering loses nothing: parsing it gives the number back. */
  lemma ParseIntToString(n: int)
    ensures ParseInt(IntToString(n)) == Some(n)
  {
    var s := IntToString(n);
    if n < 0 {
      var m: nat := -n;
      ParseNegative(m);
      assert s == "-" + NatToString(m);
      assert ParseInt(s) == Some(-(m as int));
    } else {
      ParseNumeral(n);
      assert s == NatToString(n);
    }
  }

  /** Only the rendering of `n` reads back as `n`: the rendering is the one canonical form. */
  lemma ParseIntCanonical(s: string, n: int)
    requires ParseInt(s) == Some(n)
    ensures s == IntToString(n)
  {
    if |s| > 0 && s[0] == '-' && IsNumeral(s[1..]) && s[1] != '0' {
      var digits := s[1..];
      var m := ParseDigits(digits);
      assert n == -(m as int);
      assert s == "-" + digits;
      NatToStringParse(digits);
      NumeralPositive(digits);
      RenderNegative(m);
    } else {
      assert n == ParseDigits(s) as int;
      NatToStringParse(s);
    }
  }

  /** A negative number renders as a minus sign before the digits of its magnitude. */
  lemma RenderNegative(m: nat)
    requires m > 0
    ensures IntToString(-(m as int)) == "-" + NatToString(m)
  {
  }

  /** toString: "c : f" for a leaf payload, just "f" for an internal one. */
  function ToString(cf: CharFreq): (s: string)
    ensures cf.c.Some? ==> |s| >= 4 && s[0] == cf.c.value && s[1..4] == " : "
                           && ParseInt(s[4..]) == Some(cf.f)
    ensures cf.c.None? ==> ParseInt(s) == Some(cf.f)
  {
    ParseIntToString(cf.f);
    if cf.c.Some? then
      var s := [cf.c.value] + " : " + IntToString(cf.f);
      assert s[4..] == IntToString(cf.f);
      s
    else IntToString(cf.f)
  }

  /** Only a leaf payload's rendering contains a space. */
  lemma SpaceMarksLeaf(cf: CharFreq)
    ensures ' ' in ToString(cf) <==> cf.c.Some?
  {
    var s := ToString(cf);
    if cf.c.Some? {
      assert s[1..4][1] == s[2];
    } else {
      NoSpaceInNumber(cf.f);
    }
  }

  /** Distinct payloads never print the same. */
  lemma ToStringInjective(a: CharFreq, b: CharFreq)
    requires ToString(a) == ToString(b)
    ensures a == b
  {
    SpaceMarksLeaf(a);
    SpaceMarksLeaf(b);
  }

  lemma NoSpaceInNumber(n: int)
    ensures ' ' !in IntToString(n)
  {
  }
}
