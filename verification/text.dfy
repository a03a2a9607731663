/** The string operations the application applies to CSV fields and dialog
    entries: Python's str.strip(), str.lower(), int() on a decimal string and
    str() of an integer. Only ASCII is modelled: whitespace is the ASCII set
    that str.isspace() accepts, lower-casing maps A-Z, and int() accepts
    surrounding whitespace, one optional sign and one or more ASCII digits. */
module Text {
  import opened Options

  // ---------------------------------------------------------------------
  // Whitespace and case
  // ---------------------------------------------------------------------

  /** The ASCII characters str.isspace() accepts: tab, newline, vertical tab,
      form feed, carriage return, the four separators 0x1C-0x1F and space. */
  predicate IsSpace(c: char) {
    9 <= c as int <= 13 || 28 <= c as int <= 32
  }

  function StripLeft(s: string): (r: string)
    ensures |r| <= |s| && r == s[|s| - |r|..]
    ensures |r| > 0 ==> !IsSpace(r[0])
    ensures forall i :: 0 <= i < |s| - |r| ==> IsSpace(s[i])
  {
    if |s| > 0 && IsSpace(s[0]) then StripLeft(s[1..]) else s
  }

  function StripRight(s: string): (r: string)
    ensures |r| <= |s| && r == s[..|r|]
    ensures |r| > 0 ==> !IsSpace(r[|r| - 1])
    ensures forall i :: |r| <= i < |s| ==> IsSpace(s[i])
  {
    if |s| > 0 && IsSpace(s[|s| - 1]) then StripRight(s[..|s| - 1]) else s
  }

  /** str.strip(): the string without its leading and trailing whitespace. */
  function Strip(s: string): string {
    StripRight(StripLeft(s))
  }

  /** Stripping removes only whitespace, from both ends, and leaves an
      unpadded string: its ends are not whitespace. */
  lemma StripShape(s: string)
    ensures var k, r := |s| - |StripLeft(s)|, Strip(s);
      && k + |r| <= |s|
      && (forall j :: 0 <= j < |r| ==> r[j] == s[k + j])
      && (forall j :: 0 <= j < k ==> IsSpace(s[j]))
      && (forall j :: k + |r| <= j < |s| ==> IsSpace(s[j]))
      && (|r| > 0 ==> !IsSpace(r[0]) && !IsSpace(r[|r| - 1]))
  {
    StripInside(s);
    StripEnds(StripLeft(s));
  }

  /** The stripped text sits inside s after the leading whitespace, and only
      whitespace follows it. */
  lemma StripInside(s: string)
    ensures var k, r := |s| - |StripLeft(s)|, Strip(s);
      && k + |r| <= |s|
      && (forall j :: 0 <= j < |r| ==> r[j] == s[k + j])
      && (forall j :: k + |r| <= j < |s| ==> IsSpace(s[j]))
  {
    var l := StripLeft(s);
    assert Strip(s) == StripRight(l);
    StripSlice(s, l);
  }

  /** The stripped text sits inside s, and only whitespace follows it. */
  lemma StripSlice(s: string, l: string)
    requires |l| <= |s| && l == s[|s| - |l|..]
    ensures var k, r := |s| - |l|, StripRight(l);
      && k + |r| <= |s|
      && (forall j :: 0 <= j < |r| ==> r[j] == s[k + j])
      && (forall j :: k + |r| <= j < |s| ==> IsSpace(s[j]))
  {
    var k, r := |s| - |l|, StripRight(l);
    forall j | 0 <= j < |r|
      ensures r[j] == s[k + j]
    {
      assert r[j] == l[j];
    }
    forall j | k + |r| <= j < |s|
      ensures IsSpace(s[j])
    {
      assert s[j] == l[j - k];
    }
  }

  /** Stripping the right of a left-stripped string keeps its first character. */
  lemma StripEnds(l: string)
    requires |l| > 0 ==> !IsSpace(l[0])
    ensures var r := StripRight(l); |r| > 0 ==> !IsSpace(r[0]) && !IsSpace(r[|r| - 1])
  {
    var r := StripRight(l);
    if |r| > 0 {
      assert r[0] == l[0];
    }
  }

  /** A string that neither starts nor ends with whitespace is its own strip. */
  lemma StripUnpadded(s: string)
    requires |s| > 0 ==> !IsSpace(s[0]) && !IsSpace(s[|s| - 1])
    ensures Strip(s) == s
  {
  }

  function LowerChar(c: char): char {
    if 'A' <= c <= 'Z' then (c as int - 'A' as int + 'a' as int) as char else c
  }

  /** str.lower() on ASCII letters. */
  function Lower(s: string): (r: string)
    ensures |r| == |s|
  {
    seq(|s|, i requires 0 <= i < |s| => LowerChar(s[i]))
  }

  /** A string without upper-case letters is its own lower case. */
  lemma LowerOfLower(s: string)
    requires forall i :: 0 <= i < |s| ==> !('A' <= s[i] <= 'Z')
    ensures Lower(s) == s
  {
    assert forall i :: 0 <= i < |s| ==> Lower(s)[i] == s[i];
  }

  // ---------------------------------------------------------------------
  // Decimal integers
  // ---------------------------------------------------------------------

  predicate IsDigit(c: char) {
    '0' <= c <= '9'
  }

  predicate AllDigits(s: string) {
    forall i :: 0 <= i < |s| ==> IsDigit(s[i])
  }

  function DigitChar(d: nat): char
    requires d < 10
  {
    (d + '0' as int) as char
  }

  function DigitValue(c: char): nat
    requires IsDigit(c)
  {
    c as int - '0' as int
  }

  /** The value of a string of decimal digits, most significant first. */
  function DigitsValue(s: string): nat
    requires AllDigits(s)
  {
    if s == [] then 0 else DigitsValue(s[..|s| - 1]) * 10 + DigitValue(s[|s| - 1])
  }

  /** str() of a natural number: its shortest decimal spelling. */
  function NatToString(n: nat): (r: string)
    ensures |r| > 0 && AllDigits(r)
    ensures DigitsValue(r) == n
    ensures |r| > 1 ==> r[0] != '0'
  {
    if n < 10 then [DigitChar(n)]
    else
      var r := NatToString(n / 10) + [DigitChar(n % 10)];
      assert r[..|r| - 1] == NatToString(n / 10);
      r
  }

  /** str() of an integer: a minus sign before the digits of a negative number. */
  function IntToString(i: int): (r: string)
    ensures |r| > 0 && (r[0] == '-' <==> i < 0)
  {
    if i < 0 then "-" + NatToString(-i) else NatToString(i)
  }

  /** int() of a string: surrounding whitespace is ignored, then an optional
      sign and at least one digit must make up the rest; anything else is the
      ValueError the source catches, modelled as None. */
  function ParseInt(s: string): (r: Option<int>)
    ensures r.Some? ==> |Strip(s)| > 0 && (r.value < 0 ==> Strip(s)[0] == '-')
  {
    var t := Strip(s);
    if |t| > 0 && (t[0] == '-' || t[0] == '+') then
      var digits := t[1..];
      if |digits| > 0 && AllDigits(digits) then
        var v: int := DigitsValue(digits);
        Some(if t[0] == '-' then -v else v)
      else None
    else if |t| > 0 && AllDigits(t) then Some(DigitsValue(t))
    else None
  }

  /** The only strings int() accepts carry digits: the empty string, a lone
      sign and a string of whitespace are all rejected. */
  lemma ParseIntNeedsDigits(s: string)
    requires ParseInt(s).Some?
    ensures exists i :: 0 <= i < |s| && IsDigit(s[i])
  {
    StripShape(s);
    var t := Strip(s);
    var k := |s| - |StripLeft(s)|;
    var d := if t[0] == '-' || t[0] == '+' then 1 else 0;
    assert IsDigit(t[d]);
    assert s[k + d] == t[d];
  }

  /** The value int() gives: once surrounding whitespace is stripped, an
      optional sign followed by digits reads as the signed decimal value of
      those digits, leading zeros included. */
  lemma ParseIntValue(s: string, v: int)
    ensures ParseInt(s) == Some(v) <==>
      var t := Strip(s);
      || (|t| > 1 && t[0] == '-' && AllDigits(t[1..]) && DigitsValue(t[1..]) == -v)
      || (|t| > 1 && t[0] == '+' && AllDigits(t[1..]) && v == DigitsValue(t[1..]))
      || (|t| > 0 && AllDigits(t) && v == DigitsValue(t))
  {
    var t := Strip(s);
    if |t| > 0 && (t[0] == '-' || t[0] == '+') {
      assert !AllDigits(t) by {
        assert !IsDigit(t[0]);
      }
    }
  }

  /** int() ignores surrounding whitespace: a field reads as its stripped
      text does. */
  lemma ParseStripped(s: string)
    ensures ParseInt(s) == ParseInt(Strip(s))
  {
    var l := StripLeft(s);
    var t := StripRight(l);
    assert |t| > 0 ==> t[0] == l[0];
    StripUnpadded(t);
    assert Strip(t) == t;
  }

  /** A sign before a run of digits, leading zeros included, gives the
      signed decimal value of the digits. */
  lemma ParseSigned(t: string)
    requires |t| > 1 && (t[0] == '+' || t[0] == '-') && AllDigits(t[1..])
    ensures t[0] == '+' ==> ParseInt(t) == Some(DigitsValue(t[1..]))
    ensures t[0] == '-' ==> ParseInt(t) == Some(-(DigitsValue(t[1..]) as int))
  {
    SignedUnpadded(t);
  }

  /** A sign followed by digits has nothing to strip. */
  lemma SignedUnpadded(t: string)
    requires |t| > 1 && (t[0] == '+' || t[0] == '-') && AllDigits(t[1..])
    ensures Strip(t) == t
  {
    assert t[|t| - 1] == t[1..][|t| - 2];
    StripUnpadded(t);
  }

  /** A padded field with a plus sign and a leading zero, as a hand-edited
      cell may hold it, reads as its decimal value. */
  lemma ParsePadded()
    ensures ParseInt(" +07 ") == Some(7)
  {
    ParseStripped(" +07 ");
    StripPadded();
    DigitsSeven();
    assert "+07"[1..] == "07";
    ParseSigned("+07");
  }

  /** A minus sign before zero still reads as zero. */
  lemma ParseMinusZero()
    ensures ParseInt("-0") == Some(0)
  {
    assert "-0"[1..] == "0" && "0"[..0] == "";
    assert AllDigits("0") && DigitsValue("0") == 0;
    ParseSigned("-0");
  }

  lemma StripPadded()
    ensures Strip(" +07 ") == "+07"
  {
    assert " +07 "[1..] == "+07 ";
    assert StripLeft(" +07 ") == "+07 ";
    assert "+07 "[..3] == "+07";
  }

  lemma DigitsSeven()
    ensures AllDigits("07") && DigitsValue("07") == 7
  {
    assert "07"[..1] == "0" && "0"[..0] == "";
  }

  /** Reading back what str() wrote gives the same integer. */
  lemma ParseIntRoundTrip(i: int)
    ensures ParseInt(IntToString(i)) == Some(i)
  {
    var s := IntToString(i);
    var digits := NatToString(if i < 0 then -i else i);
    assert !IsSpace(s[0]) && !IsSpace(s[|s| - 1]);
    StripUnpadded(s);
    if i < 0 {
      assert s[1..] == digits;
    }
  }

  /** A decimal spelling is never the word the header row starts with. */
  lemma IntToStringIsNotAWord(i: int, w: string)
    requires |w| > 0 && !IsDigit(w[0]) && w[0] != '-'
    ensures Lower(IntToString(i)) != w
  {
    var s := IntToString(i);
    assert Lower(s)[0] == LowerChar(s[0]) == s[0];
  }
}
