/** The two pieces of JavaScript string behaviour the chat window relies on:
    `String.prototype.trim` (the send guard) and the decimal rendering of a
    number inside a template literal (the generated session name). */
module JsText {

  /** The characters `trim` strips: ECMAScript WhiteSpace (TAB, VT, FF, SP,
      NBSP, ZWNBSP and the other space separators) and LineTerminator
      (LF, CR, LS, PS). */
  predicate IsTrimmable(ch: char) {
    || ch == '\t' || ch == '\U{B}' || ch == '\U{C}' || ch == ' '
    || ch == '\U{A0}' || ch == '\U{FEFF}' || ch == '\U{1680}'
    || ('\U{2000}' <= ch <= '\U{200A}')
    || ch == '\U{202F}' || ch == '\U{205F}' || ch == '\U{3000}'
    || ch == '\n' || ch == '\r' || ch == '\U{2028}' || ch == '\U{2029}'
  }

  /** True when every character of `s` satisfies `strip`. */
  predicate AllStrippable(s: string, strip: char -> bool) {
    forall i :: 0 <= i < |s| ==> strip(s[i])
  }

  /** `s` without its leading characters that satisfy `strip`. */
  function StripLeading(s: string, strip: char -> bool): (r: string)
    ensures |r| <= |s| && r == s[|s| - |r|..]
    ensures r == [] || !strip(r[0])
    ensures AllStrippable(s[..|s| - |r|], strip)
  {
    if s == [] || !strip(s[0]) then s
    else
      var r := StripLeading(s[1..], strip);
      LeadingStep(s, r, strip);
      r
  }

  /** `s` without its trailing characters that satisfy `strip`. */
  function StripTrailing(s: string, strip: char -> bool): (r: string)
    ensures |r| <= |s| && r == s[..|r|]
    ensures r == [] || !strip(r[|r| - 1])
    ensures AllStrippable(s[|r|..], strip)
  {
    if s == [] || !strip(s[|s| - 1]) then s
    else
      var r := StripTrailing(s[..|s| - 1], strip);
      TrailingStep(s, r, strip);
      r
  }

  /** A strippable first character joins the stripped prefix of the rest. */
  lemma LeadingStep(s: string, r: string, strip: char -> bool)
    requires |s| > 0 && strip(s[0])
    requires |r| <= |s| - 1 && r == s[1..][|s| - 1 - |r|..]
    requires AllStrippable(s[1..][..|s| - 1 - |r|], strip)
    ensures r == s[|s| - |r|..]
    ensures AllStrippable(s[..|s| - |r|], strip)
  {
    assert s[..|s| - |r|] == [s[0]] + s[1..][..|s| - 1 - |r|];
  }

  /** A strippable last character joins the stripped suffix of the rest. */
  lemma TrailingStep(s: string, r: string, strip: char -> bool)
    requires |s| > 0 && strip(s[|s| - 1])
    requires |r| <= |s| - 1 && r == s[..|s| - 1][..|r|]
    requires AllStrippable(s[..|s| - 1][|r|..], strip)
    ensures r == s[..|r|]
    ensures AllStrippable(s[|r|..], strip)
  {
    assert s[|r|..] == s[..|s| - 1][|r|..] + [s[|s| - 1]];
  }

  /** Both ends stripped: the infix that is left sits between a strippable
      prefix and a strippable suffix, and it is empty exactly when all of
      `s` is strippable. */
  function StripBoth(s: string, strip: char -> bool): (r: string)
    ensures exists a, b :: 0 <= a <= b <= |s| && r == s[a..b]
                           && AllStrippable(s[..a], strip) && AllStrippable(s[b..], strip)
    ensures r != [] ==> !strip(r[0]) && !strip(r[|r| - 1])
    ensures r == [] <==> AllStrippable(s, strip)
  {
    var t := StripLeading(s, strip);
    var r := StripTrailing(t, strip);
    StripBothFacts(s, t, r, strip);
    r
  }

  lemma StripBothFacts(s: string, t: string, r: string, strip: char -> bool)
    requires t == StripLeading(s, strip) && r == StripTrailing(t, strip)
    ensures var a := |s| - |t|;
            && a + |r| <= |s| && r == s[a..a + |r|]
            && AllStrippable(s[..a], strip) && AllStrippable(s[a + |r|..], strip)
    ensures r == [] <==> AllStrippable(s, strip)
  {
    StripInfix(s, t, r, strip);
    StripSuffix(s, t, r, strip);
    StripEmptyIff(s, t, r, strip);
  }

  lemma StripInfix(s: string, t: string, r: string, strip: char -> bool)
    requires t == StripLeading(s, strip) && r == StripTrailing(t, strip)
    ensures |s| - |t| + |r| <= |s| && r == s[|s| - |t|..|s| - |t| + |r|]
  {
    PrefixOfSuffix(s, t, r);
  }

  /** A prefix of a suffix of `s` is an infix of `s`. */
  lemma PrefixOfSuffix<T>(s: seq<T>, t: seq<T>, r: seq<T>)
    requires |t| <= |s| && t == s[|s| - |t|..]
    requires |r| <= |t| && r == t[..|r|]
    ensures r == s[|s| - |t|..|s| - |t| + |r|]
  {
  }

  lemma StripSuffix(s: string, t: string, r: string, strip: char -> bool)
    requires t == StripLeading(s, strip) && r == StripTrailing(t, strip)
    ensures |s| - |t| + |r| <= |s| && AllStrippable(s[|s| - |t| + |r|..], strip)
  {
    assert s[|s| - |t| + |r|..] == t[|r|..];
  }

  lemma StripEmptyIff(s: string, t: string, r: string, strip: char -> bool)
    requires t == StripLeading(s, strip) && r == StripTrailing(t, strip)
    ensures r == [] <==> AllStrippable(s, strip)
  {
    if r == [] {
      StripEmptyAll(s, t, strip);
    } else {
      StripInfix(s, t, r, strip);
      assert r[0] == s[|s| - |t|];
    }
  }

  lemma StripEmptyAll(s: string, t: string, strip: char -> bool)
    requires t == StripLeading(s, strip) && StripTrailing(t, strip) == []
    ensures AllStrippable(s, strip)
  {
    var a := |s| - |t|;
    assert s == s[..a] + t;
    AllStrippableConcat(s[..a], t, strip);
  }

  lemma AllStrippableConcat(x: string, y: string, strip: char -> bool)
    requires AllStrippable(x, strip) && AllStrippable(y, strip)
    ensures AllStrippable(x + y, strip)
  {
    forall i | 0 <= i < |x + y| ensures strip((x + y)[i]) {
      if i >= |x| { assert (x + y)[i] == y[i - |x|]; }
    }
  }

  /** `String.prototype.trim`. */
  function Trim(s: string): (r: string)
    ensures exists a, b :: 0 <= a <= b <= |s| && r == s[a..b]
                           && AllStrippable(s[..a], IsTrimmable) && AllStrippable(s[b..], IsTrimmable)
    ensures r != [] ==> !IsTrimmable(r[0]) && !IsTrimmable(r[|r| - 1])
    ensures r == [] <==> forall i :: 0 <= i < |s| ==> IsTrimmable(s[i])
  {
    StripBoth(s, IsTrimmable)
  }

  /** The digit character for `d`. */
  function DigitChar(d: nat): (ch: char)
    requires d < 10
    ensures '0' <= ch <= '9'
    ensures ch as int - '0' as int == d
  {
    (('0' as int) + d) as char
  }

  predicate IsDigits(s: string) {
    forall i :: 0 <= i < |s| ==> '0' <= s[i] <= '9'
  }

  /** How JavaScript renders a non-negative integer in a template literal:
      plain decimal, no sign, no leading zero. */
  function NatToString(n: nat): (r: string)
    ensures |r| >= 1 && IsDigits(r)
    ensures r[0] == '0' ==> n == 0 && r == "0"
    decreases n
  {
    if n < 10 then [DigitChar(n)] else NatToString(n / 10) + [DigitChar(n % 10)]
  }

  /** The number a string of decimal digits denotes. */
  function DecimalValue(s: string): nat
    requires IsDigits(s)
  {
    if s == [] then 0
    else DecimalValue(s[..|s| - 1]) * 10 + (s[|s| - 1] as int - '0' as int)
  }

  /** Reading back the rendered decimal gives the number. */
  lemma {:induction false} DecimalRoundTrip(n: nat)
    ensures DecimalValue(NatToString(n)) == n
    decreases n
  {
    if n >= 10 {
      var r := NatToString(n);
      DecimalRoundTrip(n / 10);
      assert r[..|r| - 1] == NatToString(n / 10);
    }
  }

  /** Distinct numbers render as distinct strings. */
  lemma NatToStringInjective(a: nat, b: nat)
    ensures NatToString(a) == NatToString(b) <==> a == b
  {
    if NatToString(a) == NatToString(b) {
      DecimalRoundTrip(a);
      DecimalRoundTrip(b);
    }
  }
}
