/** The few operations on Python `str` values that the modelled code relies on:
    whitespace as `str.isspace` and the regex class `\s` see it, `strip`,
    argument-less `split`, `join`, ASCII `lower`, and the prefix, suffix and
    substring tests. */
module Strings {

  /** Python's `str.isspace` character set (also what `\s` matches in a `str` pattern). */
  predicate IsSpace(c: char)
  {
    var n := c as int;
    (9 <= n <= 13) || (28 <= n <= 32) || n == 0x85 || n == 0xA0 || n == 0x1680 ||
    (0x2000 <= n <= 0x200A) || n == 0x2028 || n == 0x2029 || n == 0x202F ||
    n == 0x205F || n == 0x3000
  }

  predicate IsQuote(c: char)
  {
    c == '\'' || c == '"'
  }

  predicate IsAsciiDigit(c: char)
  {
    '0' <= c <= '9'
  }

  predicate IsAsciiLetter(c: char)
  {
    ('a' <= c <= 'z') || ('A' <= c <= 'Z')
  }

  predicate NoSpace(s: string)
  {
    forall i :: 0 <= i < |s| ==> !IsSpace(s[i])
  }

  /** The two character sets the code strips: whitespace and quote marks. */
  datatype CharSet = Spaces | Quotes

  predicate In(c: char, cs: CharSet)
  {
    match cs
    case Spaces => IsSpace(c)
    case Quotes => IsQuote(c)
  }

  /** `s.lstrip(cs)` */
  function LStrip(s: string, cs: CharSet): (r: string)
    ensures |r| <= |s| && r == s[|s| - |r|..]
    ensures r == [] || !In(r[0], cs)
    ensures forall i :: 0 <= i < |s| - |r| ==> In(s[i], cs)
  {
    if s == [] || !In(s[0], cs) then s else LStrip(s[1..], cs)
  }

  /** `s.rstrip(cs)` */
  function RStrip(s: string, cs: CharSet): (r: string)
    ensures |r| <= |s| && r == s[..|r|]
    ensures r == [] || !In(r[|r| - 1], cs)
    ensures forall i :: |r| <= i < |s| ==> In(s[i], cs)
  {
    if s == [] || !In(s[|s| - 1], cs) then s else RStrip(s[..|s| - 1], cs)
  }

  /** `r` is `s[i..j]`, and every character of `s` outside that slice is in `cs`. */
  predicate CutTo(s: string, cs: CharSet, r: string, i: int, j: int)
  {
    && 0 <= i <= j <= |s| && r == s[i..j]
    && (forall k :: 0 <= k < i ==> In(s[k], cs))
    && (forall k :: j <= k < |s| ==> In(s[k], cs))
  }

  /** `s.strip()` when `cs` is `Spaces`, `s.strip("'\"")` when it is `Quotes`:
      the slice left once every leading and every trailing character of the
      set is removed. */
  function StripSet(s: string, cs: CharSet): (r: string)
    ensures r == [] || (!In(r[0], cs) && !In(r[|r| - 1], cs))
    ensures exists i, j :: CutTo(s, cs, r, i, j)
  {
    var l := LStrip(s, cs);
    var r := RStrip(l, cs);
    CutCompose(s, cs, l, r);
    r
  }

  /** A left strip `l` of `s` followed by a right strip `r` of `l` cuts `r` out of `s`. */
  lemma CutCompose(s: string, cs: CharSet, l: string, r: string)
    requires |l| <= |s| && l == s[|s| - |l|..] && forall k :: 0 <= k < |s| - |l| ==> In(s[k], cs)
    requires |r| <= |l| && r == l[..|r|] && forall k :: |r| <= k < |l| ==> In(l[k], cs)
    ensures CutTo(s, cs, r, |s| - |l|, |s| - |l| + |r|)
  {
    var i := |s| - |l|;
    assert r == s[i..i + |r|];
    forall k | i + |r| <= k < |s|
      ensures In(s[k], cs)
    {
      assert s[k] == l[k - i];
    }
  }

  /** `s.strip()` */
  function Strip(s: string): (r: string)
  {
    StripSet(s, Spaces)
  }

  lemma {:induction false} AllSpaceLStrip(s: string)
    requires forall i :: 0 <= i < |s| ==> IsSpace(s[i])
    ensures LStrip(s, Spaces) == []
  {
    if s != [] {
      AllSpaceLStrip(s[1..]);
    }
  }

  /** A string of whitespace strips to nothing. */
  lemma AllSpaceStrip(s: string)
    requires forall i :: 0 <= i < |s| ==> IsSpace(s[i])
    ensures Strip(s) == []
  {
    AllSpaceLStrip(s);
  }

  /** Length of the leading run of non-space characters. */
  function WordLen(s: string): (n: nat)
    ensures n <= |s| && NoSpace(s[..n]) && (n == |s| || IsSpace(s[n]))
  {
    if s == [] || IsSpace(s[0]) then 0 else 1 + WordLen(s[1..])
  }

  /** `s.split()`: the maximal runs of non-space characters, in order. */
  function Split(s: string): (r: seq<string>)
    decreases |s|
  {
    if s == [] then []
    else if IsSpace(s[0]) then Split(s[1..])
    else
      var n := WordLen(s);
      [s[..n]] + Split(s[n..])
  }

  /** `sep.join(parts)` */
  function Join(sep: string, parts: seq<string>): string
  {
    if parts == [] then []
    else if |parts| == 1 then parts[0]
    else parts[0] + sep + Join(sep, parts[1..])
  }

  /** `s.lower()`, for the ASCII letters only. */
  function Lower(s: string): (r: string)
    ensures |r| == |s|
    ensures forall i :: 0 <= i < |s| ==> r[i] == LowerChar(s[i])
  {
    seq(|s|, i requires 0 <= i < |s| => LowerChar(s[i]))
  }

  function LowerChar(c: char): char
  {
    if 'A' <= c <= 'Z' then (c as int + 32) as char else c
  }

  predicate StartsWith(s: string, prefix: string)
  {
    |prefix| <= |s| && s[..|prefix|] == prefix
  }

  predicate EndsWith(s: string, suffix: string)
  {
    |suffix| <= |s| && s[|s| - |suffix|..] == suffix
  }

  /** `sub` occurs in `s` starting at index `i`. */
  predicate OccursAt(s: string, sub: string, i: nat)
  {
    i + |sub| <= |s| && s[i..i + |sub|] == sub
  }

  /** Python's `sub in s`. */
  predicate Contains(s: string, sub: string)
  {
    exists i: nat | i <= |s| :: OccursAt(s, sub, i)
  }

  lemma ContainsAt(s: string, sub: string, i: nat)
    requires OccursAt(s, sub, i)
    ensures Contains(s, sub)
  {
  }

  /** A substring of a suffix is a substring of the whole. */
  lemma ContainsSuffix(s: string, i: nat, sub: string)
    requires i <= |s| && Contains(s[i..], sub)
    ensures Contains(s, sub)
  {
    var t := s[i..];
    var k: nat :| k <= |t| && OccursAt(t, sub, k);
    assert forall m | 0 <= m < |sub| :: s[i + k + m] == t[k + m] == sub[m];
    assert s[i + k..i + k + |sub|] == sub;
    ContainsAt(s, sub, i + k);
  }

  /** Every word `split` produces occurs in the text it came from. */
  lemma {:induction false} SplitWordsOccur(s: string, w: string)
    requires w in Split(s)
    ensures Contains(s, w)
    decreases |s|
  {
    if IsSpace(s[0]) {
      SplitWordsOccur(s[1..], w);
      ContainsSuffix(s, 1, w);
    } else {
      var n := WordLen(s);
      if w == s[..n] {
        assert OccursAt(s, w, 0);
      } else {
        SplitWordsOccur(s[n..], w);
        ContainsSuffix(s, n, w);
      }
    }
  }

  /** Every part of a joined list occurs in the joined text. */
  lemma {:induction false} JoinedPartsOccur(sep: string, parts: seq<string>, w: string)
    requires w in parts
    ensures Contains(Join(sep, parts), w)
  {
    var j := Join(sep, parts);
    if |parts| == 1 {
      assert j == w;
      assert OccursAt(j, w, 0);
      ContainsAt(j, w, 0);
    } else {
      assert j == parts[0] + sep + Join(sep, parts[1..]);
      if w == parts[0] {
        assert j[0..|w|] == w;
        ContainsAt(j, w, 0);
      } else {
        JoinedPartsOccur(sep, parts[1..], w);
        var off := |parts[0]| + |sep|;
        assert j[off..] == Join(sep, parts[1..]);
        ContainsSuffix(j, off, w);
      }
    }
  }

  /** A string equal to, starting with or ending with `v` contains `v`. */
  lemma PrefixContains(s: string, v: string)
    requires StartsWith(s, v)
    ensures Contains(s, v)
  {
    ContainsAt(s, v, 0);
  }

  lemma SuffixContains(s: string, v: string)
    requires EndsWith(s, v)
    ensures Contains(s, v)
  {
    ContainsAt(s, v, |s| - |v|);
  }

  // ---------------------------------------------------------------------------
  // Decimal digits

  function DigitValue(c: char): nat
    requires IsAsciiDigit(c)
  {
    c as int - '0' as int
  }

  /** The value of a digit string; any other character (an `_`) is skipped. */
  function DigitsValue(b: string): nat
  {
    if b == [] then 0
    else if IsAsciiDigit(b[|b| - 1]) then DigitsValue(b[..|b| - 1]) * 10 + DigitValue(b[|b| - 1])
    else DigitsValue(b[..|b| - 1])
  }

  /** Decimal text of a natural number, as `str(n)` writes it. */
  function NatToString(n: nat): (r: string)
    ensures r != [] && forall i :: 0 <= i < |r| ==> IsAsciiDigit(r[i])
  {
    if n < 10 then [('0' as int + n) as char]
    else NatToString(n / 10) + [('0' as int + n % 10) as char]
  }

  /** Reading back the decimal text of `n` gives `n`. */
  lemma {:induction false} NatToStringValue(n: nat)
    ensures DigitsValue(NatToString(n)) == n
  {
    var r := NatToString(n);
    if n >= 10 {
      NatToStringValue(n / 10);
      assert r[..|r| - 1] == NatToString(n / 10);
    }
  }

  /** A leading zero does not change the value of a digit string. */
  lemma {:induction false} LeadingZeroValue(d: string)
    ensures DigitsValue(['0'] + d) == DigitsValue(d)
  {
    if d != [] {
      var z := ['0'] + d;
      assert z[..|z| - 1] == ['0'] + d[..|d| - 1];
      assert z[|z| - 1] == d[|d| - 1];
      LeadingZeroValue(d[..|d| - 1]);
    } else {
      assert DigitsValue(['0']) == DigitsValue([]) * 10 + 0;
    }
  }
}
