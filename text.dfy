/**
  The few operations on Python `str` values the scheduler relies on: `strip()`, `lower()`,
  the substring test `needle in hay`, `split(sep)`, `str(n)` and `int(s)`.
  Strings are sequences of Unicode code points, which is also what Python's `len` counts.
*/
module Text {
  import opened Wrappers

  /** The characters Python's `str.isspace()` accepts; `strip()` and `int()` remove these. */
  predicate IsSpace(c: char) {
    c == ' ' || ('\t' <= c <= '\r') || ('\U{1C}' <= c <= '\U{1F}') || c == '\U{85}' || c == '\U{A0}'
    || c == '\U{1680}' || ('\U{2000}' <= c <= '\U{200A}') || c == '\U{2028}' || c == '\U{2029}'
    || c == '\U{202F}' || c == '\U{205F}' || c == '\U{3000}'
  }

  /** `s.lstrip()`: the suffix of `s` left after its leading white space. */
  function LStrip(s: string): (r: string)
    ensures |r| <= |s| && r == s[|s| - |r|..]
    ensures forall i :: 0 <= i < |s| - |r| ==> IsSpace(s[i])
    ensures r != [] ==> !IsSpace(r[0])
  {
    if s != [] && IsSpace(s[0]) then
      var r := LStrip(s[1..]);
      assert forall i :: 1 <= i < |s| - |r| ==> s[i] == s[1..][i - 1];
      r
    else s
  }

  /** `s.rstrip()`: the prefix of `s` left after its trailing white space. */
  function RStrip(s: string): (r: string)
    ensures |r| <= |s| && r == s[..|r|]
    ensures forall i :: |r| <= i < |s| ==> IsSpace(s[i])
    ensures r != [] ==> !IsSpace(r[|r| - 1])
  {
    if s != [] && IsSpace(s[|s| - 1]) then RStrip(s[..|s| - 1]) else s
  }

  /** `s.strip()`: white space removed at both ends; empty exactly when `s` is all white space. */
  function Strip(s: string): (r: string)
    ensures |r| <= |s|
    ensures r != [] ==> !IsSpace(r[0]) && !IsSpace(r[|r| - 1])
    ensures r == [] <==> forall i :: 0 <= i < |s| ==> IsSpace(s[i])
  {
    var l := LStrip(s);
    var r := RStrip(l);
    assert r != [] ==> r[0] == l[0];
    assert l != [] ==> l[0] == s[|s| - |l|] && !IsSpace(s[|s| - |l|]);
    assert l != [] ==> r != [];
    r
  }

  /** `r` is the part of `s` from index `a` on, with only white space before and after it. */
  predicate TrimmedFrom(s: string, a: nat, r: string) {
    && a + |r| <= |s|
    && (forall j :: 0 <= j < |r| ==> r[j] == s[a + j])
    && (forall i :: 0 <= i < a ==> IsSpace(s[i]))
    && (forall i :: a + |r| <= i < |s| ==> IsSpace(s[i]))
  }

  /** `s.strip()` is the part of `s` that starts where `s.lstrip()` does, trimmed as `TrimmedFrom` says. */
  lemma StripIsInfix(s: string)
    ensures TrimmedFrom(s, |s| - |LStrip(s)|, Strip(s))
  {
    var l, r := LStrip(s), Strip(s);
    assert r == RStrip(l);
    InfixParts(s, l, r, |s| - |l|);
  }

  /** A prefix `r` of the suffix `l` of `s` from `a` on, followed in `l` only by white space. */
  lemma InfixParts(s: string, l: string, r: string, a: nat)
    requires a <= |s| && l == s[a..] && |r| <= |l| && r == l[..|r|]
    requires forall i :: 0 <= i < a ==> IsSpace(s[i])
    requires forall i :: |r| <= i < |l| ==> IsSpace(l[i])
    ensures TrimmedFrom(s, a, r)
  {
    SuffixSpaces(s, l, a, |r|);
  }

  /** White space at the end of the suffix `s[a..]` is white space at the end of `s`. */
  lemma SuffixSpaces(s: string, l: string, a: nat, b: nat)
    requires a <= |s| && l == s[a..] && b <= |l|
    requires forall i :: b <= i < |l| ==> IsSpace(l[i])
    ensures forall i :: a + b <= i < |s| ==> IsSpace(s[i])
  {
    forall i | a + b <= i < |s|
      ensures IsSpace(s[i])
    {
      assert s[i] == l[i - a];
    }
  }

  /** A string with no white space at either end is its own `strip()`. */
  lemma StripTrimmed(s: string)
    requires s != [] && !IsSpace(s[0]) && !IsSpace(s[|s| - 1])
    ensures Strip(s) == s
  {
    assert LStrip(s) == s;
    assert RStrip(s) == s;
  }

  /** ASCII case mapping of `str.lower()`. */
  function LowerChar(c: char): char {
    if 'A' <= c <= 'Z' then (c as int - 'A' as int + 'a' as int) as char else c
  }

  /**
    `s.lower()`, character by character: no ASCII capital is left, each one becomes its small
    letter, and every other character is kept.
  */
  function Lower(s: string): (r: string)
    ensures |r| == |s|
    ensures forall i :: 0 <= i < |r| ==> !('A' <= r[i] <= 'Z')
    ensures forall i :: 0 <= i < |s| ==>
      if 'A' <= s[i] <= 'Z' then r[i] as int == s[i] as int + 32 else r[i] == s[i]
  {
    seq(|s|, i requires 0 <= i < |s| => LowerChar(s[i]))
  }

  /** `needle` occurs in `hay` starting at position `i`. */
  predicate OccursAt(hay: string, needle: string, i: int) {
    0 <= i <= |hay| - |needle| && hay[i..i + |needle|] == needle
  }

  /** Python's `needle in hay` on strings: `needle` is a prefix of some suffix of `hay`. */
  predicate Contains(hay: string, needle: string)
    decreases |hay|
  {
    needle <= hay || (hay != [] && Contains(hay[1..], needle))
  }

  /** `Contains` holds exactly when `needle` occurs at some position of `hay`. */
  lemma {:induction false} ContainsIffOccurs(hay: string, needle: string)
    ensures Contains(hay, needle) <==> exists i :: OccursAt(hay, needle, i)
    decreases |hay|
  {
    if needle <= hay {
      assert hay[0..0 + |needle|] == needle;
      assert OccursAt(hay, needle, 0);
    } else if hay == [] {
    } else {
      ContainsIffOccurs(hay[1..], needle);
      if Contains(hay[1..], needle) {
        var i :| OccursAt(hay[1..], needle, i);
        assert hay[i + 1..i + 1 + |needle|] == hay[1..][i..i + |needle|];
        assert OccursAt(hay, needle, i + 1);
      } else {
        forall i
          ensures !OccursAt(hay, needle, i)
        {
          if 0 < i <= |hay| - |needle| {
            assert hay[i..i + |needle|] == hay[1..][i - 1..i - 1 + |needle|];
            assert !OccursAt(hay[1..], needle, i - 1);
          } else if i == 0 {
            assert OccursAt(hay, needle, 0) ==> needle <= hay;
          }
        }
      }
    }
  }

  /** Every string contains the middle part of any concatenation it is. */
  lemma ContainsMiddle(a: string, b: string, c: string)
    ensures Contains(a + b + c, b)
  {
    var s := a + b + c;
    assert s[|a|..|a| + |b|] == b;
    assert OccursAt(s, b, |a|);
    ContainsIffOccurs(s, b);
  }

  /** Text appended to a string keeps every substring it contains. */
  lemma {:induction false} ContainsExtended(hay: string, needle: string, more: string)
    requires Contains(hay, needle)
    ensures Contains(hay + more, needle)
    decreases |hay|
  {
    if !(needle <= hay) {
      ContainsExtended(hay[1..], needle, more);
      assert (hay + more)[1..] == hay[1..] + more;
    }
  }

  /** `s.split(sep)`: the pieces between occurrences of `sep`; `"".split(sep)` is `[""]`. */
  function Split(s: string, sep: char): (parts: seq<string>)
    ensures |parts| >= 1
  {
    if s == [] then [[]]
    else
      var rest := Split(s[1..], sep);
      if s[0] == sep then [[]] + rest else [[s[0]] + rest[0]] + rest[1..]
  }

  /** `sep.join(parts)`, the inverse of `Split`. */
  function Join(parts: seq<string>, sep: char): string
  {
    if parts == [] then []
    else if |parts| == 1 then parts[0]
    else parts[0] + [sep] + Join(parts[1..], sep)
  }

  /** Joining the pieces of a split with the same separator gives back the string. */
  lemma {:induction false} JoinSplit(s: string, sep: char)
    ensures Join(Split(s, sep), sep) == s
  {
    if s != [] {
      JoinSplit(s[1..], sep);
      var rest := Split(s[1..], sep);
      if s[0] == sep {
        assert Split(s, sep) == [[]] + rest;
        assert ([[]] + rest)[1..] == rest;
      } else {
        var parts := [[s[0]] + rest[0]] + rest[1..];
        assert Split(s, sep) == parts;
        if |rest| == 1 {
          assert Join(rest, sep) == rest[0];
        } else {
          assert Join(rest, sep) == rest[0] + [sep] + Join(rest[1..], sep);
          assert parts[1..] == rest[1..];
        }
      }
    }
  }

  /** No piece of a split contains the separator. */
  lemma {:induction false} SplitPiecesHaveNoSeparator(s: string, sep: char)
    ensures forall i :: 0 <= i < |Split(s, sep)| ==> sep !in Split(s, sep)[i]
  {
    if s != [] {
      SplitPiecesHaveNoSeparator(s[1..], sep);
    }
  }

  /** A string without `sep` splits into itself alone. */
  lemma {:induction false} SplitWithoutSeparator(s: string, sep: char)
    requires sep !in s
    ensures Split(s, sep) == [s]
  {
    if s != [] {
      SplitWithoutSeparator(s[1..], sep);
      assert s[0] != sep;
      assert [s[0]] + s[1..] == s;
    }
  }

  /** `(a + sep + b).split(sep)` is `[a, b]` when neither part contains `sep`. */
  lemma {:induction false} SplitPair(a: string, b: string, sep: char)
    requires sep !in a && sep !in b
    ensures Split(a + [sep] + b, sep) == [a, b]
  {
    if a == [] {
      assert [sep] + b == a + [sep] + b;
      assert ([sep] + b)[1..] == b;
      SplitWithoutSeparator(b, sep);
    } else {
      SplitPair(a[1..], b, sep);
      assert (a + [sep] + b)[1..] == a[1..] + [sep] + b;
      assert [a[0]] + a[1..] == a;
    }
  }

  predicate IsDigit(c: char) { '0' <= c <= '9' }

  function DigitValue(c: char): nat
    requires IsDigit(c)
  {
    c as int - '0' as int
  }

  function DigitChar(d: nat): (c: char)
    requires d < 10
    ensures IsDigit(c) && DigitValue(c) == d
  {
    ('0' as int + d) as char
  }

  predicate AllDigits(s: string) {
    forall i :: 0 <= i < |s| ==> IsDigit(s[i])
  }

  /** `str(n)` for a natural number: its decimal digits, most significant first. */
  function NatToString(n: nat): (s: string)
    ensures s != [] && AllDigits(s)
    decreases n
  {
    if n < 10 then [DigitChar(n)] else NatToString(n / 10) + [DigitChar(n % 10)]
  }

  /** `str(n)` for any integer. */
  function IntToString(n: int): (s: string)
    ensures s != [] && !IsSpace(s[0]) && !IsSpace(s[|s| - 1])
  {
    if n < 0 then "-" + NatToString(-n) else NatToString(n)
  }

  /** The number a string of decimal digits denotes. */
  function NumeralValue(ds: string): nat
    requires AllDigits(ds)
  {
    if ds == [] then 0 else NumeralValue(ds[..|ds| - 1]) * 10 + DigitValue(ds[|ds| - 1])
  }

  /** Reading back the digits of `str(n)` gives `n`. */
  lemma {:induction false} NumeralValueOfNatToString(n: nat)
    ensures NumeralValue(NatToString(n)) == n
    decreases n
  {
    if n >= 10 {
      NumeralValueOfNatToString(n / 10);
      var s := NatToString(n);
      assert s[..|s| - 1] == NatToString(n / 10);
    }
  }

  /** Leading zeros do not change the value of a numeral. */
  lemma {:induction false} NumeralValueLeadingZero(ds: string)
    requires AllDigits(ds)
    ensures NumeralValue("0" + ds) == NumeralValue(ds)
    decreases |ds|
  {
    if ds != [] {
      var init := ds[..|ds| - 1];
      NumeralValueLeadingZero(init);
      assert ("0" + ds)[..|"0" + ds| - 1] == "0" + init;
    }
  }

  /**
    A numeral as Python's `int()` reads it, for ASCII digits only (Python also takes the decimal
    digits of other scripts, such as fullwidth ones): single underscores may separate digits.
  */
  predicate IsNumeral(t: string) {
    && t != [] && IsDigit(t[0])
    && (forall i :: 0 <= i < |t| ==> IsDigit(t[i]) || t[i] == '_')
    && (forall i :: 0 <= i < |t| && t[i] == '_' ==> i + 1 < |t| && IsDigit(t[i + 1]))
  }

  /** The digits of a numeral, its underscores dropped. */
  function DropUnderscores(t: string): (ds: string)
    requires forall i :: 0 <= i < |t| ==> IsDigit(t[i]) || t[i] == '_'
    ensures AllDigits(ds)
  {
    if t == [] then [] else (if t[0] == '_' then [] else [t[0]]) + DropUnderscores(t[1..])
  }

  lemma {:induction false} DropUnderscoresOfDigits(ds: string)
    requires AllDigits(ds)
    ensures DropUnderscores(ds) == ds
  {
    if ds != [] {
      DropUnderscoresOfDigits(ds[1..]);
    }
  }

  /**
    `int(s)` in base 10: white space around an optionally signed numeral; None where Python
    raises ValueError.
  */
  function ParseInt(s: string): Option<int>
  {
    var t := Strip(s);
    if t != [] && (t[0] == '+' || t[0] == '-') then
      var body := t[1..];
      if IsNumeral(body) then
        var v: int := NumeralValue(DropUnderscores(body));
        Some(if t[0] == '-' then -v else v)
      else None
    else if IsNumeral(t) then
      Some(NumeralValue(DropUnderscores(t)))
    else None
  }

  /** `int(str(n)) == n`. */
  lemma ParseIntOfIntToString(n: int)
    ensures ParseInt(IntToString(n)) == Some(n)
  {
    var s := IntToString(n);
    StripTrimmed(s);
    var m: nat := if n < 0 then -n else n;
    var ds := NatToString(m);
    NumeralValueOfNatToString(m);
    DropUnderscoresOfDigits(ds);
    assert IsNumeral(ds);
    if n < 0 {
      assert s == "-" + ds && s[0] == '-' && s[1..] == ds;
    } else {
      assert s == ds && s[0] != '+' && s[0] != '-';
    }
  }

  /** Two-digit rendering with a leading zero, as in the `HH:MM` clock times of a schedule. */
  function ZeroPad(n: nat): string
  {
    if n < 10 then "0" + NatToString(n) else NatToString(n)
  }

  /** `int()` reads a zero-padded number back. */
  lemma ParseIntOfZeroPad(n: nat)
    ensures ParseInt(ZeroPad(n)) == Some(n)
  {
    if n < 10 {
      var s := ZeroPad(n);
      var ds := NatToString(n);
      assert AllDigits(s);
      StripTrimmed(s);
      NumeralValueOfNatToString(n);
      NumeralValueLeadingZero(ds);
      DropUnderscoresOfDigits(s);
    } else {
      ParseIntOfIntToString(n);
    }
  }
}
