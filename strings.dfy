/**
 * The JavaScript string operations the calendar code relies on: `String(n)` of an
 * integer, `Number(s)` of a digit string, `padStart(2, '0')`, `split` on one
 * character, `join`, `trim` and the white-space class of `\s`.
 * A string is a sequence of Unicode scalar values.
 */
module Strings {
  import opened Wrappers

  /** The characters `\s` matches and `trim` removes: WhiteSpace and LineTerminator of ECMAScript. */
  predicate IsSpace(c: char) {
    var n := c as int;
    n == 0x09 || n == 0x0A || n == 0x0B || n == 0x0C || n == 0x0D || n == 0x20
    || n == 0xA0 || n == 0x1680 || (0x2000 <= n <= 0x200A) || n == 0x2028 || n == 0x2029
    || n == 0x202F || n == 0x205F || n == 0x3000 || n == 0xFEFF
  }

  predicate IsDigit(c: char) {
    '0' <= c <= '9'
  }

  predicate AllDigits(s: string) {
    forall i :: 0 <= i < |s| ==> IsDigit(s[i])
  }

  function DigitChar(d: int): (c: char)
    requires 0 <= d < 10
    ensures IsDigit(c) && c as int - '0' as int == d
  {
    (d + '0' as int) as char
  }

  /** `String(n)` for a natural number: its decimal digits without leading zeros. */
  function NatToString(n: nat): (s: string)
    ensures 1 <= |s| && AllDigits(s)
    ensures |s| == 1 <==> n < 10
    ensures |s| >= 2 ==> s[0] != '0'
    decreases n
  {
    if n < 10 then [DigitChar(n)] else NatToString(n / 10) + [DigitChar(n % 10)]
  }

  /** `String(i)` for an integer: a minus sign before the digits of a negative number. */
  function IntToString(i: int): (s: string)
    ensures i >= 0 ==> s == NatToString(i)
    ensures i < 0 ==> s == "-" + NatToString(-i)
  {
    if i < 0 then "-" + NatToString(-i) else NatToString(i)
  }

  /** The value of a string of decimal digits; 0 for the empty string. */
  function DigitsValue(s: string): nat
    requires AllDigits(s)
    decreases |s|
  {
    if s == [] then 0 else DigitsValue(s[..|s| - 1]) * 10 + (s[|s| - 1] as int - '0' as int)
  }

  /**
   * `Number(s)` on the strings a calendar key can hold: a string of decimal digits
   * (the empty one included, which JavaScript reads as 0) has its value; any other
   * string is `NaN`, here `None`.
   */
  function JsNumber(s: string): (r: Option<int>)
    ensures r.Some? <==> AllDigits(s)
    ensures r.Some? ==> r.value >= 0
  {
    if AllDigits(s) then Some(DigitsValue(s)) else None
  }

  lemma {:induction false} NumberOfNatToString(n: nat)
    ensures JsNumber(NatToString(n)) == Some(n)
    decreases n
  {
    if n >= 10 {
      NumberOfNatToString(n / 10);
      var s := NatToString(n);
      assert s[..|s| - 1] == NatToString(n / 10);
      assert s[|s| - 1] == DigitChar(n % 10);
      assert DigitsValue(s) == (n / 10) * 10 + n % 10;
    }
  }

  lemma {:induction false} LeadingZeroKeepsValue(s: string)
    requires AllDigits(s)
    ensures AllDigits("0" + s) && DigitsValue("0" + s) == DigitsValue(s)
    decreases |s|
  {
    if s != [] {
      LeadingZeroKeepsValue(s[..|s| - 1]);
      assert ("0" + s)[..|s|] == "0" + s[..|s| - 1];
    }
  }

  /** `s.padStart(2, '0')`: zeros in front of a string shorter than two characters. */
  function PadStart2(s: string): (r: string)
    ensures |r| == if |s| < 2 then 2 else |s|
    ensures r[|r| - |s|..] == s
    ensures forall i :: 0 <= i < |r| - |s| ==> r[i] == '0'
  {
    if |s| == 0 then "00" else if |s| == 1 then "0" + s else s
  }

  /** A string of digits holds no separator that is not a digit. */
  lemma DigitsExclude(s: string, c: char)
    requires AllDigits(s) && !IsDigit(c)
    ensures c !in s
  {
  }

  lemma PadDigits(s: string)
    requires AllDigits(s)
    ensures AllDigits(PadStart2(s))
  {
  }

  /** `String(n).padStart(2, '0')` for a natural number, read back by `Number`. */
  lemma NumberOfPad2(n: nat)
    ensures AllDigits(PadStart2(NatToString(n)))
    ensures JsNumber(PadStart2(NatToString(n))) == Some(n)
  {
    NumberOfNatToString(n);
    if n < 10 {
      LeadingZeroKeepsValue(NatToString(n));
    }
  }

  /** `s.startsWith(t)`. */
  predicate StartsWith(s: string, t: string) {
    |t| <= |s| && s[..|t|] == t
  }

  /** `s.endsWith(t)`. */
  predicate EndsWith(s: string, t: string) {
    |t| <= |s| && s[|s| - |t|..] == t
  }

  /** The index of the first `c` in `s`, or `|s|` when there is none. */
  function IndexOf(s: string, c: char): (i: nat)
    ensures i <= |s|
    ensures i < |s| ==> s[i] == c
    ensures forall j :: 0 <= j < i ==> s[j] != c
    decreases |s|
  {
    if s == [] then 0 else if s[0] == c then 0 else 1 + IndexOf(s[1..], c)
  }

  /** `s.split(sep)` for a one-character separator. */
  function Split(s: string, sep: char): (parts: seq<string>)
    ensures |parts| >= 1
    ensures forall k :: 0 <= k < |parts| ==> sep !in parts[k]
    decreases |s|
  {
    var i := IndexOf(s, sep);
    if i == |s| then [s] else [s[..i]] + Split(s[i + 1..], sep)
  }

  /** `parts.join(sep)`. */
  function Join(parts: seq<string>, sep: string): string
    decreases |parts|
  {
    if |parts| == 0 then "" else if |parts| == 1 then parts[0] else parts[0] + sep + Join(parts[1..], sep)
  }

  /** Six pieces joined left to right are the first one before the other five joined. */
  lemma Regroup<T>(a: seq<T>, b: seq<T>, c: seq<T>, d: seq<T>, e: seq<T>, f: seq<T>)
    ensures a + b + c + d + e + f == a + (b + c + d + e + f)
  {
  }

  lemma AppendAssoc<T>(a: seq<T>, b: seq<T>, c: seq<T>)
    ensures a + (b + c) == (a + b) + c
  {
  }

  /** Splitting and joining again on the same character gives the string back. */
  lemma {:induction false} JoinSplit(s: string, sep: char)
    ensures Join(Split(s, sep), [sep]) == s
    decreases |s|
  {
    var i := IndexOf(s, sep);
    if i < |s| {
      JoinSplit(s[i + 1..], sep);
      assert s == s[..i] + [sep] + s[i + 1..];
    }
  }

  lemma SplitAt(a: string, b: string, sep: char)
    requires sep !in a
    ensures Split(a + [sep] + b, sep) == [a] + Split(b, sep)
  {
    var s := a + [sep] + b;
    assert s[|a|] == sep;
    assert IndexOf(s, sep) == |a|;
    assert s[..|a|] == a && s[|a| + 1..] == b;
  }

  lemma SplitWhole(a: string, sep: char)
    requires sep !in a
    ensures Split(a, sep) == [a]
  {
  }

  /** Three digit strings joined by a non-digit split back into those three. */
  lemma SplitThree(a: string, b: string, c: string, sep: char)
    requires AllDigits(a) && AllDigits(b) && AllDigits(c) && !IsDigit(sep)
    ensures Split(a + [sep] + b + [sep] + c, sep) == [a, b, c]
  {
    DigitsExclude(a, sep);
    DigitsExclude(b, sep);
    DigitsExclude(c, sep);
    assert a + [sep] + b + [sep] + c == a + [sep] + (b + [sep] + c);
    SplitAt(a, b + [sep] + c, sep);
    SplitAt(b, c, sep);
  }

  /** The same after a leading separator, which splits off an empty first part. */
  lemma SplitLeadingThree(a: string, b: string, c: string, sep: char)
    requires AllDigits(a) && AllDigits(b) && AllDigits(c) && !IsDigit(sep)
    ensures Split([sep] + (a + [sep] + b + [sep] + c), sep) == [[], a, b, c]
  {
    var rest := a + [sep] + b + [sep] + c;
    SplitThree(a, b, c, sep);
    assert [sep] + rest == [] + [sep] + rest;
    SplitAt([], rest, sep);
  }

  /** Two digit strings joined by a non-digit split back into those two. */
  lemma SplitTwo(a: string, b: string, sep: char)
    requires AllDigits(a) && AllDigits(b) && !IsDigit(sep)
    ensures Split(a + [sep] + b, sep) == [a, b]
  {
    DigitsExclude(a, sep);
    DigitsExclude(b, sep);
    SplitAt(a, b, sep);
  }

  /** `trimStart`: the suffix after the leading white space. */
  function TrimStart(s: string): (r: string)
    ensures |r| <= |s| && r == s[|s| - |r|..]
    ensures forall j :: 0 <= j < |s| - |r| ==> IsSpace(s[j])
    ensures r != [] ==> !IsSpace(r[0])
    decreases |s|
  {
    if s != [] && IsSpace(s[0]) then TrimStart(s[1..]) else s
  }

  /** `trimEnd`: the prefix before the trailing white space. */
  function TrimEnd(s: string): (r: string)
    ensures |r| <= |s| && r == s[..|r|]
    ensures forall j :: |r| <= j < |s| ==> IsSpace(s[j])
    ensures r != [] ==> !IsSpace(r[|r| - 1])
    decreases |s|
  {
    if s != [] && IsSpace(s[|s| - 1]) then TrimEnd(s[..|s| - 1]) else s
  }

  /** `trim`: the string without white space at either end. */
  function Trim(s: string): (r: string)
    ensures r != [] ==> !IsSpace(r[0]) && !IsSpace(r[|r| - 1])
    ensures r == [] <==> forall j :: 0 <= j < |s| ==> IsSpace(s[j])
    ensures forall j :: 0 <= j < |r| ==> r[j] in s
  {
    TrimBothEnds(s);
    TrimEnd(TrimStart(s))
  }

  /** What `trim` keeps is one slice of `s`, with only white space cut off either side. */
  lemma TrimIsSlice(s: string)
    ensures exists i :: TrimmedAt(s, i, Trim(s))
  {
    TrimSlice(s);
    assert TrimmedAt(s, |s| - |TrimStart(s)|, Trim(s));
  }

  /** `r` is `s[i..i + |r|]` and everything of `s` outside that slice is white space. */
  predicate TrimmedAt(s: string, i: int, r: string) {
    && 0 <= i && i + |r| <= |s| && r == s[i..i + |r|]
    && (forall j :: 0 <= j < i ==> IsSpace(s[j]))
    && (forall j :: i + |r| <= j < |s| ==> IsSpace(s[j]))
  }

  lemma TrimBothEnds(s: string)
    ensures var r := TrimEnd(TrimStart(s));
      && (r == [] <==> forall j :: 0 <= j < |s| ==> IsSpace(s[j]))
      && forall j :: 0 <= j < |r| ==> r[j] in s
  {
    TrimSlice(s);
    TrimmedFacts(s, |s| - |TrimStart(s)|, TrimEnd(TrimStart(s)));
  }

  /**
   * A trimmed slice is empty exactly when `s` is all white space, and holds
   * only characters of `s`.
   */
  lemma TrimmedFacts(s: string, i: int, r: string)
    requires TrimmedAt(s, i, r) && (r != [] ==> !IsSpace(r[0]))
    ensures r == [] <==> forall j :: 0 <= j < |s| ==> IsSpace(s[j])
    ensures forall j :: 0 <= j < |r| ==> r[j] in s
  {
    forall j | 0 <= j < |r| ensures r[j] in s {
      assert r[j] == s[i + j];
    }
    if r != [] {
      assert s[i] == r[0];
    }
  }

  lemma TrimSlice(s: string)
    ensures TrimmedAt(s, |s| - |TrimStart(s)|, TrimEnd(TrimStart(s)))
  {
    var t := TrimStart(s);
    SliceOfSuffix(s, |s| - |t|, t, TrimEnd(t));
  }

  /** A prefix of a suffix of `s`, with only white space cut on either side, is a trimmed slice. */
  lemma SliceOfSuffix(s: string, cut: int, t: string, r: string)
    requires 0 <= cut <= |s| && t == s[cut..] && |r| <= |t| && r == t[..|r|]
    requires forall j :: 0 <= j < cut ==> IsSpace(s[j])
    requires forall j :: |r| <= j < |t| ==> IsSpace(t[j])
    ensures TrimmedAt(s, cut, r)
  {
    assert r == s[cut..cut + |r|];
    forall j | cut + |r| <= j < |s| ensures IsSpace(s[j]) {
      assert s[j] == t[j - cut];
    }
  }
}
