/**
 * The navigation labels: `formatNavText` cleans a formatter's output (dots
 * removed, white space trimmed and collapsed, each word capitalised) and
 * `buildWeekNavLabel` joins the two ends of a week with the year.
 */
module NavText {
  import opened Strings
  import opened Dates
  import opened CalendarTypes
  import opened CalendarUtils

  /** `value.replace(/\./g, '')`: the characters of `s` other than '.', in order. */
  function RemoveDots(s: string): (r: string)
    ensures forall c :: c in r <==> c in s && c != '.'
    ensures '.' !in r
    ensures |s| == 1 ==> r == if s[0] == '.' then [] else s
    ensures '.' !in s ==> r == s
    decreases |s|
  {
    if s == [] then []
    else RemoveDots(s[..|s| - 1]) + if s[|s| - 1] == '.' then [] else [s[|s| - 1]]
  }

  /**
   * Removing dots works piece by piece, so with the one-character case it
   * keeps every other character, in order and as often as it occurs.
   */
  lemma {:induction false} RemoveDotsAppend(a: string, b: string)
    ensures RemoveDots(a + b) == RemoveDots(a) + RemoveDots(b)
    decreases |b|
  {
    if b == [] {
      assert a + b == a;
    } else {
      var front, c := b[..|b| - 1], b[|b| - 1];
      var kept := if c == '.' then [] else [c];
      assert (a + b)[..|a + b| - 1] == a + front && (a + b)[|a + b| - 1] == c;
      assert RemoveDots(a + b) == RemoveDots(a + front) + kept;
      RemoveDotsAppend(a, front);
      assert RemoveDots(b) == RemoveDots(front) + kept;
    }
  }

  /** The characters `/^[a-záéíóúñ]/iu` matches: under Unicode case folding these include the long s and the Kelvin sign. */
  predicate IsInitialLetter(c: char) {
    ('a' <= c <= 'z') || ('A' <= c <= 'Z')
    || c in "áéíóúñÁÉÍÓÚÑ"
    || c == 'ſ' || c == '\U{212A}'
  }

  /** The lower-case letters among them, which `toUpperCase` changes. */
  predicate IsLowerInitial(c: char) {
    ('a' <= c <= 'z') || c in "áéíóúñ" || c == 'ſ'
  }

  /** `toUpperCase` on a matched initial. */
  function Upper(c: char): (u: char)
    requires IsInitialLetter(c)
    ensures IsInitialLetter(u) && !IsLowerInitial(u)
    ensures !IsLowerInitial(c) ==> u == c
  {
    if 'a' <= c <= 'z' then (c as int - 32) as char
    else if c == 'á' then 'Á'
    else if c == 'é' then 'É'
    else if c == 'í' then 'Í'
    else if c == 'ó' then 'Ó'
    else if c == 'ú' then 'Ú'
    else if c == 'ñ' then 'Ñ'
    else if c == 'ſ' then 'S'
    else c
  }

  /** `segment.replace(/^[a-záéíóúñ]/iu, initial => initial.toUpperCase())`. */
  function Capitalize(segment: string): (r: string)
    ensures |r| == |segment| && (segment != [] ==> r[1..] == segment[1..])
    ensures segment != [] && IsInitialLetter(segment[0]) ==> r[0] == Upper(segment[0])
    ensures segment != [] && !IsInitialLetter(segment[0]) ==> r[0] == segment[0]
  {
    if segment != [] && IsInitialLetter(segment[0]) then [Upper(segment[0])] + segment[1..] else segment
  }

  /** The index of the first white-space character, or `|s|`. */
  function IndexOfSpace(s: string): (i: nat)
    ensures i <= |s| && (i < |s| ==> IsSpace(s[i]))
    ensures forall j :: 0 <= j < i ==> !IsSpace(s[j])
    decreases |s|
  {
    if s == [] then 0 else if IsSpace(s[0]) then 0 else 1 + IndexOfSpace(s[1..])
  }

  /** `s.split(/\s+/)`: the pieces between maximal runs of white space. */
  function SplitWhitespace(s: string): (parts: seq<string>)
    ensures |parts| >= 1
    ensures forall k, j :: 0 <= k < |parts| && 0 <= j < |parts[k]| ==> !IsSpace(parts[k][j])
    decreases |s|
  {
    var i := IndexOfSpace(s);
    if i == |s| then [s]
    else [s[..i]] + SplitWhitespace(TrimStart(s[i..]))
  }

  /** `s` with every maximal run of white space replaced by one ' '. */
  function SquashSpaces(s: string): (r: string)
    ensures |r| <= |s| && (r == [] <==> s == [])
    decreases |s|
  {
    if s == [] then []
    else if IsSpace(s[0]) then " " + SquashSpaces(TrimStart(s))
    else [s[0]] + SquashSpaces(s[1..])
  }

  /**
   * Joining the pieces with one ' ' gives the string back with each run of
   * white space made a single ' ': no character is lost, added or moved.
   */
  lemma {:induction false} JoinSplitWhitespace(s: string)
    ensures Join(SplitWhitespace(s), " ") == SquashSpaces(s)
    decreases |s|
  {
    var i := IndexOfSpace(s);
    if i == |s| {
      SquashWordPrefix(s, []);
      assert s + [] == s;
    } else {
      var t := TrimStart(s[i..]);
      JoinSplitWhitespace(t);
      JoinSplitStep(s, i, t);
      SquashStep(s, i, t);
    }
  }

  /** Splitting at the first run of white space: the first piece, one ' ', then the rest joined. */
  lemma JoinSplitStep(s: string, i: int, t: string)
    requires i == IndexOfSpace(s) < |s| && t == TrimStart(s[i..])
    ensures Join(SplitWhitespace(s), " ") == s[..i] + " " + Join(SplitWhitespace(t), " ")
  {
    var tail := SplitWhitespace(t);
    assert SplitWhitespace(s) == [s[..i]] + tail;
    assert ([s[..i]] + tail)[1..] == tail;
  }

  /** Squashing reaches the first run of white space and makes it one ' '. */
  lemma SquashStep(s: string, i: int, t: string)
    requires 0 <= i < |s| && IsSpace(s[i]) && forall j :: 0 <= j < i ==> !IsSpace(s[j])
    requires t == TrimStart(s[i..])
    ensures SquashSpaces(s) == s[..i] + " " + SquashSpaces(t)
  {
    var w := s[..i];
    forall j | 0 <= j < |w| ensures !IsSpace(w[j]) {
      assert w[j] == s[j];
    }
    SquashWordThenRun(s, w, s[i..]);
  }

  /** A word followed by a run of white space squashes to the word and one ' '. */
  lemma SquashWordThenRun(s: string, w: string, rest: string)
    requires s == w + rest
    requires forall j :: 0 <= j < |w| ==> !IsSpace(w[j])
    requires rest != [] && IsSpace(rest[0])
    ensures SquashSpaces(s) == w + " " + SquashSpaces(TrimStart(rest))
  {
    SquashWordPrefix(w, rest);
    SquashSpaceRun(rest);
  }

  lemma SquashWordStep(s: string)
    requires s != [] && !IsSpace(s[0])
    ensures SquashSpaces(s) == [s[0]] + SquashSpaces(s[1..])
  {
  }

  lemma SquashSpaceRun(rest: string)
    requires rest != [] && IsSpace(rest[0])
    ensures SquashSpaces(rest) == " " + SquashSpaces(TrimStart(rest))
  {
  }

  lemma {:induction false} SquashWordPrefix(w: string, t: string)
    requires forall j :: 0 <= j < |w| ==> !IsSpace(w[j])
    ensures SquashSpaces(w + t) == w + SquashSpaces(t)
    decreases |w|
  {
    if w == [] {
      assert w + t == t;
    } else {
      var s, v := w + t, w[1..];
      assert s[0] == w[0] && s[1..] == v + t;
      SquashWordStep(s);
      forall j | 0 <= j < |v| ensures !IsSpace(v[j]) {
        assert v[j] == w[j + 1];
      }
      SquashWordPrefix(v, t);
      assert [w[0]] + v == w;
      AppendAssoc([w[0]], v, SquashSpaces(t));
    }
  }

  /** A word of the label: non-empty, with neither white space nor a dot. */
  predicate CleanWord(w: string) {
    w != [] && '.' !in w && forall j :: 0 <= j < |w| ==> !IsSpace(w[j])
  }

  /**
   * A dot-free string that starts and ends with a non-space character splits
   * into clean pieces.
   */
  lemma {:induction false} PiecesClean(s: string)
    requires s != [] && !IsSpace(s[0]) && !IsSpace(s[|s| - 1]) && '.' !in s
    ensures forall k :: 0 <= k < |SplitWhitespace(s)| ==> CleanWord(SplitWhitespace(s)[k])
    decreases |s|
  {
    var i := IndexOfSpace(s);
    if i < |s| {
      var rest := TrimStart(s[i..]);
      assert rest != [];
      assert rest == s[|s| - |rest|..];
      assert rest[|rest| - 1] == s[|s| - 1];
      assert '.' !in rest;
      PiecesClean(rest);
      assert '.' !in s[..i];
    }
  }

  /** Capitalising a clean piece gives a clean word that starts with no lower-case initial. */
  lemma CapitalizeClean(p: string)
    requires CleanWord(p)
    ensures CleanWord(Capitalize(p)) && !IsLowerInitial(Capitalize(p)[0])
  {
    var w := Capitalize(p);
    assert forall j :: 1 <= j < |w| ==> w[j] == p[j];
  }

  /** The value without dots and without white space at either end. */
  function Cleaned(value: string): (c: string)
    ensures IsCleaned(c)
  {
    var d := RemoveDots(value);
    TrimKeepsNoDot(d);
    Trim(d)
  }

  /** Neither a dot anywhere nor white space at either end. */
  predicate IsCleaned(c: string) {
    '.' !in c && (c != [] ==> !IsSpace(c[0]) && !IsSpace(c[|c| - 1]))
  }

  lemma TrimKeepsNoDot(d: string)
    requires '.' !in d
    ensures IsCleaned(Trim(d))
  {
    var r := Trim(d);
    forall j | 0 <= j < |r| ensures r[j] != '.' {
      assert r[j] in d;
    }
  }

  /** Each piece capitalised. */
  function CapitalizeEach(parts: seq<string>): (ws: seq<string>)
    ensures |ws| == |parts| && forall k :: 0 <= k < |parts| ==> ws[k] == Capitalize(parts[k])
  {
    seq(|parts|, k requires 0 <= k < |parts| => Capitalize(parts[k]))
  }

  /** The words of a cleaned value: its white-space-separated pieces, each capitalised. */
  function Words(cleaned: string): seq<string> {
    if cleaned == [] then [] else CapitalizeEach(SplitWhitespace(cleaned))
  }

  /**
   * `formatNavText`: the value without dots, trimmed, with each run of white
   * space made one ' ' and each word's lower-case initial made upper case.
   * The label holds no dot, does not start or end with white space, and its
   * only white space is single ' ' characters between words.
   */
  function FormatNavText(value: string): (r: string)
    ensures CapitalizedFrom(r, SquashSpaces(Cleaned(value)))
    ensures '.' !in r
    ensures r != [] ==> !IsSpace(r[0]) && !IsSpace(r[|r| - 1])
    ensures forall i :: 0 <= i < |r| && IsSpace(r[i]) ==>
      r[i] == ' ' && 0 < i < |r| - 1 && !IsSpace(r[i - 1]) && !IsSpace(r[i + 1])
  {
    var cleaned := Cleaned(value);
    WordsClean(cleaned);
    JoinCleanWords(Words(cleaned));
    WordsOfInput(cleaned);
    Join(Words(cleaned), " ")
  }

  /**
   * The character at position `i` of the label made from `q`: upper-cased
   * when it starts a word (at the front or after a ' ') and the pattern
   * matches it, kept as it is otherwise.
   */
  function CapitalizedAt(q: string, i: int): char
    requires 0 <= i < |q|
  {
    if (i == 0 || q[i - 1] == ' ') && IsInitialLetter(q[i]) then Upper(q[i]) else q[i]
  }

  /** `r` is `q` with the initial of every word upper-cased where the pattern matches it, and nothing else changed. */
  predicate CapitalizedFrom(r: string, q: string) {
    |r| == |q| && forall i :: 0 <= i < |q| ==> r[i] == CapitalizedAt(q, i)
  }

  /** The words joined are the cleaned value, white space squashed, with each word's initial capitalised. */
  lemma WordsOfInput(cleaned: string)
    ensures CapitalizedFrom(Join(Words(cleaned), " "), SquashSpaces(cleaned))
  {
    if cleaned != [] {
      var parts := SplitWhitespace(cleaned);
      JoinSplitWhitespace(cleaned);
      JoinCapitalized(CapitalizeEach(parts), parts);
    }
  }

  /** Pieces without white space, each capitalised and joined by ' ', are the joined pieces capitalised word by word. */
  lemma {:induction false} JoinCapitalized(ws: seq<string>, ps: seq<string>)
    requires |ws| == |ps| && forall k :: 0 <= k < |ps| ==> ws[k] == Capitalize(ps[k])
    requires forall k, j :: 0 <= k < |ps| && 0 <= j < |ps[k]| ==> !IsSpace(ps[k][j])
    ensures CapitalizedFrom(Join(ws, " "), Join(ps, " "))
    decreases |ps|
  {
    if |ps| >= 1 {
      CapitalizePiece(ps[0]);
    }
    if |ps| >= 2 {
      JoinCapitalized(ws[1..], ps[1..]);
      CapitalizedAppend(ws[0], ps[0], Join(ws[1..], " "), Join(ps[1..], " "));
    }
  }

  /** A piece without white space is one word: only its first character can change. */
  lemma CapitalizePiece(p: string)
    requires forall j :: 0 <= j < |p| ==> !IsSpace(p[j])
    ensures CapitalizedFrom(Capitalize(p), p)
  {
    forall i | 0 <= i < |p| ensures p[i] != ' ' {
      assert !IsSpace(p[i]);
    }
  }

  /** Two capitalised strings joined by ' ': the ' ' makes the second one's front a word start. */
  lemma CapitalizedAppend(a: string, b: string, c: string, d: string)
    requires CapitalizedFrom(a, b) && CapitalizedFrom(c, d)
    ensures CapitalizedFrom(a + " " + c, b + " " + d)
  {
    var r, q := a + " " + c, b + " " + d;
    forall i | 0 <= i < |q| ensures r[i] == CapitalizedAt(q, i) {
      if i < |b| {
        assert r[i] == a[i] && q[i] == b[i];
        assert i > 0 ==> q[i - 1] == b[i - 1];
        assert CapitalizedAt(q, i) == CapitalizedAt(b, i);
      } else if i == |b| {
        assert q[i] == ' ' && r[i] == ' ';
      } else {
        var j := i - |b| - 1;
        assert r[i] == c[j] && q[i] == d[j];
        assert j > 0 ==> q[i - 1] == d[j - 1];
        assert j == 0 ==> q[i - 1] == ' ';
        assert CapitalizedAt(q, i) == CapitalizedAt(d, j);
      }
    }
  }

  /** Every word of a cleaned value is clean and starts with no lower-case initial. */
  lemma WordsClean(cleaned: string)
    requires IsCleaned(cleaned)
    ensures forall k :: 0 <= k < |Words(cleaned)| ==>
      CleanWord(Words(cleaned)[k]) && !IsLowerInitial(Words(cleaned)[k][0])
  {
    if cleaned != [] {
      PiecesClean(cleaned);
      EachCapitalizedClean(SplitWhitespace(cleaned));
    }
  }

  lemma EachCapitalizedClean(parts: seq<string>)
    requires forall k :: 0 <= k < |parts| ==> CleanWord(parts[k])
    ensures forall k :: 0 <= k < |parts| ==>
      CleanWord(CapitalizeEach(parts)[k]) && !IsLowerInitial(CapitalizeEach(parts)[k][0])
  {
    forall k | 0 <= k < |parts|
      ensures CleanWord(Capitalize(parts[k])) && !IsLowerInitial(Capitalize(parts[k])[0])
    {
      CapitalizeClean(parts[k]);
    }
  }

  /** Joining clean words with one space. */
  lemma {:induction false} JoinCleanWords(ws: seq<string>)
    requires forall k :: 0 <= k < |ws| ==> CleanWord(ws[k])
    ensures var r := Join(ws, " ");
      && '.' !in r
      && (r == [] <==> ws == [])
      && (r != [] ==> !IsSpace(r[0]) && !IsSpace(r[|r| - 1]))
      && forall i :: 0 <= i < |r| && IsSpace(r[i]) ==>
           r[i] == ' ' && 0 < i < |r| - 1 && !IsSpace(r[i - 1]) && !IsSpace(r[i + 1])
    decreases |ws|
  {
    if |ws| >= 2 {
      JoinCleanWords(ws[1..]);
      var w, t := ws[0], Join(ws[1..], " ");
      var r := w + " " + t;
      assert Join(ws, " ") == r;
      forall i | 0 <= i < |r| && IsSpace(r[i])
        ensures r[i] == ' ' && 0 < i < |r| - 1 && !IsSpace(r[i - 1]) && !IsSpace(r[i + 1])
      {
        if i > |w| {
          assert r[i] == t[i - |w| - 1];
          if i - |w| - 1 > 0 {
            assert r[i - 1] == t[i - |w| - 2];
          }
          if i + 1 < |r| {
            assert r[i + 1] == t[i - |w|];
          }
        }
      }
      assert forall c :: c in r ==> c in w || c == ' ' || c in t;
    }
  }

  /** The label is empty exactly when the value holds nothing but dots and white space. */
  lemma FormatNavTextEmpty(value: string)
    ensures FormatNavText(value) == [] <==> forall j :: 0 <= j < |value| ==> value[j] == '.' || IsSpace(value[j])
  {
    NoDotsAllSpace(value);
  }

  /** Without its dots the value is all white space exactly when it held only dots and white space. */
  lemma NoDotsAllSpace(value: string)
    ensures var d := RemoveDots(value);
      (forall j :: 0 <= j < |d| ==> IsSpace(d[j])) <==> forall j :: 0 <= j < |value| ==> value[j] == '.' || IsSpace(value[j])
  {
    var d := RemoveDots(value);
    if forall j :: 0 <= j < |value| ==> value[j] == '.' || IsSpace(value[j]) {
      forall j | 0 <= j < |d| ensures IsSpace(d[j]) {
        assert d[j] in d;
      }
    } else {
      var j :| 0 <= j < |value| && value[j] != '.' && !IsSpace(value[j]);
      assert value[j] in d;
    }
  }

  /** `buildWeekNavLabel`: both ends of the week, an en dash between them, and the end's short year. */
  function BuildWeekNavLabel(locale: Locale, startDate: Stamp, endDate: Stamp): string {
    FormatNavText(locale.weekNav(startDate)) + " – " + FormatNavText(locale.weekNav(endDate))
      + " '" + ShortYear(endDate.date.year)
  }

  /** From year 10 on, the week navigation label ends with an apostrophe and the two-digit year of the week's end. */
  lemma WeekNavLabelYear(locale: Locale, startDate: Stamp, endDate: Stamp)
    requires endDate.date.year >= 10
    ensures BuildWeekNavLabel(locale, startDate, endDate)
      == FormatNavText(locale.weekNav(startDate)) + " – " + FormatNavText(locale.weekNav(endDate))
         + " '" + PadStart2(NatToString(endDate.date.year % 100))
  {
    ShortYearOfCentury(endDate.date.year);
  }
}
