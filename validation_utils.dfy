/** The form checks: an e-mail address of the usual shape, and blank values. */
module ValidationUtils {
  import opened Wrappers
  import opened Strings

  /** `[^\s@]`: a character other than white space and '@'. */
  predicate IsPlain(c: char) {
    !IsSpace(c) && c != '@'
  }

  /** `[^\s@]+`. */
  predicate IsPlainRun(s: string) {
    |s| > 0 && forall i :: 0 <= i < |s| ==> IsPlain(s[i])
  }

  /**
   * What `/^[^\s@]+@[^\s@]+\.[^\s@]+$/` matches, read off its structure: a
   * local part, '@', a first domain part, '.', a last domain part.
   */
  ghost predicate EmailShape(s: string) {
    exists local, first, last :: IsPlainRun(local) && IsPlainRun(first) && IsPlainRun(last) && s == local + "@" + first + "." + last
  }

  /**
   * `isValidEmail`: the test of `email` against the expression, which accepts
   * exactly the strings of its shape.
   */
  function IsValidEmail(email: string): (valid: bool)
    ensures valid <==> EmailShape(email)
  {
    ScanMatchesShape(email);
    ScanEmail(email)
  }

  /**
   * The expression's match read left to right: a non-empty plain part before
   * the first '@', and after it a plain domain with a '.' that is neither its
   * first nor its last character.
   */
  predicate ScanEmail(email: string) {
    var at := IndexOf(email, '@');
    && 0 < at < |email|
    && IsPlainRun(email[..at])
    && IsPlainRun(email[at + 1..])
    && exists j :: at + 2 <= j < |email| - 1 && email[j] == '.'
  }

  /** A string the scan accepts splits as the expression requires. */
  lemma ScanHasShape(email: string)
    requires ScanEmail(email)
    ensures EmailShape(email)
  {
    var at := IndexOf(email, '@');
    var domain := email[at + 1..];
    var j :| at + 2 <= j < |email| - 1 && email[j] == '.';
    var local, first, last := email[..at], domain[..j - at - 1], domain[j - at..];
    assert IsPlainRun(first) by {
      forall i | 0 <= i < |first| ensures IsPlain(first[i]) {
        assert first[i] == domain[i];
      }
    }
    assert IsPlainRun(last) by {
      forall i | 0 <= i < |last| ensures IsPlain(last[i]) {
        assert last[i] == domain[j - at + i];
      }
    }
    assert domain == first + "." + last;
    assert email == local + "@" + first + "." + last;
    assert IsPlainRun(local) && IsPlainRun(first) && IsPlainRun(last);
  }

  /** A string of the expression's shape passes the scan. */
  lemma ShapePassesScan(email: string, local: string, first: string, last: string)
    requires IsPlainRun(local) && IsPlainRun(first) && IsPlainRun(last)
    requires email == local + "@" + first + "." + last
    ensures ScanEmail(email)
  {
    var at := |local|;
    assert email[at] == '@';
    assert forall i :: 0 <= i < at ==> email[i] == local[i];
    assert IndexOf(email, '@') == at;
    assert email[..at] == local;
    assert email[at + 1..] == first + "." + last;
    assert email[at + 1 + |first|] == '.';
  }

  /** The scan accepts exactly the strings the expression matches. */
  lemma ScanMatchesShape(email: string)
    ensures ScanEmail(email) <==> EmailShape(email)
  {
    if ScanEmail(email) {
      ScanHasShape(email);
    }
    if EmailShape(email) {
      var local, first, last :| IsPlainRun(local) && IsPlainRun(first) && IsPlainRun(last) && email == local + "@" + first + "." + last;
      ShapePassesScan(email, local, first, last);
    }
  }

  /** A valid address holds exactly one '@' and no white space, so '' is not one. */
  lemma ValidEmailOneAt(email: string)
    requires IsValidEmail(email)
    ensures forall i :: 0 <= i < |email| ==> !IsSpace(email[i])
    ensures exists k :: 0 <= k < |email| && email[k] == '@' && forall i :: 0 <= i < |email| && email[i] == '@' ==> i == k
  {
    var at := IndexOf(email, '@');
    forall i | 0 <= i < |email| ensures !IsSpace(email[i]) && (email[i] == '@' ==> i == at) {
      if i < at {
        assert email[i] == email[..at][i];
      } else if i > at {
        assert email[i] == email[at + 1..][i - at - 1];
      }
    }
  }

  /** `isEmpty`: null, undefined, '' or only white space. */
  function IsEmpty(value: Option<string>): (empty: bool)
    ensures empty <==> value.None? || forall j :: 0 <= j < |value.value| ==> IsSpace(value.value[j])
  {
    value.None? || value.value == "" || |Trim(value.value)| == 0
  }

  /** `isNotEmpty`: a string with a character other than white space. */
  function IsNotEmpty(value: Option<string>): (nonEmpty: bool)
    ensures nonEmpty <==> value.Some? && exists j :: 0 <= j < |value.value| && !IsSpace(value.value[j])
  {
    !IsEmpty(value)
  }
}
