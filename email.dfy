/**
 * The contact form's email pattern /^[^\s@]+@[^\s@]+\.[^\s@]+$/ (a
 * JavaScript regular expression without the u flag, so it reads UTF-16 code
 * units one at a time).
 */
module EmailPattern {
  import opened Wrappers
  import opened Sequences
  import opened Unicode

  const AT: CodeUnit := 0x40   // '@'
  const DOT: CodeUnit := 0x2E  // '.'

  /**
   * The class \s of ECMA-262 regular expressions: the WhiteSpace and
   * LineTerminator code points (tab, line feed, vertical tab, form feed,
   * carriage return, space, no-break space, the Unicode space separators,
   * line and paragraph separators, and the byte order mark).
   */
  predicate IsJsWhitespace(u: int) {
    || 0x09 <= u <= 0x0D
    || u == 0x20 || u == 0xA0 || u == 0x1680
    || 0x2000 <= u <= 0x200A
    || u == 0x2028 || u == 0x2029 || u == 0x202F || u == 0x205F
    || u == 0x3000 || u == 0xFEFF
  }

  /** The class [^\s@]. */
  predicate IsAddressUnit(u: int) { !IsJsWhitespace(u) && u != AT }

  /** A run matched by [^\s@]+ (the non-emptiness is checked by the caller). */
  predicate AllAddressUnits(s: JsString) {
    forall i | 0 <= i < |s| :: IsAddressUnit(s[i])
  }

  /**
   * The language of the pattern: the string splits as
   * local "@" domain "." tail with three non-empty runs of [^\s@].
   * `at` and `dot` are the positions of the literal '@' and '.'.
   */
  ghost predicate MatchesPattern(s: JsString) {
    exists at, dot | 0 < at && at + 1 < dot && dot + 1 < |s| ::
      && s[at] == AT && s[dot] == DOT
      && AllAddressUnits(s[..at]) && AllAddressUnits(s[at + 1..dot]) && AllAddressUnits(s[dot + 1..])
  }

  /** The number of occurrences of `u` in `s`. */
  function Count(s: JsString, u: CodeUnit): (n: nat)
    ensures n <= |s|
  {
    if s == [] then 0 else (if s[0] == u then 1 else 0) + Count(s[1..], u)
  }

  /** The domain holds a '.' that is neither its first nor its last unit. */
  predicate HasInnerDot(d: JsString) {
    exists k | 0 < k < |d| - 1 :: d[k] == DOT
  }

  /**
   * The address shape the pattern stands for: no whitespace, exactly one '@',
   * something before it, and after it a '.' that is neither first nor last.
   */
  predicate IsValidEmail(s: JsString) {
    && (forall i | 0 <= i < |s| :: !IsJsWhitespace(s[i]))
    && Count(s, AT) == 1
    && match FirstIndex(s, AT)
       case None => false
       case Some(k) => k > 0 && HasInnerDot(s[k + 1..])
  }

  /** A unit occurring exactly once occurs nowhere but at its first position. */
  lemma {:induction false} CountOne(s: JsString, u: CodeUnit, k: nat)
    requires Count(s, u) == 1 && FirstIndex(s, u) == Some(k)
    ensures forall j | 0 <= j < |s| && j != k :: s[j] != u
  {
    if s[0] == u {
      CountZero(s[1..], u);
      forall j | 0 < j < |s| ensures s[j] != u {
        assert s[j] == s[1..][j - 1];
      }
    } else {
      CountOne(s[1..], u, k - 1);
      forall j | 0 < j < |s| && j != k ensures s[j] != u {
        assert s[j] == s[1..][j - 1];
      }
    }
  }

  lemma {:induction false} CountZero(s: JsString, u: CodeUnit)
    requires Count(s, u) == 0
    ensures forall j | 0 <= j < |s| :: s[j] != u
  {
    if s != [] {
      CountZero(s[1..], u);
      forall j | 0 < j < |s| ensures s[j] != u {
        assert s[j] == s[1..][j - 1];
      }
    }
  }

  /** A unit found at exactly one position is counted once. */
  lemma {:induction false} CountUnique(s: JsString, u: CodeUnit, k: nat)
    requires k < |s| && s[k] == u
    requires forall j | 0 <= j < |s| && j != k :: s[j] != u
    ensures Count(s, u) == 1
  {
    if k == 0 {
      CountAbsent(s[1..], u);
    } else {
      CountUnique(s[1..], u, k - 1);
    }
  }

  lemma {:induction false} CountAbsent(s: JsString, u: CodeUnit)
    requires forall j | 0 <= j < |s| :: s[j] != u
    ensures Count(s, u) == 0
  {
    if s != [] {
      CountAbsent(s[1..], u);
    }
  }

  /** A string in the language of the pattern has the address shape. */
  lemma MatchImpliesValid(s: JsString, at: nat, dot: nat)
    requires 0 < at && at + 1 < dot && dot + 1 < |s|
    requires s[at] == AT && s[dot] == DOT
    requires AllAddressUnits(s[..at]) && AllAddressUnits(s[at + 1..dot]) && AllAddressUnits(s[dot + 1..])
    ensures IsValidEmail(s)
  {
    forall j | 0 <= j < |s| && j != at
      ensures IsAddressUnit(s[j])
    {
      if j < at {
        assert s[j] == s[..at][j];
      } else if j < dot {
        assert s[j] == s[at + 1..dot][j - at - 1];
      } else if j > dot {
        assert s[j] == s[dot + 1..][j - dot - 1];
      }
    }
    CountUnique(s, AT, at);
    assert FirstIndex(s, AT) == Some(at);
    var d := s[at + 1..];
    assert d[dot - at - 1] == DOT;
  }

  /** A string of the address shape is in the language of the pattern. */
  lemma ValidImpliesMatch(s: JsString) returns (at: nat, dot: nat)
    requires IsValidEmail(s)
    ensures 0 < at && at + 1 < dot && dot + 1 < |s|
    ensures s[at] == AT && s[dot] == DOT
    ensures AllAddressUnits(s[..at]) && AllAddressUnits(s[at + 1..dot]) && AllAddressUnits(s[dot + 1..])
  {
    at := FirstIndex(s, AT).value;
    CountOne(s, AT, at);
    var d := s[at + 1..];
    var k :| 0 < k < |d| - 1 && d[k] == DOT;
    dot := at + 1 + k;
    assert s[dot] == d[k];
    assert forall j | 0 <= j < |s| && j != at :: IsAddressUnit(s[j]);
  }

  /** The pattern matches exactly the strings of the address shape. */
  lemma PatternIsValidEmail(s: JsString)
    ensures MatchesPattern(s) <==> IsValidEmail(s)
  {
    if MatchesPattern(s) {
      var at, dot :| 0 < at && at + 1 < dot && dot + 1 < |s|
        && s[at] == AT && s[dot] == DOT
        && AllAddressUnits(s[..at]) && AllAddressUnits(s[at + 1..dot]) && AllAddressUnits(s[dot + 1..]);
      MatchImpliesValid(s, at, dot);
    }
    if IsValidEmail(s) {
      var at, dot := ValidImpliesMatch(s);
    }
  }
}
