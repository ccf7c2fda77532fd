/**
 * The two pieces of the JavaScript string library the page relies on:
 * `String.prototype.trim` (a blank test is `!s.trim()`), and the anchored
 * regular expression `^\d{2}\/\d{2}\/\d{4}$` used to check a date of birth.
 */
module JsString {

  /** The characters `trim` removes: ECMAScript WhiteSpace and LineTerminator. */
  const WhitespaceChars: set<char> := {
    '\t', '\n', '\U{000B}', '\U{000C}', '\r', ' ', '\U{00A0}', '\U{1680}',
    '\U{2000}', '\U{2001}', '\U{2002}', '\U{2003}', '\U{2004}', '\U{2005}', '\U{2006}',
    '\U{2007}', '\U{2008}', '\U{2009}', '\U{200A}',
    '\U{2028}', '\U{2029}', '\U{202F}', '\U{205F}', '\U{3000}', '\U{FEFF}'
  }

  predicate IsWhitespace(c: char) {
    c in WhitespaceChars
  }

  /** `\d` without the `u` flag: the ASCII digits only. */
  predicate IsDigit(c: char) {
    '0' <= c <= '9'
  }

  /** Drops the leading whitespace: the result is the suffix that starts at the first other character. */
  function TrimStart(s: string): (r: string)
    ensures |r| <= |s| && r == s[|s| - |r|..]
    ensures forall i :: 0 <= i < |s| - |r| ==> IsWhitespace(s[i])
    ensures r == [] || !IsWhitespace(r[0])
  {
    if s != [] && IsWhitespace(s[0]) then TrimStart(s[1..]) else s
  }

  /** Drops the trailing whitespace: the result is the prefix that ends at the last other character. */
  function TrimEnd(s: string): (r: string)
    ensures |r| <= |s| && r == s[..|r|]
    ensures forall i :: |r| <= i < |s| ==> IsWhitespace(s[i])
    ensures r == [] || !IsWhitespace(r[|r| - 1])
  {
    if s != [] && IsWhitespace(s[|s| - 1]) then TrimEnd(s[..|s| - 1]) else s
  }

  /** Neither starts nor ends with whitespace: what `trim` leaves. */
  predicate IsTrimmed(s: string) {
    s == [] || (!IsWhitespace(s[0]) && !IsWhitespace(s[|s| - 1]))
  }

  /** `s.trim()`: the whitespace at both ends removed; what is left is trimmed. */
  function Trim(s: string): (r: string)
    ensures IsTrimmed(r)
    ensures |r| <= |s|
  {
    TrimEnd(TrimStart(s))
  }

  /** Where `Trim(s)` sits in `s`: only whitespace is cut, at the two ends. */
  lemma TrimIsInfix(s: string)
    ensures var k := |s| - |TrimStart(s)|;
      && k + |Trim(s)| <= |s|
      && Trim(s) == s[k..k + |Trim(s)|]
      && (forall i :: 0 <= i < k ==> IsWhitespace(s[i]))
      && (forall i :: k + |Trim(s)| <= i < |s| ==> IsWhitespace(s[i]))
  {
  }

  /** A trimmed string is left as it is; in particular trimming twice is trimming once. */
  lemma TrimmedIsFixpoint(s: string)
    requires IsTrimmed(s)
    ensures Trim(s) == s
  {
    if s != [] {
      assert TrimStart(s) == s;
      assert TrimEnd(s) == s;
    }
  }

  /** Every character is whitespace: the condition under which the source's `!s.trim()` holds. */
  predicate IsBlank(s: string) {
    forall i :: 0 <= i < |s| ==> IsWhitespace(s[i])
  }

  /** `!s.trim()`: the string trims to the empty string exactly when it is blank. */
  lemma {:induction false} TrimEmptyIffBlank(s: string)
    ensures Trim(s) == [] <==> IsBlank(s)
  {
    var u := TrimStart(s);
    if IsBlank(s) {
      assert u == [];
    } else {
      var k :| 0 <= k < |s| && !IsWhitespace(s[k]);
      assert k >= |s| - |u|;
      assert u != [] && !IsWhitespace(u[0]);
      assert |TrimEnd(u)| >= 1;
    }
  }

  /** What one atom of the date pattern accepts: `\d` or a literal character such as `\/`. */
  datatype CharClass = AnyDigit | Literal(c: char)

  /** An atom with a fixed repetition count, `\d{4}`; a bare atom has count 1. */
  datatype Term = Term(cls: CharClass, count: nat)

  predicate ClassHas(cls: CharClass, c: char) {
    match cls
    case AnyDigit => IsDigit(c)
    case Literal(l) => c == l
  }

  /**
   * `^t1 t2 ... tn$`.test(s) for a sequence of fixed-count terms: with no
   * alternation and no variable repetition, a match of the whole string is
   * unique, so no backtracking is needed.
   */
  predicate FullMatch(pattern: seq<Term>, s: string)
    decreases |pattern|
  {
    if pattern == [] then s == []
    else
      var t := pattern[0];
      && t.count <= |s|
      && (forall i :: 0 <= i < t.count ==> ClassHas(t.cls, s[i]))
      && FullMatch(pattern[1..], s[t.count..])
  }

  /** `^\d{2}\/\d{2}\/\d{4}$` */
  const DobPattern: seq<Term> :=
    [Term(AnyDigit, 2), Term(Literal('/'), 1), Term(AnyDigit, 2), Term(Literal('/'), 1), Term(AnyDigit, 4)]

  /** The date-of-birth shape, stated position by position. */
  predicate DobShape(s: string) {
    && |s| == 10
    && forall i :: 0 <= i < 10 ==> if i == 2 || i == 5 then s[i] == '/' else IsDigit(s[i])
  }

  /** The last term of the pattern: exactly four digits and nothing after them. */
  lemma FourDigitsAtEnd(s: string)
    ensures FullMatch(DobPattern[4..], s) <==> |s| == 4 && forall i :: 0 <= i < 4 ==> IsDigit(s[i])
  {
    assert DobPattern[4..][1..] == [];
  }

  /**
   * `dobRegex.test(dob)`: two digits, a slash, two digits, a slash, four
   * digits and nothing else; there is no calendar check.
   */
  predicate DobMatches(dob: string) {
    DobShape(dob)
  }

  /** The position-by-position check accepts exactly what the regular expression accepts. */
  lemma DobMatchesIsRegex(s: string)
    ensures DobMatches(s) <==> FullMatch(DobPattern, s)
  {
    var p := DobPattern;
    assert p[1..][1..][1..][1..] == p[4..];
    if |s| >= 6 {
      FourDigitsAtEnd(s[6..]);
      assert s[2..][1..][2..][1..] == s[6..];
    }
    if DobShape(s) {
      assert s[2..][0] == s[2];
      assert s[2..][1..][0] == s[3] && s[2..][1..][1] == s[4];
      assert s[2..][1..][2..][0] == s[5];
      assert forall i :: 0 <= i < 4 ==> s[6..][i] == s[6 + i];
    }
    if FullMatch(p, s) {
      assert s[2..][1..][2..][1..] == s[6..];
      assert forall i :: 0 <= i < 4 ==> s[6..][i] == s[6 + i];
    }
  }

  /** A date that does not exist in the calendar still matches the regular expression. */
  lemma ImpossibleDateAccepted()
    ensures FullMatch(DobPattern, "31/02/9999")
  {
    DobMatchesIsRegex("31/02/9999");
  }

  /** An ISO-formatted date is rejected. */
  lemma IsoDateRejected()
    ensures !FullMatch(DobPattern, "2000-01-01")
  {
    assert "2000-01-01"[2] == '0';
    DobMatchesIsRegex("2000-01-01");
  }
}
