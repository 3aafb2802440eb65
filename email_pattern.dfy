/**
 * The login form's identifier classification: an identifier is an email
 * address when `re.match` accepts it against
 *
 *   ^[a-zA-Z0-9._%+-]+@[a-zA-Z0-9.-]+\.[a-zA-Z]{2,}$
 *
 * `FullMatch` is what the pattern means, stated as "there is a split of the
 * string into local part, `@`, domain prefix, `.` and top-level label".
 * `IsEmailAddress` decides it by locating the last `.` and the first `@`, and
 * `IsEmailAddressCorrect` proves the two agree. `MatchesEmailRegex` adds the
 * one behaviour of Python's `$` that matters here: it also matches just
 * before a single trailing newline.
 */
module EmailPattern {
  import opened Wrappers

  predicate IsLetter(c: char) {
    'a' <= c <= 'z' || 'A' <= c <= 'Z'
  }

  predicate IsDigit(c: char) {
    '0' <= c <= '9'
  }

  /** The class `[a-zA-Z0-9._%+-]` of the local part. */
  predicate IsLocalChar(c: char) {
    IsLetter(c) || IsDigit(c) || c == '.' || c == '_' || c == '%' || c == '+' || c == '-'
  }

  /** The class `[a-zA-Z0-9.-]` of the domain before its last label. */
  predicate IsDomainChar(c: char) {
    IsLetter(c) || IsDigit(c) || c == '.' || c == '-'
  }

  predicate AllLocal(s: string) {
    forall i :: 0 <= i < |s| ==> IsLocalChar(s[i])
  }

  predicate AllDomain(s: string) {
    forall i :: 0 <= i < |s| ==> IsDomainChar(s[i])
  }

  predicate AllLetters(s: string) {
    forall i :: 0 <= i < |s| ==> IsLetter(s[i])
  }

  /**
   * `s` reads as `local @ prefix . tld` with the `@` at index `at` and the `.`
   * at index `dot`: a non-empty local part, a non-empty domain prefix and a
   * top-level label of at least two letters.
   */
  ghost predicate SplitsAsEmail(s: string, at: int, dot: int) {
    && 0 < at && at + 1 < dot && dot + 3 <= |s|
    && s[at] == '@' && s[dot] == '.'
    && AllLocal(s[..at]) && AllDomain(s[at + 1..dot]) && AllLetters(s[dot + 1..])
  }

  /** The whole of `s` matches the pattern (anchored at both ends). */
  ghost predicate FullMatch(s: string) {
    exists at, dot :: SplitsAsEmail(s, at, dot)
  }

  /** The index of the last occurrence of `c` in `s`, if any. */
  function LastIndexOf(s: string, c: char): (r: Option<nat>)
    ensures r.Some? ==> r.value < |s| && s[r.value] == c
    ensures r.Some? ==> forall k :: r.value < k < |s| ==> s[k] != c
    ensures r.None? ==> forall k :: 0 <= k < |s| ==> s[k] != c
    decreases |s|
  {
    if s == [] then None
    else if s[|s| - 1] == c then Some(|s| - 1)
    else LastIndexOf(s[..|s| - 1], c)
  }

  /** The index of the first occurrence of `c` in `s`, if any. */
  function FirstIndexOf(s: string, c: char): (r: Option<nat>)
    ensures r.Some? ==> r.value < |s| && s[r.value] == c
    ensures r.Some? ==> forall k :: 0 <= k < r.value ==> s[k] != c
    ensures r.None? ==> forall k :: 0 <= k < |s| ==> s[k] != c
    decreases |s|
  {
    if s == [] then None
    else if s[0] == c then Some(0)
    else match FirstIndexOf(s[1..], c)
      case None => None
      case Some(i) => Some(i + 1)
  }

  /**
   * Decides the pattern: the top-level label follows the last `.`, and the
   * local part ends at the first `@` (neither `@` nor a letter-only label can
   * hold the separators the pattern needs).
   */
  function IsEmailAddress(s: string): bool {
    match LastIndexOf(s, '.')
    case None => false
    case Some(dot) =>
      match FirstIndexOf(s[..dot], '@')
      case None => false
      case Some(at) =>
        && 0 < at && at + 1 < dot && dot + 3 <= |s|
        && AllLocal(s[..at]) && AllDomain(s[at + 1..dot]) && AllLetters(s[dot + 1..])
  }

  /** The decision procedure accepts exactly the strings the pattern matches. */
  lemma IsEmailAddressCorrect(s: string)
    ensures IsEmailAddress(s) <==> FullMatch(s)
  {
    if IsEmailAddress(s) {
      var dot := LastIndexOf(s, '.').value;
      var at := FirstIndexOf(s[..dot], '@').value;
      assert s[..dot][..at] == s[..at];
      assert s[..dot][at] == s[at];
      assert SplitsAsEmail(s, at, dot);
    }
    if FullMatch(s) {
      var at, dot :| SplitsAsEmail(s, at, dot);
      // The top-level label holds letters only, so `dot` is the last `.`.
      forall k | dot < k < |s|
        ensures s[k] != '.'
      {
        assert IsLetter(s[dot + 1..][k - dot - 1]);
      }
      var last := LastIndexOf(s, '.');
      assert last == Some(dot);
      // The local part holds no `@`, so `at` is the first `@`.
      assert forall k :: 0 <= k < at ==> IsLocalChar(s[..at][k]);
      var first := FirstIndexOf(s[..dot], '@');
      assert s[..dot][at] == '@';
      assert first == Some(at);
    }
  }

  /**
   * `re.match` with this pattern: `^` anchors at the start, and `$` matches at
   * the end of the string or just before a final newline.
   */
  function MatchesEmailRegex(s: string): (r: bool)
    ensures r <==> FullMatch(s) || (|s| > 0 && s[|s| - 1] == '\n' && FullMatch(s[..|s| - 1]))
  {
    var withoutLast := if |s| > 0 then s[..|s| - 1] else s;
    IsEmailAddressCorrect(s);
    IsEmailAddressCorrect(withoutLast);
    IsEmailAddress(s) || (|s| > 0 && s[|s| - 1] == '\n' && IsEmailAddress(withoutLast))
  }

  /** Every string the pattern accepts holds exactly one `@`. */
  lemma MatchHasOneAt(s: string)
    requires FullMatch(s)
    ensures exists at :: 0 < at < |s| && s[at] == '@' && forall k :: 0 <= k < |s| && k != at ==> s[k] != '@'
  {
    var at, dot :| SplitsAsEmail(s, at, dot);
    forall k | 0 <= k < |s| && k != at
      ensures s[k] != '@'
    {
      if k < at {
        assert IsLocalChar(s[..at][k]);
      } else if k < dot {
        assert IsDomainChar(s[at + 1..dot][k - at - 1]);
      } else if k > dot {
        assert IsLetter(s[dot + 1..][k - dot - 1]);
      }
    }
  }

  /** A tagged address on a sub-domain is classified as an email address. */
  lemma TaggedAddressIsEmail()
    ensures MatchesEmailRegex("a.b+tag@sub.example.co")
  {
    var s := "a.b+tag@sub.example.co";
    assert s[..7] == "a.b+tag" && s[8..19] == "sub.example" && s[20..] == "co";
    assert SplitsAsEmail(s, 7, 19);
  }

  /** Without an `@` an identifier is never an email address. */
  lemma NoAtIsNotEmail(s: string)
    requires forall k :: 0 <= k < |s| ==> s[k] != '@'
    ensures !MatchesEmailRegex(s)
  {
    if FullMatch(s) {
      MatchHasOneAt(s);
    }
    if |s| > 0 && FullMatch(s[..|s| - 1]) {
      MatchHasOneAt(s[..|s| - 1]);
    }
  }

  /** The tag alone, with no domain, is classified as a username. */
  lemma TagWithoutDomainIsNotEmail()
    ensures !MatchesEmailRegex("a.b+tag")
  {
    NoAtIsNotEmail("a.b+tag");
  }
}
