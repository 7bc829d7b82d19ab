/**
 * The string handling the request handlers rely on: Python's str.strip() and the
 * EMAIL_PATTERN regular expression checked with re.match (SNSApp/app.py:13, 58).
 */
module Text {

  /** Python's str.isspace() for one character: exactly the characters str.strip() removes. */
  predicate IsSpace(c: char) {
    || c == ' '
    || '\t' <= c <= '\r'
    || '\U{1C}' <= c <= '\U{1F}'
    || c == '\U{85}' || c == '\U{A0}' || c == '\U{1680}'
    || '\U{2000}' <= c <= '\U{200A}'
    || c == '\U{2028}' || c == '\U{2029}' || c == '\U{202F}' || c == '\U{205F}' || c == '\U{3000}'
  }

  /** The number of whitespace characters at the front of s. */
  function LeadingSpaces(s: string): (n: nat)
    ensures n <= |s|
    ensures forall k :: 0 <= k < n ==> IsSpace(s[k])
    ensures n < |s| ==> !IsSpace(s[n])
  {
    if s == [] || !IsSpace(s[0]) then 0 else 1 + LeadingSpaces(s[1..])
  }

  /** The number of whitespace characters at the end of s. */
  function TrailingSpaces(s: string): (n: nat)
    ensures n <= |s|
    ensures forall k :: |s| - n <= k < |s| ==> IsSpace(s[k])
    ensures n < |s| ==> !IsSpace(s[|s| - 1 - n])
  {
    if s == [] || !IsSpace(s[|s| - 1]) then 0 else 1 + TrailingSpaces(s[..|s| - 1])
  }

  /** Python's s.strip(): the part of s between its leading and its trailing whitespace. */
  function Strip(s: string): (r: string)
    ensures |r| <= |s|
  {
    var lead := LeadingSpaces(s);
    if lead == |s| then [] else s[lead..|s| - TrailingSpaces(s)]
  }

  /** When s is not all whitespace, its leading and trailing whitespace do not overlap. */
  lemma SpacesApart(s: string)
    requires LeadingSpaces(s) < |s|
    ensures LeadingSpaces(s) < |s| - TrailingSpaces(s)
  {
    var lead := LeadingSpaces(s);
    assert !IsSpace(s[lead]);
  }

  /** Strip is empty exactly when s is all whitespace. */
  lemma StripEmpty(s: string)
    ensures Strip(s) == [] <==> forall k :: 0 <= k < |s| ==> IsSpace(s[k])
  {
    var lead := LeadingSpaces(s);
    if lead < |s| {
      SpacesApart(s);
      assert !IsSpace(s[lead]);
    }
  }

  /** A non-empty Strip neither starts nor ends with whitespace. */
  lemma StripEnds(s: string)
    ensures var r := Strip(s); r != [] ==> !IsSpace(r[0]) && !IsSpace(r[|r| - 1])
  {
    var lead := LeadingSpaces(s);
    if lead < |s| {
      SpacesApart(s);
      var r, t := Strip(s), TrailingSpaces(s);
      assert r == s[lead..|s| - t];
      assert r[0] == s[lead];
      assert r[|r| - 1] == s[|s| - 1 - t];
    }
  }

  /** Strip is the part of s after its leading whitespace, with only whitespace after it. */
  lemma StripInfix(s: string)
    ensures var r, i := Strip(s), LeadingSpaces(s);
      && i + |r| <= |s|
      && r == s[i..i + |r|]
      && forall k :: i + |r| <= k < |s| ==> IsSpace(s[k])
  {
    if LeadingSpaces(s) < |s| {
      SpacesApart(s);
    }
  }

  /**
   * What Strip keeps: it is empty exactly when s is all whitespace, otherwise it neither
   * starts nor ends with whitespace, and it is the part of s after the leading whitespace
   * with only whitespace after it.
   */
  lemma StripMeaning(s: string)
    ensures var r := Strip(s); r == [] <==> forall k :: 0 <= k < |s| ==> IsSpace(s[k])
    ensures var r := Strip(s); r != [] ==> !IsSpace(r[0]) && !IsSpace(r[|r| - 1])
    ensures var r, i := Strip(s), LeadingSpaces(s);
      && i + |r| <= |s|
      && r == s[i..i + |r|]
      && forall k :: i + |r| <= k < |s| ==> IsSpace(s[k])
  {
    StripEmpty(s);
    StripEnds(s);
    StripInfix(s);
  }

  /** Stripping twice strips nothing more. */
  lemma StripIdempotent(s: string)
    ensures Strip(Strip(s)) == Strip(s)
  {
    StripMeaning(s);
    var r := Strip(s);
    if r != [] {
      assert LeadingSpaces(r) == 0;
      assert TrailingSpaces(r) == 0;
      assert r[0..|r|] == r;
    }
  }

  /** [a-zA-Z0-9] */
  predicate IsAlnum(c: char) {
    'a' <= c <= 'z' || 'A' <= c <= 'Z' || '0' <= c <= '9'
  }

  /** The local-part class [a-zA-Z0-9_.+-] of EMAIL_PATTERN. */
  predicate IsLocalChar(c: char) {
    IsAlnum(c) || c == '_' || c == '.' || c == '+' || c == '-'
  }

  /** The class [a-zA-Z0-9-] that precedes the escaped dot of EMAIL_PATTERN. */
  predicate IsLabelChar(c: char) {
    IsAlnum(c) || c == '-'
  }

  /** The class [a-zA-Z0-9-.] that follows the escaped dot of EMAIL_PATTERN. */
  predicate IsDomainChar(c: char) {
    IsLabelChar(c) || c == '.'
  }

  /**
   * The language of EMAIL_PATTERN between its anchors:
   * [a-zA-Z0-9_.+-]+ '@' [a-zA-Z0-9-]+ '.' [a-zA-Z0-9-.]+
   */
  ghost predicate InEmailLanguage(s: string) {
    exists at, dot ::
      && 0 < at && at + 1 < dot && dot + 1 < |s|
      && s[at] == '@' && s[dot] == '.'
      && (forall k :: 0 <= k < at ==> IsLocalChar(s[k]))
      && (forall k :: at < k < dot ==> IsLabelChar(s[k]))
      && (forall k :: dot < k < |s| ==> IsDomainChar(s[k]))
  }

  /** The position of the first c in s, or |s| when there is none. */
  function IndexOf(s: string, c: char): (i: nat)
    ensures i <= |s|
    ensures i < |s| ==> s[i] == c
    ensures forall k :: 0 <= k < i ==> s[k] != c
  {
    if s == [] || s[0] == c then 0 else 1 + IndexOf(s[1..], c)
  }

  /** Whether d, the part after the first '@', is a domain: a label, its first '.', then more. */
  predicate IsDomain(d: string) {
    var dot := IndexOf(d, '.');
    && 0 < dot && dot + 1 < |d|
    && (forall k :: 0 <= k < dot ==> IsLabelChar(d[k]))
    && (forall k :: dot < k < |d| ==> IsDomainChar(d[k]))
  }

  /** The email check read off the pattern: a non-empty local part, the first '@', a domain. */
  predicate IsEmail(s: string) {
    var at := IndexOf(s, '@');
    && 0 < at < |s|
    && (forall k :: 0 <= k < at ==> IsLocalChar(s[k]))
    && IsDomain(s[at + 1..])
  }

  /**
   * re.match(EMAIL_PATTERN, s) is not None. Python's `$` matches at the end of the
   * string and also just before a newline that ends it.
   */
  predicate MatchesEmailPattern(s: string)
    ensures MatchesEmailPattern(s) ==> '@' in s
  {
    IsEmail(s) || (|s| > 0 && s[|s| - 1] == '\n' && IsEmail(s[..|s| - 1]))
  }

  /** Every string the check accepts is in the pattern's language. */
  lemma IsEmailInLanguage(s: string)
    requires IsEmail(s)
    ensures InEmailLanguage(s)
  {
    var at := IndexOf(s, '@');
    var d := s[at + 1..];
    var dot := at + 1 + IndexOf(d, '.');
    assert s[dot] == d[dot - at - 1];
    forall k | at < k < dot ensures IsLabelChar(s[k]) {
      assert s[k] == d[k - at - 1];
    }
    forall k | dot < k < |s| ensures IsDomainChar(s[k]) {
      assert s[k] == d[k - at - 1];
    }
  }

  /** IndexOf finds the first occurrence. */
  lemma IndexOfFirst(s: string, c: char, m: nat)
    requires m < |s| && s[m] == c
    requires forall k :: 0 <= k < m ==> s[k] != c
    ensures IndexOf(s, c) == m
  {
  }

  /** The part after the '@' of a string of the language is a domain. */
  lemma DomainOfLanguage(s: string, at: nat, dot: nat)
    requires at + 1 < dot && dot + 1 < |s| && s[dot] == '.'
    requires forall k :: at < k < dot ==> IsLabelChar(s[k])
    requires forall k :: dot < k < |s| ==> IsDomainChar(s[k])
    ensures IsDomain(s[at + 1..])
  {
    var d := s[at + 1..];
    var m := dot - at - 1;
    forall k | 0 <= k < m ensures d[k] != '.' && IsLabelChar(d[k]) {
      assert d[k] == s[at + 1 + k];
    }
    IndexOfFirst(d, '.', m);
    forall k | m < k < |d| ensures IsDomainChar(d[k]) {
      assert d[k] == s[at + 1 + k];
    }
  }

  /** Every string of the pattern's language passes the check. */
  lemma InLanguageIsEmail(s: string)
    requires InEmailLanguage(s)
    ensures IsEmail(s)
  {
    var at, dot :|
      && 0 < at && at + 1 < dot && dot + 1 < |s|
      && s[at] == '@' && s[dot] == '.'
      && (forall k :: 0 <= k < at ==> IsLocalChar(s[k]))
      && (forall k :: at < k < dot ==> IsLabelChar(s[k]))
      && (forall k :: dot < k < |s| ==> IsDomainChar(s[k]));
    IndexOfFirst(s, '@', at);
    DomainOfLanguage(s, at, dot);
    assert IndexOf(s, '@') == at;
    assert 0 < at < |s|;
  }

  /** The check is exact: it accepts precisely the strings of the pattern's language. */
  lemma IsEmailIffInLanguage(s: string)
    ensures IsEmail(s) <==> InEmailLanguage(s)
  {
    if IsEmail(s) {
      IsEmailInLanguage(s);
    }
    if InEmailLanguage(s) {
      InLanguageIsEmail(s);
    }
  }

  /**
   * On a stripped string the trailing-newline allowance of `$` never applies, so the
   * pattern accepts a stripped email exactly when it is in the pattern's language.
   */
  lemma StrippedEmailMatch(s: string)
    ensures MatchesEmailPattern(Strip(s)) <==> InEmailLanguage(Strip(s))
  {
    StripMeaning(s);
    IsEmailIffInLanguage(Strip(s));
  }

  /** A string of the language ends in a domain character, so one ending otherwise is outside it. */
  lemma EndsOutsideLanguage(s: string)
    requires s != [] && !IsDomainChar(s[|s| - 1])
    ensures !InEmailLanguage(s)
  {
  }

  /** "a@b.c" passes the check: local part "a", label "b", then ".c". */
  lemma ShortEmailAccepted()
    ensures IsEmail("a@b.c")
  {
    var s := "a@b.c";
    assert IndexOf(s, '@') == 1;
    assert s[2..] == "b.c";
    assert IndexOf("b.c", '.') == 1;
  }

  /** The trailing newline that `$` tolerates: "a@b.c\n" matches although it is not in the language. */
  lemma NewlineBeforeEnd()
    ensures MatchesEmailPattern("a@b.c\n") && !InEmailLanguage("a@b.c\n")
  {
    var s := "a@b.c\n";
    assert s[..|s| - 1] == "a@b.c";
    ShortEmailAccepted();
    EndsOutsideLanguage(s);
  }
}
