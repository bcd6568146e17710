/** The character-class patterns the inquiry form tests its trimmed values against
    (static/adamus.js, lines 90, 104, 115, 129 and 142). Every class is inside the Basic
    Multilingual Plane, so matching code points gives the same verdicts as the browser's
    matching of UTF-16 code units. */
module Patterns {
  import opened TextOps

  predicate IsAsciiLetter(c: char) {
    'A' <= c <= 'Z' || 'a' <= c <= 'z'
  }

  predicate IsDigit(c: char) {
    '0' <= c <= '9'
  }

  /** `[A-Za-zÁÉÍÓÚáéíóúÑñ ]` */
  predicate IsNameChar(c: char) {
    IsAsciiLetter(c) || c in "ÁÉÍÓÚáéíóúÑñ "
  }

  /** `/^[A-Za-zÁÉÍÓÚáéíóúÑñ ]{2,}$/` */
  predicate NamePattern(s: string)
    ensures NamePattern(s) ==> forall k | 0 <= k < |s| :: !IsDigit(s[k]) && (IsJsSpace(s[k]) ==> s[k] == ' ')
  {
    |s| >= 2 && forall k | 0 <= k < |s| :: IsNameChar(s[k])
  }

  /** `[A-Za-z0-9\s.,-]` */
  predicate IsOrganizationChar(c: char) {
    IsAsciiLetter(c) || IsDigit(c) || IsJsSpace(c) || c in ".,-"
  }

  /** `/^[A-Za-z0-9\s.,-]{2,}$/` */
  predicate OrganizationPattern(s: string)
    ensures OrganizationPattern(s) ==> forall k | 0 <= k < |s| :: IsJsSpace(s[k]) || s[k] < '\U{0080}'
  {
    |s| >= 2 && forall k | 0 <= k < |s| :: IsOrganizationChar(s[k])
  }

  /** `[a-zA-Z0-9._%+-]`, the class of the part before the at sign. */
  predicate IsLocalChar(c: char) {
    IsAsciiLetter(c) || IsDigit(c) || c in "._%+-"
  }

  /** `[a-zA-Z0-9.-]`, the class of the domain. */
  predicate IsDomainChar(c: char) {
    IsAsciiLetter(c) || IsDigit(c) || c in ".-"
  }

  /** One way of reading `s` against `/^[a-zA-Z0-9._%+-]+@[a-zA-Z0-9.-]+\.[a-zA-Z]{2,}$/`:
      the at sign sits at `at`, the escaped dot at `dot`. */
  ghost predicate EmailSplit(s: string, at: int, dot: int) {
    0 < at && at + 1 < dot && dot + 3 <= |s| && s[at] == '@' && s[dot] == '.'
    && (forall k | 0 <= k < at :: IsLocalChar(s[k]))
    && (forall k | at < k < dot :: IsDomainChar(s[k]))
    && (forall k | dot < k < |s| :: IsAsciiLetter(s[k]))
  }

  /** The language of the email regular expression: some reading of `s` matches it. */
  ghost predicate EmailPattern(s: string)
    ensures EmailPattern(s) ==> |s| >= 6
  {
    exists at, dot :: EmailSplit(s, at, dot)
  }

  /** Index of the first `c` in `s`, or `|s|` when there is none. */
  function IndexOf(s: string, c: char): (i: nat)
    ensures i <= |s|
    ensures i < |s| ==> s[i] == c
    ensures forall k | 0 <= k < i :: s[k] != c
  {
    if s == [] || s[0] == c then 0 else 1 + IndexOf(s[1..], c)
  }

  /** Index of the last `c` in `s`, or -1 when there is none. */
  function LastIndexOf(s: string, c: char): (i: int)
    ensures -1 <= i < |s|
    ensures 0 <= i ==> s[i] == c
    ensures forall k | i < k < |s| :: s[k] != c
  {
    if s == [] then -1
    else if s[|s| - 1] == c then |s| - 1
    else LastIndexOf(s[..|s| - 1], c)
  }

  /** A domain of the email pattern: domain characters only, its last dot neither first nor
      followed by fewer than two letters. */
  predicate IsDomainWithTld(d: string) {
    (forall k | 0 <= k < |d| :: IsDomainChar(d[k]))
    && var dot := LastIndexOf(d, '.');
    0 < dot && |d| - dot - 1 >= 2 && forall k | dot < k < |d| :: IsAsciiLetter(d[k])
  }

  /** The email check as a direct scan: split at the first at sign and look at what follows. */
  predicate IsEmail(s: string)
    ensures IsEmail(s) ==> |s| >= 6
  {
    var at := IndexOf(s, '@');
    0 < at < |s| && (forall k | 0 <= k < at :: IsLocalChar(s[k])) && IsDomainWithTld(s[at + 1..])
  }

  /** The scan accepts exactly the strings the regular expression matches. */
  lemma EmailScanMatchesRegex(s: string)
    ensures IsEmail(s) <==> EmailPattern(s)
  {
    if IsEmail(s) {
      ScanFindsSplit(s);
    }
    if EmailPattern(s) {
      var at, dot :| EmailSplit(s, at, dot);
      SplitPassesScan(s, at, dot);
    }
  }

  lemma ScanFindsSplit(s: string)
    requires IsEmail(s)
    ensures EmailSplit(s, IndexOf(s, '@'), IndexOf(s, '@') + 1 + LastIndexOf(s[IndexOf(s, '@') + 1..], '.'))
  {
    var at := IndexOf(s, '@');
    var d := s[at + 1..];
    var j := LastIndexOf(d, '.');
    var dot := at + 1 + j;
    assert d[j] == s[dot];
    forall k | at < k < dot ensures IsDomainChar(s[k]) { assert s[k] == d[k - at - 1]; }
    forall k | dot < k < |s| ensures IsAsciiLetter(s[k]) { assert s[k] == d[k - at - 1]; }
  }

  lemma SplitPassesScan(s: string, at: int, dot: int)
    requires EmailSplit(s, at, dot)
    ensures IsEmail(s)
  {
    assert !IsLocalChar('@');
    assert IndexOf(s, '@') == at;
    var d := s[at + 1..];
    forall k | 0 <= k < |d| ensures IsDomainChar(d[k]) {
      assert d[k] == s[at + 1 + k];
    }
    assert d[dot - at - 1] == '.';
    assert LastIndexOf(d, '.') == dot - at - 1 by {
      forall k | dot - at - 1 < k < |d| ensures d[k] != '.' { assert d[k] == s[at + 1 + k]; }
    }
    forall k | dot - at - 1 < k < |d| ensures IsAsciiLetter(d[k]) { assert d[k] == s[at + 1 + k]; }
  }

  /** A matching address holds exactly one at sign, with a non-empty part before it. */
  lemma EmailHasOneAtSign(s: string, at: int, dot: int)
    requires EmailSplit(s, at, dot)
    ensures 0 < at < |s| && s[at] == '@'
    ensures forall k | 0 <= k < |s| && s[k] == '@' :: k == at
  {
    assert !IsLocalChar('@') && !IsDomainChar('@') && !IsAsciiLetter('@');
  }

  /** A doubled at sign is rejected. */
  lemma EmailRejectsDoubleAt()
    ensures !EmailPattern("john@@x")
  {
    var bad := "john@@x";
    assert IndexOf(bad, '@') == 4 by {
      assert bad[0] != '@' && bad[1] != '@' && bad[2] != '@' && bad[3] != '@' && bad[4] == '@';
    }
    assert bad[4 + 1..][0] == '@';
    EmailScanMatchesRegex(bad);
  }

  /** An ordinary address is accepted. */
  lemma EmailAcceptsAddress()
    ensures EmailPattern("john@example.com")
  {
    var good := "john@example.com";
    assert EmailSplit(good, 4, 12) by {
      forall k | 0 <= k < 4 ensures IsLocalChar(good[k]) {
        if k == 0 {} else if k == 1 {} else if k == 2 {} else {}
      }
      forall k | 4 < k < 12 ensures IsDomainChar(good[k]) {
        if k == 5 {} else if k == 6 {} else if k == 7 {} else if k == 8 {}
        else if k == 9 {} else if k == 10 {} else {}
      }
      forall k | 12 < k < 16 ensures IsAsciiLetter(good[k]) {
        if k == 13 {} else if k == 14 {} else {}
      }
    }
  }

  lemma OrganizationExamples()
    ensures !OrganizationPattern("A")
    ensures OrganizationPattern("Acme, Inc.")
  {
    var s := "Acme, Inc.";
    forall k | 0 <= k < |s| ensures IsOrganizationChar(s[k]) {
      if k == 0 {} else if k == 1 {} else if k == 2 {} else if k == 3 {} else if k == 4 {}
      else if k == 5 {} else if k == 6 {} else if k == 7 {} else if k == 8 {} else {}
    }
  }
}
