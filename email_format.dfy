/** The email shape rule of the user record: the anchored, case-insensitive
    pattern `\A[\w+\-.]+@[a-z\d\-.]+\.[a-z]+\z`.

    `MatchesPattern` is the pattern's own meaning (some way of cutting the
    string into local part, `@`, domain, final `.` and top-level letters
    exists); `IsEmail` is the recogniser the rest of the model uses, which
    makes the one cut that can work: at the first `@` and the last `.`. */
module EmailFormat {
  import opened Ascii

  /** `[\w+\-.]` */
  predicate IsLocalChar(c: char) { IsWordChar(c) || c == '+' || c == '-' || c == '.' }

  /** `[a-z\d\-.]` under `/i` */
  predicate IsDomainChar(c: char) { IsLetter(c) || IsDigit(c) || c == '-' || c == '.' }

  /** `[\w+\-.]+` */
  predicate LocalPart(s: string) { |s| > 0 && forall k | 0 <= k < |s| :: IsLocalChar(s[k]) }

  /** `[a-z\d\-.]+` */
  predicate DomainPart(s: string) { |s| > 0 && forall k | 0 <= k < |s| :: IsDomainChar(s[k]) }

  /** `[a-z]+` */
  predicate TopLevelPart(s: string) { |s| > 0 && forall k | 0 <= k < |s| :: IsLetter(s[k]) }

  /** The whole of `s` matches the pattern with its `@` at index `at` and its
      final `\.` at index `dot`. */
  predicate SplitsAt(s: string, at: int, dot: int) {
    0 <= at < dot < |s| && s[at] == '@' && s[dot] == '.' &&
    LocalPart(s[..at]) && DomainPart(s[at + 1..dot]) && TopLevelPart(s[dot + 1..])
  }

  /** The anchored pattern accepts `s`. */
  ghost predicate MatchesPattern(s: string) {
    exists at, dot :: SplitsAt(s, at, dot)
  }

  /** Index of the first `c` in `s`, or -1 when there is none. */
  function IndexOf(s: string, c: char): (r: int)
    ensures -1 <= r < |s|
    ensures 0 <= r ==> s[r] == c && forall k | 0 <= k < r :: s[k] != c
    ensures r < 0 <==> c !in s
  {
    if s == [] then -1
    else if s[0] == c then 0
    else
      var r := IndexOf(s[1..], c);
      if r < 0 then -1 else r + 1
  }

  /** Index of the last `c` in `s`, or -1 when there is none. */
  function LastIndexOf(s: string, c: char): (r: int)
    ensures -1 <= r < |s|
    ensures 0 <= r ==> s[r] == c && forall k | r < k < |s| :: s[k] != c
    ensures r < 0 <==> c !in s
  {
    if s == [] then -1
    else if s[|s| - 1] == c then |s| - 1
    else LastIndexOf(s[..|s| - 1], c)
  }

  /** The format validation: cut at the first `@` and the last `.`. */
  predicate IsEmail(s: string) {
    SplitsAt(s, IndexOf(s, '@'), LastIndexOf(s, '.'))
  }

  /** The pattern can match in one way only: its `@` is the first `@` of the
      string and its final `.` is the last `.` of the string. */
  lemma SplitIsUnique(s: string, at: int, dot: int)
    requires SplitsAt(s, at, dot)
    ensures at == IndexOf(s, '@') && dot == LastIndexOf(s, '.')
  {
  }

  /** The recogniser accepts exactly the strings the pattern accepts. */
  lemma IsEmailIffPattern(s: string)
    ensures IsEmail(s) <==> MatchesPattern(s)
  {
    if MatchesPattern(s) {
      var at, dot :| SplitsAt(s, at, dot);
      SplitIsUnique(s, at, dot);
    }
  }

  /** Every accepted string holds exactly one `@`, after a non-empty local
      part drawn from letters, digits, `_`, `+`, `-` and `.`. */
  lemma AcceptedHasOneAt(s: string)
    requires MatchesPattern(s)
    ensures multiset(s)['@'] == 1
    ensures 0 < IndexOf(s, '@') && forall k | 0 <= k < IndexOf(s, '@') :: IsLocalChar(s[k])
  {
    var at, dot :| SplitsAt(s, at, dot);
    SplitIsUnique(s, at, dot);
    NoAtAfter(s, at, dot);
    OccursOnce(s, at);
  }

  /** No `@` follows the `@` of a cut: the domain and the top level hold none. */
  lemma NoAtAfter(s: string, at: int, dot: int)
    requires SplitsAt(s, at, dot)
    ensures '@' !in s[at + 1..]
  {
    forall k | at < k < |s| ensures s[k] != '@' {
      if k < dot {
        assert s[at + 1..dot][k - at - 1] == s[k];
      } else if dot < k {
        assert s[dot + 1..][k - dot - 1] == s[k];
      }
    }
  }

  /** `s[i]` is the only occurrence of its character in `s`. */
  lemma OccursOnce(s: string, i: int)
    requires 0 <= i < |s| && s[i] !in s[..i] && s[i] !in s[i + 1..]
    ensures multiset(s)[s[i]] == 1
  {
    assert s[..i + 1] == s[..i] + [s[i]];
    assert s == s[..i + 1] + s[i + 1..];
  }

  /** In every accepted string the text after the last `.` is a non-empty run
      of letters, and at least one domain character stands between the `@`
      and that `.`. */
  lemma AcceptedEndsInLetters(s: string)
    requires MatchesPattern(s)
    ensures IndexOf(s, '@') + 1 < LastIndexOf(s, '.')
    ensures TopLevelPart(s[LastIndexOf(s, '.') + 1..])
    ensures forall k | IndexOf(s, '@') < k < LastIndexOf(s, '.') :: IsDomainChar(s[k])
  {
    var at, dot :| SplitsAt(s, at, dot);
    SplitIsUnique(s, at, dot);
    forall k | at < k < dot ensures IsDomainChar(s[k]) {
      assert s[at + 1..dot][k - at - 1] == s[k];
    }
  }

  /** Any local part, `@`, domain, `.` and letters make an accepted string,
      whatever dots the domain holds, repeated or trailing ones included. */
  lemma AcceptsParts(local: string, domain: string, tld: string)
    requires LocalPart(local) && DomainPart(domain) && TopLevelPart(tld)
    ensures IsEmail(local + "@" + domain + "." + tld)
  {
    var s := local + "@" + domain + "." + tld;
    var at, dot := |local|, |local| + 1 + |domain|;
    assert s[..at] == local;
    assert s[at + 1..dot] == domain;
    assert s[dot + 1..] == tld;
    assert SplitsAt(s, at, dot);
    IsEmailIffPattern(s);
  }

  /** Consecutive dots in the domain are not rejected. */
  lemma RepeatedDotsAccepted()
    ensures IsEmail("a@b..com")
  {
    assert "a@b..com" == "a" + "@" + "b." + "." + "com";
    AcceptsParts("a", "b.", "com");
  }

  /** The address the profile-edit scenario saves is accepted. */
  lemma SampleAddressAccepted()
    ensures IsEmail("new@email.com")
  {
    assert "new@email.com" == "new" + "@" + "email" + "." + "com";
    AcceptsParts("new", "email", "com");
  }

  /** Lower-casing commutes with taking a slice. */
  lemma LowerSlice(s: string, lo: int, hi: int)
    requires 0 <= lo <= hi <= |s|
    ensures Lower(s)[lo..hi] == Lower(s[lo..hi])
  {
  }

  /** Lower-casing maps each pattern cut onto the same cut. */
  lemma SplitsAtLower(s: string, at: int, dot: int)
    ensures SplitsAt(s, at, dot) <==> SplitsAt(Lower(s), at, dot)
  {
    if 0 <= at < dot < |s| {
      LowerSlice(s, 0, at);
      LowerSlice(s, at + 1, dot);
      LowerSlice(s, dot + 1, |s|);
      assert s[dot + 1..] == s[dot + 1..|s|];
      assert Lower(s)[dot + 1..] == Lower(s)[dot + 1..|s|];
      PartsIgnoreCase(s[..at]);
      PartsIgnoreCase(s[at + 1..dot]);
      PartsIgnoreCase(s[dot + 1..]);
    }
  }

  /** Each part of the pattern accepts a string exactly when it accepts its
      lower-cased form. */
  lemma PartsIgnoreCase(s: string)
    ensures LocalPart(s) <==> LocalPart(Lower(s))
    ensures DomainPart(s) <==> DomainPart(Lower(s))
    ensures TopLevelPart(s) <==> TopLevelPart(Lower(s))
  {
    assert forall k | 0 <= k < |s| :: Lower(s)[k] == LowerChar(s[k]);
  }

  /** The `/i` flag: a string is accepted exactly when its lower-cased form is. */
  lemma IsEmailIgnoresCase(s: string)
    ensures IsEmail(s) <==> IsEmail(Lower(s))
  {
    IsEmailIffPattern(s);
    IsEmailIffPattern(Lower(s));
    if MatchesPattern(s) {
      var at, dot :| SplitsAt(s, at, dot);
      SplitsAtLower(s, at, dot);
    }
    if MatchesPattern(Lower(s)) {
      var at, dot :| SplitsAt(Lower(s), at, dot);
      SplitsAtLower(s, at, dot);
    }
  }
}
