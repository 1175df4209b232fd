/** The e-mail value object. Its pattern is the Go raw string
      ^[\w._%+-]+@[\w.-]+\\.[a-zA-Z]{2,}$
    In a raw string `\\` reaches the regexp engine unchanged, where it means one literal
    backslash; the `.` after it then matches any rune except a newline. So the accepted language is
      local "@" domain "\" c letters
    with local one or more of [A-Za-z0-9_.%+-], domain one or more of [A-Za-z0-9_.-], c any rune
    but '\n', and letters two or more ASCII letters, with nothing after. */
module Emails {
  import opened Wrappers

  predicate IsAsciiLetter(c: char) { 'a' <= c <= 'z' || 'A' <= c <= 'Z' }

  /** `\w` of Go's regexp: [0-9A-Za-z_]. */
  predicate IsWordChar(c: char) { IsAsciiLetter(c) || '0' <= c <= '9' || c == '_' }

  /** [\w._%+-] */
  predicate IsLocalChar(c: char) { IsWordChar(c) || c == '.' || c == '%' || c == '+' || c == '-' }

  /** [\w.-] */
  predicate IsDomainChar(c: char) { IsWordChar(c) || c == '.' || c == '-' }

  predicate AllLocal(s: string, lo: int, hi: int)
    requires 0 <= lo <= hi <= |s|
  {
    forall m :: lo <= m < hi ==> IsLocalChar(s[m])
  }

  predicate AllDomain(s: string, lo: int, hi: int)
    requires 0 <= lo <= hi <= |s|
  {
    forall m :: lo <= m < hi ==> IsDomainChar(s[m])
  }

  predicate AllLetters(s: string, lo: int, hi: int)
    requires 0 <= lo <= hi <= |s|
  {
    forall m :: lo <= m < hi ==> IsAsciiLetter(s[m])
  }

  // ----- the recognizer: one predicate per state of the pattern, reading s from index k -----

  predicate MatchesEmail(s: string)
  {
    |s| > 0 && IsLocalChar(s[0]) && LocalRun(s, 1)
  }

  /** Inside `[\w._%+-]+`, at least one character read. */
  predicate LocalRun(s: string, k: nat)
    requires k <= |s|
    decreases |s| - k
  {
    k < |s| && if s[k] == '@' then DomainStart(s, k + 1) else IsLocalChar(s[k]) && LocalRun(s, k + 1)
  }

  /** Just after '@': the domain needs one character. */
  predicate DomainStart(s: string, k: nat)
    requires k <= |s|
  {
    k < |s| && IsDomainChar(s[k]) && DomainRun(s, k + 1)
  }

  /** Inside `[\w.-]+`, at least one character read. */
  predicate DomainRun(s: string, k: nat)
    requires k <= |s|
    decreases |s| - k
  {
    k < |s| && if s[k] == '\\' then AfterBackslash(s, k + 1) else IsDomainChar(s[k]) && DomainRun(s, k + 1)
  }

  /** Just after the backslash: `.` then `[a-zA-Z]{2,}$`. */
  predicate AfterBackslash(s: string, k: nat)
    requires k <= |s|
  {
    k + 3 <= |s| && s[k] != '\n' && AllLetters(s, k + 1, |s|)
  }

  // ----- the language, stated by positions -----

  /** `s` is local + "@" + domain + "\" + c + letters with '@' at `at` and the backslash at `bs`. */
  ghost predicate EmailShape(s: string, at: int, bs: int)
  {
    && 0 < at && at + 1 < bs && bs + 4 <= |s|
    && s[at] == '@' && s[bs] == '\\' && s[bs + 1] != '\n'
    && AllLocal(s, 0, at) && AllDomain(s, at + 1, bs) && AllLetters(s, bs + 2, |s|)
  }

  ghost predicate InEmailLanguage(s: string)
  {
    exists at, bs :: EmailShape(s, at, bs)
  }

  lemma {:induction false} DomainRunIff(s: string, k: nat)
    requires k <= |s|
    ensures DomainRun(s, k) <==>
      exists bs :: k <= bs < |s| && s[bs] == '\\' && AllDomain(s, k, bs) && AfterBackslash(s, bs + 1)
    decreases |s| - k
  {
    if k < |s| {
      DomainRunIff(s, k + 1);
      if DomainRun(s, k) && s[k] != '\\' {
        var bs :| k + 1 <= bs < |s| && s[bs] == '\\' && AllDomain(s, k + 1, bs) && AfterBackslash(s, bs + 1);
        assert AllDomain(s, k, bs);
      }
      if exists bs :: k <= bs < |s| && s[bs] == '\\' && AllDomain(s, k, bs) && AfterBackslash(s, bs + 1) {
        var bs :| k <= bs < |s| && s[bs] == '\\' && AllDomain(s, k, bs) && AfterBackslash(s, bs + 1);
        if bs > k {
          assert IsDomainChar(s[k]);
          assert AllDomain(s, k + 1, bs);
        }
      }
    }
  }

  lemma {:induction false} LocalRunIff(s: string, k: nat)
    requires k <= |s|
    ensures LocalRun(s, k) <==>
      exists at :: k <= at < |s| && s[at] == '@' && AllLocal(s, k, at) && DomainStart(s, at + 1)
    decreases |s| - k
  {
    if k < |s| {
      LocalRunIff(s, k + 1);
      if LocalRun(s, k) && s[k] != '@' {
        var at :| k + 1 <= at < |s| && s[at] == '@' && AllLocal(s, k + 1, at) && DomainStart(s, at + 1);
        assert AllLocal(s, k, at);
      }
      if exists at :: k <= at < |s| && s[at] == '@' && AllLocal(s, k, at) && DomainStart(s, at + 1) {
        var at :| k <= at < |s| && s[at] == '@' && AllLocal(s, k, at) && DomainStart(s, at + 1);
        if at > k {
          assert IsLocalChar(s[k]);
          assert AllLocal(s, k + 1, at);
        }
      }
    }
  }

  /** The recognizer accepts exactly the language of the pattern. */
  lemma MatchesEmailIff(s: string)
    ensures MatchesEmail(s) <==> InEmailLanguage(s)
  {
    if MatchesEmail(s) {
      LocalRunIff(s, 1);
      var at :| 1 <= at < |s| && s[at] == '@' && AllLocal(s, 1, at) && DomainStart(s, at + 1);
      DomainRunIff(s, at + 2);
      var bs :| at + 2 <= bs < |s| && s[bs] == '\\' && AllDomain(s, at + 2, bs) && AfterBackslash(s, bs + 1);
      assert AllLocal(s, 0, at);
      assert AllDomain(s, at + 1, bs);
      assert EmailShape(s, at, bs);
    }
    if InEmailLanguage(s) {
      var at, bs :| EmailShape(s, at, bs);
      assert IsLocalChar(s[0]);
      assert AllLocal(s, 1, at);
      assert AllDomain(s, at + 2, bs);
      assert AfterBackslash(s, bs + 1);
      DomainRunIff(s, at + 2);
      assert IsDomainChar(s[at + 1]);
      assert DomainStart(s, at + 1);
      LocalRunIff(s, 1);
    }
  }

  // ----- the value object -----

  datatype Email = Email(raw: string) {
    function String(): string { raw }
  }

  /** `NewEmail`: accepts exactly the strings of the pattern's language, unchanged. */
  function NewEmail(value: string): (r: Checked<Email>)
    ensures r.Accepted() <==> InEmailLanguage(value)
    ensures r.Accepted() ==> r.value.String() == value
    ensures !r.Accepted() ==> r.value.String() == "" && r.err == Some(Error("invalid email format"))
  {
    MatchesEmailIff(value);
    if !MatchesEmail(value) then Checked(Email(""), Some(Error("invalid email format")))
    else Checked(Email(value), None)
  }

  /** Every accepted address contains a backslash, so no conventional address is accepted. */
  lemma AcceptedHasBackslash(s: string)
    ensures NewEmail(s).Accepted() ==> '\\' in s
  {
    if NewEmail(s).Accepted() {
      var at, bs :| EmailShape(s, at, bs);
    }
  }

  /** A string without '@', or with nothing before its first '@', is rejected. */
  lemma RejectsMissingLocalPart(s: string)
    ensures '@' !in s ==> !NewEmail(s).Accepted()
    ensures |s| > 0 && s[0] == '@' ==> !NewEmail(s).Accepted()
  {
    if NewEmail(s).Accepted() {
      var at, bs :| EmailShape(s, at, bs);
      assert s[at] == '@';
    }
  }

  /** As written: the address the sign-up tests expect to succeed is rejected, while the same
      address with a backslash before the dot is accepted. */
  lemma ConventionalAddressRejected()
    ensures !NewEmail("malloy@example.com").Accepted()
    ensures NewEmail("malloy@example\\.com").Accepted()
  {
    var bad := "malloy@example.com";
    assert '\\' !in bad;
    AcceptedHasBackslash(bad);
    var good := "malloy@example\\.com";
    assert EmailShape(good, 6, 14);
  }

  // ----- the evidently intended pattern ^[\w._%+-]+@[\w.-]+\.[a-zA-Z]{2,}$ -----

  /** `s` is local + "@" + domain + "." + letters with '@' at `at` and the dot at `dot`. */
  predicate IntendedShape(s: string, at: int, dot: int)
  {
    && 0 < at && at + 1 < dot && dot + 3 <= |s|
    && s[at] == '@' && s[dot] == '.'
    && AllLocal(s, 0, at) && AllDomain(s, at + 1, dot) && AllLetters(s, dot + 1, |s|)
  }

  predicate MatchesIntendedEmail(s: string)
  {
    exists at, dot | 0 <= at < |s| && 0 <= dot < |s| :: IntendedShape(s, at, dot)
  }

  /** The corrected `NewEmail`, with a literal dot before the top-level domain. */
  function NewEmailIntended(value: string): (r: Checked<Email>)
    ensures r.Accepted() <==> MatchesIntendedEmail(value)
    ensures r.Accepted() ==> r.value.String() == value
    ensures !r.Accepted() ==> r.value.String() == "" && r.err == Some(Error("invalid email format"))
  {
    if !MatchesIntendedEmail(value) then Checked(Email(""), Some(Error("invalid email format")))
    else Checked(Email(value), None)
  }

  /** The corrected pattern accepts every conventional address local@domain.tld, in particular the
      one the sign-up tests use, and no string accepted by the pattern as written. */
  lemma IntendedAcceptsConventional(local: string, domain: string, tld: string)
    requires |local| >= 1 && forall i :: 0 <= i < |local| ==> IsLocalChar(local[i])
    requires |domain| >= 1 && forall i :: 0 <= i < |domain| ==> IsDomainChar(domain[i])
    requires |tld| >= 2 && forall i :: 0 <= i < |tld| ==> IsAsciiLetter(tld[i])
    ensures NewEmailIntended(local + "@" + domain + "." + tld).Accepted()
    ensures !NewEmail(local + "@" + domain + "." + tld).Accepted()
  {
    var s := local + "@" + domain + "." + tld;
    var at, dot := |local|, |local| + 1 + |domain|;
    assert forall i :: 0 <= i < at ==> s[i] == local[i];
    assert forall i :: at < i < dot ==> s[i] == domain[i - at - 1];
    assert forall i :: dot < i < |s| ==> s[i] == tld[i - dot - 1];
    assert IntendedShape(s, at, dot);
    IntendedHasNoBackslash(s);
    AcceptedHasBackslash(s);
  }

  /** Every rune of an address of the intended shape is a local, domain or letter rune, '@' or
      '.', so none is a backslash. */
  lemma IntendedHasNoBackslash(s: string)
    ensures MatchesIntendedEmail(s) ==> '\\' !in s
  {
    if MatchesIntendedEmail(s) {
      var at, dot :| 0 <= at < |s| && 0 <= dot < |s| && IntendedShape(s, at, dot);
      forall i | 0 <= i < |s| ensures s[i] != '\\' {
        if i < at { assert IsLocalChar(s[i]); }
        else if at < i < dot { assert IsDomainChar(s[i]); }
        else if dot < i { assert IsAsciiLetter(s[i]); }
      }
    }
  }

  /** The two languages are disjoint: the code as written rejects every address the intended
      pattern accepts. */
  lemma WrittenAndIntendedDisjoint(s: string)
    ensures !(NewEmail(s).Accepted() && NewEmailIntended(s).Accepted())
  {
    AcceptedHasBackslash(s);
    IntendedHasNoBackslash(s);
  }

  lemma IntendedAcceptsSignupAddress()
    ensures NewEmailIntended("malloy@example.com").Accepted()
  {
    IntendedAcceptsConventional("malloy", "example", "com");
    assert "malloy" + "@" + "example" + "." + "com" == "malloy@example.com";
  }
}
