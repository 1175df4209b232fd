/** The two ways the HTTP controllers read a bearer token from an `Authorization` header. */
module AuthHeader {
  import opened Wrappers
  import opened Text

  const Space: char := ' '
  const Scheme: string := "bearer"
  const Prefix: string := "Bearer "

  /** The header cut at its single space: the scheme must read "bearer" in any letter case, and the
      token is the second word, possibly empty. Any other number of spaces is rejected. */
  function SplitBearer(header: string): (token: Option<string>)
    ensures token.Some? ==>
      && |header| == |Scheme| + 1 + |token.value|
      && ToLower(header[..|Scheme|]) == Scheme
      && header[|Scheme|] == Space
      && header[|Scheme| + 1..] == token.value
      && Space !in token.value
  {
    var parts := Split(header, Space);
    if |parts| != 2 || ToLower(parts[0]) != Scheme then None
    else
      assert parts[1..] == [parts[1]];
      assert Join(parts[1..], Space) == parts[1];
      assert header == parts[0] + [Space] + parts[1];
      assert header[..|Scheme|] == parts[0];
      Some(parts[1])
  }

  /** The converse: a one-word scheme reading "bearer" in any case, a space and a token without
      spaces is accepted, and the token is returned. */
  lemma SplitBearerAccepts(scheme: string, token: string)
    requires Space !in scheme && Space !in token
    requires ToLower(scheme) == Scheme
    ensures SplitBearer(scheme + [Space] + token) == Some(token)
  {
    SplitAtOnlySeparator(scheme, token, Space);
  }

  /** The header with one leading "Bearer " removed; the prefix is matched case-sensitively and
      the token may contain spaces or be empty. */
  function PrefixBearer(header: string): (token: Option<string>)
    ensures token.Some? <==> HasPrefix(header, Prefix)
    ensures token.Some? ==> Prefix + token.value == header
  {
    if header == "" || !HasPrefix(header, Prefix) then None
    else Some(TrimPrefix(header, Prefix))
  }

  /** Every token comes back from the header built around it. */
  lemma PrefixBearerRoundTrip(token: string)
    ensures PrefixBearer(Prefix + token) == Some(token)
  {
    assert (Prefix + token)[..|Prefix|] == Prefix;
  }

  /** On "Bearer <token>" with a token without spaces, the two readings agree. */
  lemma BearerReadingsAgree(token: string)
    requires Space !in token
    ensures SplitBearer(Prefix + token) == PrefixBearer(Prefix + token) == Some(token)
  {
    assert Prefix == "Bearer" + [Space];
    assert Prefix + token == "Bearer" + [Space] + token;
    SplitBearerAccepts("Bearer", token);
    PrefixBearerRoundTrip(token);
  }

  /** A header with no space or with more than one is rejected by the split reading. */
  lemma SplitBearerNeedsOneSpace(header: string)
    requires Count(header, Space) != 1
    ensures SplitBearer(header) == None
  {
  }

  /** Where the readings disagree: a lower-case scheme passes only the split reading. */
  lemma LowerCaseSchemeDisagrees()
    ensures SplitBearer("bearer x") == Some("x") && PrefixBearer("bearer x") == None
  {
    SplitBearerAccepts("bearer", "x");
    assert "bearer" + [Space] + "x" == "bearer x";
  }

  /** Where the readings disagree: two spaces pass only the prefix reading, which keeps one. */
  lemma DoubleSpaceDisagrees()
    ensures SplitBearer("Bearer  x") == None && PrefixBearer("Bearer  x") == Some(" x")
  {
    PrefixBearerRoundTrip(" x");
    assert Prefix + " x" == "Bearer  x";
    CountConcat("Bearer", "  x", Space);
    CountZeroIffAbsent("Bearer", Space);
    assert "Bearer" + "  x" == "Bearer  x";
    SplitBearerNeedsOneSpace("Bearer  x");
  }

  /** Where the readings disagree: a token with a space passes only the prefix reading. */
  lemma SpacedTokenDisagrees()
    ensures SplitBearer("Bearer a b") == None && PrefixBearer("Bearer a b") == Some("a b")
  {
    PrefixBearerRoundTrip("a b");
    assert Prefix + "a b" == "Bearer a b";
    CountConcat("Bearer", " a b", Space);
    CountZeroIffAbsent("Bearer", Space);
    assert "Bearer" + " a b" == "Bearer a b";
    SplitBearerNeedsOneSpace("Bearer a b");
  }

  /** Both accept an empty token, and both reject a bare scheme. */
  lemma EmptyTokenAccepted()
    ensures SplitBearer("Bearer ") == Some("") && PrefixBearer("Bearer ") == Some("")
    ensures SplitBearer("Bearer") == None && PrefixBearer("Bearer") == None
  {
    BearerReadingsAgree("");
    assert Prefix + "" == "Bearer ";
  }
}
