/** The `Authorization` header check every protected route starts with. */
module Auth {
  import opened Wrappers

  const BearerPrefix := "Bearer "

  /** `std::string::substr(pos, count)`: at most `count` characters from `pos`. */
  function Substr(s: string, pos: nat, count: nat): (r: string)
    requires pos <= |s|
    ensures |r| == if pos + count <= |s| then count else |s| - pos
    ensures r == s[pos..pos + |r|]
  {
    s[pos..if pos + count <= |s| then pos + count else |s|]
  }

  /** The token of a header that is non-empty and whose first seven
      characters are `Bearer `; `None` for any other header, a missing header
      reading as the empty one. */
  function ParseBearer(auth: string): (token: Option<string>)
    ensures token.Some? <==> |auth| >= |BearerPrefix| && auth[..|BearerPrefix|] == BearerPrefix
    ensures token.Some? ==> auth == BearerPrefix + token.value
  {
    if |auth| == 0 || Substr(auth, 0, 7) != BearerPrefix then None
    else Some(auth[7..])
  }

  /** The header a client builds from a token gives that token back. */
  lemma BearerRoundTrip(token: string)
    ensures ParseBearer(BearerPrefix + token) == Some(token)
  {
    assert (BearerPrefix + token)[..|BearerPrefix|] == BearerPrefix;
  }
}
