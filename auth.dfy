/** The bearer-token guard `verifyToken` and the owner check of
    `/my-articles/:email`. */
module Auth {
  import opened Options
  import opened JsText
  import opened Records
  import opened Search

  /** The payload `jwt.verify` decodes; only its `email` claim is read. */
  datatype Claims = Claims(email: Option<string>)

  /** Signature and expiry checking, which this model takes as a parameter:
      the decoded payload, or `None` when verification fails. */
  type Verifier = string -> Option<Claims>

  /** `authorization.split(' ')[1]`, `None` when the header has no space. */
  function BearerToken(header: string): Option<string> {
    var parts := Split(header, ' ');
    if |parts| >= 2 then Some(parts[1]) else None
  }

  /** The token of a well-formed `Bearer <token>` header is `<token>`. */
  lemma BearerTokenOf(scheme: string, token: string)
    requires ' ' !in scheme && ' ' !in token
    ensures BearerToken(scheme + " " + token) == Some(token)
  {
    assert Join([scheme, token], ' ') == scheme + " " + token by {
      assert [scheme, token][1..] == [token];
    }
    SplitJoin([scheme, token], ' ');
  }

  /** A header without a space carries no token. */
  lemma NoSpaceNoToken(header: string)
    requires ' ' !in header
    ensures BearerToken(header) == None
  {
    SplitJoin([header], ' ');
  }

  datatype Guard = Denied | Granted(claims: Claims)

  /** `verifyToken`: a missing or empty header is refused before any
      verification; a token that is missing or empty after the split is refused
      by `jwt.verify` ("jwt must be provided"); otherwise the verifier decides. */
  function VerifyToken(header: Option<string>, verify: Verifier): (g: Guard)
    ensures g.Granted? ==> header.Some? && header.value != ""
    ensures g.Granted? ==> exists t :: BearerToken(header.value) == Some(t) && t != "" && verify(t) == Some(g.claims)
  {
    if header.None? || header.value == "" then Denied
    else
      match BearerToken(header.value)
      case None => Denied
      case Some(t) =>
        if t == "" then Denied
        else
          match verify(t)
          case None => Denied
          case Some(c) => Granted(c)
  }

  /** For a `Bearer <token>` header the guard grants exactly what the verifier
      decodes. */
  lemma VerifyBearer(scheme: string, token: string, verify: Verifier)
    requires ' ' !in scheme && ' ' !in token && token != ""
    ensures VerifyToken(Some(scheme + " " + token), verify)
         == if verify(token).Some? then Granted(verify(token).value) else Denied
  {
    BearerTokenOf(scheme, token);
  }

  /** A header without a space is refused whatever the verifier says. */
  lemma NoTokenDenied(header: string, verify: Verifier)
    requires ' ' !in header
    ensures VerifyToken(Some(header), verify) == Denied
  {
    NoSpaceNoToken(header);
  }

  datatype OwnResponse = Unauthorized | Articles(items: seq<Article>)

  /** `{ author: email }` over the stored documents, in storage order. */
  function AuthoredBy(stored: seq<Article>, email: string): seq<Article> {
    Where(stored, (a: Article) => a.author == Value(email))
  }

  /** `/my-articles/:email`: 401 unless the token is valid and its email claim
      equals the path email; then the articles whose author is that email. */
  function MyArticles(header: Option<string>, email: string, verify: Verifier, stored: seq<Article>): (r: OwnResponse)
    ensures r.Articles? <==> VerifyToken(header, verify) == Granted(Claims(Some(email)))
    ensures r.Articles? ==> forall a :: a in r.items <==> a in stored && a.author == Value(email)
  {
    match VerifyToken(header, verify)
    case Denied => Unauthorized
    case Granted(c) =>
      if c.email != Some(email) then Unauthorized else Articles(AuthoredBy(stored, email))
  }
}
