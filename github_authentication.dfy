/** Authentication as a GitHub App installation: the credentials check at
    construction, the JSON Web Token claim set and request headers, and
    the two-request exchange that turns them into an installation access
    token. Signing is a parameter (`sign`), and the two HTTP replies are
    inputs. */
module GithubAuth {
  import opened Errors
  import opened PyStrings

  const BaseUrl := "https://api.github.com/"
  const AcceptMediaType := "application/vnd.github.machine-man-preview+json"
  const BearerPrefix := "Bearer "
  /** Life of the app's JWT in seconds: ten minutes, GitHub's maximum. */
  const JwtLifetime := 10 * 60
  /** The only status the token exchange accepts (201 Created). */
  const TokenCreated := 201

  /** The registered claims of section 4.1 of RFC 7519 that the app's JWT
      carries: issued-at (4.1.6), expiration time (4.1.4), issuer (4.1.1). */
  datatype Claims = Claims(iat: int, exp: int, iss: string)

  /** Section 4.1.4 of RFC 7519: a JWT must not be accepted on or after its
      expiration time. */
  predicate Unexpired(c: Claims, t: int) {
    t < c.exp
  }

  /** The claim set of a JWT made at `now` (whole seconds since the epoch)
      for app `appId`. */
  function ClaimSet(now: int, appId: string): (c: Claims)
    ensures c.iss == appId && c.iat == now
    ensures forall t :: Unexpired(c, t) <==> t < now + JwtLifetime
    ensures c.exp - c.iat == JwtLifetime
  {
    Claims(now, now + JwtLifetime, appId)
  }

  type Headers = map<string, string>

  /** The credential of an `Authorization: Bearer <credential>` value. */
  function BearerCredential(authorization: string): Option<string> {
    if StartsWith(authorization, BearerPrefix) then Some(authorization[|BearerPrefix|..]) else None
  }

  /** An HTTP request made to GitHub's REST API. */
  datatype AppRequest = AppRequest(verb: Verb, url: string, headers: Headers)

  /** The decoded reply to the installation lookup: its `"id"` field, `None`
      when absent or null; `UndecodableInstallation` when the body is not a
      JSON object. */
  datatype InstallationReply = UndecodableInstallation | Installation(id: Option<int>)

  /** The decoded body of the token reply: its `"token"` field. */
  datatype TokenBody = UndecodableToken | TokenFields(token: Option<string>)

  datatype TokenReply = TokenReply(status: int, body: TokenBody)

  /** What GitHub answers to the two requests of one token exchange. */
  datatype AppReplies = AppReplies(installation: InstallationReply, accessToken: TokenReply)

  /** The requests one token exchange sent, and what it returned or raised. */
  datatype Exchange = Exchange(sent: seq<AppRequest>, result: Result<Option<string>>)

  /** "Get a repository installation for the authenticated app". */
  function InstallationUrl(slug: string): (url: string)
    ensures StartsWith(url, BaseUrl + "repos/") && |url| == |BaseUrl + "repos/"| + |slug| + |"/installation"|
    // the slug reads back from a fixed position of the URL
    ensures url[|BaseUrl + "repos/"|..|BaseUrl + "repos/"| + |slug|] == slug
  {
    BaseUrl + "repos/" + slug + "/installation"
  }

  /** "Create an installation access token for an app". */
  function AccessTokensUrl(installationId: string): (url: string)
    ensures StartsWith(url, BaseUrl + "app/installations/")
            && |url| == |BaseUrl + "app/installations/"| + |installationId| + |"/access_tokens"|
    // the installation id reads back from a fixed position of the URL
    ensures url[|BaseUrl + "app/installations/"|..|BaseUrl + "app/installations/"| + |installationId|] == installationId
  {
    BaseUrl + "app/installations/" + installationId + "/access_tokens"
  }

  /** `"{}".format(id)` of the looked-up id: `None` prints as "None". */
  function FormatId(id: Option<int>): (s: string)
    ensures |s| >= 1
    // the printed text starts with `N` exactly when the id is missing
    ensures id.None? <==> s[0] == 'N'
  {
    match id
    case None => "None"
    case Some(n) => IntStr(n)
  }

  /** The lookup URL names exactly one repository. */
  lemma InstallationUrlInjective(a: string, b: string)
    requires InstallationUrl(a) == InstallationUrl(b)
    ensures a == b
  {
    var n := |BaseUrl + "repos/"|;
    assert |a| == |b|;
    assert a == InstallationUrl(a)[n..n + |a|];
    assert b == InstallationUrl(b)[n..n + |b|];
  }

  /** The token request goes to the installation the lookup returned, and
      to no other. */
  lemma AccessTokensUrlInjective(a: Option<int>, b: Option<int>)
    requires AccessTokensUrl(FormatId(a)) == AccessTokensUrl(FormatId(b))
    ensures a == b
  {
    var x, y := FormatId(a), FormatId(b);
    var n := |BaseUrl + "app/installations/"|;
    assert |x| == |y|;
    assert x == AccessTokensUrl(x)[n..n + |x|];
    assert y == AccessTokensUrl(y)[n..n + |y|];
    assert x == y;
    if a.Some? && b.Some? {
      IntStrInjective(a.value, b.value);
    }
  }

  /** The headers `_get_header` builds at time `now` for app `appId`: the
      bearer credential is the JWT signed over the claim set, and the media
      type is the fixed preview type. */
  function AppHeader(appId: string, now: int, sign: Claims -> string): (h: Headers)
    ensures h.Keys == {"Authorization", "Accept"}
    ensures h["Accept"] == AcceptMediaType
    ensures BearerCredential(h["Authorization"]) == Some(sign(ClaimSet(now, appId)))
  {
    var jwt := sign(ClaimSet(now, appId));
    assert (BearerPrefix + jwt)[..|BearerPrefix|] == BearerPrefix;
    assert (BearerPrefix + jwt)[|BearerPrefix|..] == jwt;
    map["Authorization" := BearerPrefix + jwt, "Accept" := AcceptMediaType]
  }

  /** `get_access_token` at time `now` for repository `slug` and app
      `appId`: look the installation up, then ask for its token. Any
      status but 201 raises ValueError; otherwise the result is the
      reply's `"token"` field. */
  function ExchangeToken(slug: string, appId: string, now: int, sign: Claims -> string, replies: AppReplies): (x: Exchange)
    ensures |x.sent| >= 1 && x.sent[0] == AppRequest(Get, InstallationUrl(slug), AppHeader(appId, now, sign))
    ensures replies.installation.UndecodableInstallation? ==>
              x == Exchange([x.sent[0]], Err(MalformedResponse))
    ensures replies.installation.Installation? ==>
              |x.sent| == 2 &&
              x.sent[1] == AppRequest(Post, AccessTokensUrl(FormatId(replies.installation.id)), AppHeader(appId, now, sign))
    ensures x.result.Ok? <==>
              replies.installation.Installation? && replies.accessToken.status == TokenCreated
              && replies.accessToken.body.TokenFields?
    ensures x.result.Ok? ==> x.result.value == replies.accessToken.body.token
    ensures replies.installation.Installation? && replies.accessToken.status != TokenCreated ==>
              x.result == Err(ValueError(AccessTokenNotFetched(replies.accessToken.status)))
  {
    var lookup := AppRequest(Get, InstallationUrl(slug), AppHeader(appId, now, sign));
    match replies.installation
    case UndecodableInstallation => Exchange([lookup], Err(MalformedResponse))
    case Installation(id) =>
      var exchange := AppRequest(Post, AccessTokensUrl(FormatId(id)), AppHeader(appId, now, sign));
      var reply := replies.accessToken;
      if reply.status != TokenCreated then
        Exchange([lookup, exchange], Err(ValueError(AccessTokenNotFetched(reply.status))))
      else match reply.body
        case UndecodableToken => Exchange([lookup, exchange], Err(MalformedResponse))
        case TokenFields(token) => Exchange([lookup, exchange], Ok(token))
  }

  /** A GitHub App's credentials for one repository. The fields never
      change after construction. */
  class GithubAuthentication {
    const slug: string
    const githubPrivateKey: string
    const githubAppId: string

    /** Both credentials are present. */
    ghost predicate Valid() {
      githubAppId != "" && githubPrivateKey != ""
    }

    constructor (slug: string, privateKey: string, appId: string)
      ensures this.slug == slug && githubPrivateKey == privateKey && githubAppId == appId
    {
      this.slug := slug;
      githubPrivateKey := privateKey;
      githubAppId := appId;
    }

    /** `GithubAuthentication(slug)`, given the text of the key file and the
        `GITHUB_APP_ID` setting: ValueError when either is missing or empty. */
    static method Create(slug: string, privateKey: string, appId: Option<string>)
      returns (r: Result<GithubAuthentication>)
      ensures r.Err? <==> !Truthy(appId) || privateKey == ""
      ensures r.Err? ==> r.error == ValueError(MissingCredentials)
      ensures r.Ok? ==> fresh(r.value) && r.value.Valid()
      ensures r.Ok? ==> r.value.slug == slug && r.value.githubPrivateKey == privateKey
                        && Some(r.value.githubAppId) == appId
    {
      if !Truthy(appId) || privateKey == "" {
        return Err(ValueError(MissingCredentials));
      }
      var auth := new GithubAuthentication(slug, privateKey, appId.value);
      return Ok(auth);
    }

    /** `get_access_token` at time `now`. */
    function GetAccessToken(now: int, sign: Claims -> string, replies: AppReplies): Exchange {
      ExchangeToken(slug, githubAppId, now, sign, replies)
    }
  }
}
