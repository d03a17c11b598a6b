/** The access decision of the API server's `authenticate` middleware and the
    configuration it reads from the environment. */
module Auth {
  import opened Options
  import opened Strings

  /** The two environment variables, as set (None when unset). */
  datatype Config = Config(authEnabledVar: Option<string>, apiKeyVar: Option<string>)

  /** `process.env.API_KEY || null`: an empty key counts as no key. */
  function ApiKey(c: Config): (k: Option<string>)
    ensures k.Some? <==> c.apiKeyVar.Some? && c.apiKeyVar.value != ""
    ensures k.Some? ==> k == c.apiKeyVar
  {
    match c.apiKeyVar
    case Some(v) => if v == "" then None else Some(v)
    case None => None
  }

  /** `AUTH_ENABLED === 'true' || API_KEY !== null`. */
  predicate AuthEnabled(c: Config) {
    c.authEnabledVar == Some("true") || ApiKey(c).Some?
  }

  /** The parts of a request the middleware looks at; a header is None when
      the request does not carry it. */
  datatype Request = Request(
    verb: string,
    path: string,
    xApiKey: Option<string>,
    authorization: Option<string>)

  datatype Decision =
    | Allow          // `next()`
    | Unauthorized   // 401: no key presented
    | Forbidden      // 403: wrong key

  /** A read of the article list or of one article, which needs no key. */
  predicate PublicRead(r: Request) {
    r.verb == "GET" && StartsWith(r.path, "/api/articles") && !Contains(r.path, "/api/articles/validate")
  }

  /** `x-api-key || authorization?.replace('Bearer ', '')`: the X-API-Key
      header when it is non-empty, otherwise the Authorization header with its
      first "Bearer " removed; None stands for `undefined`. */
  function PresentedKey(r: Request): (k: Option<string>)
    ensures r.xApiKey.Some? && r.xApiKey.value != "" ==> k == r.xApiKey
    ensures (r.xApiKey.None? || r.xApiKey.value == "") ==> (k.Some? <==> r.authorization.Some?)
  {
    if r.xApiKey.Some? && r.xApiKey.value != "" then r.xApiKey
    else
      match r.authorization
      case None => None
      case Some(a) => Some(ReplaceFirst(a, "Bearer ", ""))
  }

  /** `!apiKey`: no header, or an empty one. */
  predicate KeyPresented(r: Request) {
    PresentedKey(r).Some? && PresentedKey(r).value != ""
  }

  /** `authenticate(req, res, next)`. */
  function Authenticate(c: Config, r: Request): (d: Decision)
    ensures !AuthEnabled(c) ==> d == Allow
    ensures PublicRead(r) ==> d == Allow
    ensures d == Allow <==>
      !AuthEnabled(c) || PublicRead(r) || (KeyPresented(r) && PresentedKey(r) == ApiKey(c))
    ensures d == Unauthorized <==> AuthEnabled(c) && !PublicRead(r) && !KeyPresented(r)
    ensures d == Forbidden <==>
      AuthEnabled(c) && !PublicRead(r) && KeyPresented(r) && PresentedKey(r) != ApiKey(c)
  {
    if !AuthEnabled(c) then Allow
    else if PublicRead(r) then Allow
    else
      match PresentedKey(r)
      case None => Unauthorized
      case Some(k) =>
        if k == "" then Unauthorized
        else if ApiKey(c) != Some(k) then Forbidden
        else Allow
  }

  /** A non-empty X-API-Key decides alone: the Authorization header is then
      never consulted. */
  lemma XApiKeyTakesPrecedence(c: Config, r: Request, other: Option<string>)
    requires r.xApiKey.Some? && r.xApiKey.value != ""
    ensures Authenticate(c, r) == Authenticate(c, r.(authorization := other))
  {
  }

  /** `Authorization: Bearer <k>` presents `k`. */
  lemma BearerPresentsKey(c: Config, r: Request, k: string)
    requires r.xApiKey.None? || r.xApiKey.value == ""
    requires r.authorization == Some("Bearer " + k)
    ensures PresentedKey(r) == Some(k)
  {
    var a := "Bearer " + k;
    assert StartsWith(a, "Bearer ");
    ReplaceFirstAtStart(a, "Bearer ");
    assert a[|"Bearer "|..] == k;
  }

  /** With `AUTH_ENABLED=true` and no `API_KEY`, every key presented is
      refused with 403: nothing can write. */
  lemma EnabledWithoutKeyForbidsAll(c: Config, r: Request)
    requires c.authEnabledVar == Some("true") && ApiKey(c).None?
    requires !PublicRead(r) && KeyPresented(r)
    ensures Authenticate(c, r) == Forbidden
  {
  }

  /** Setting a non-empty `API_KEY` alone switches authentication on. */
  lemma KeyEnablesAuth(c: Config)
    requires c.apiKeyVar.Some? && c.apiKeyVar.value != ""
    ensures AuthEnabled(c)
  {
  }

  /** A path from which the `/api` mount prefix has been removed is never a
      public read, so such a GET is decided by its key like any write. */
  lemma StrippedPathNeedsKey(c: Config, r: Request)
    requires StartsWith(r.path, "/articles") && AuthEnabled(c)
    ensures Authenticate(c, r) != Allow <==> !KeyPresented(r) || PresentedKey(r) != ApiKey(c)
  {
    assert r.path[2] == 'r';
  }
  /** As mounted by `app.use('/api', authenticate)`, the middleware sees the
      path without the `/api` prefix, so a GET of the article list with no
      key is refused even though reads are meant to be public. */
  lemma MountedListReadRefused(c: Config, r: Request)
    requires AuthEnabled(c) && r.verb == "GET" && r.path == "/articles" && !KeyPresented(r)
    ensures Authenticate(c, r) == Unauthorized
  {
    StrippedPathNeedsKey(c, r);
  }

  /** The decision with the public-read test made on the full request path,
      the mount prefix put back. */
  function AuthenticateMounted(c: Config, r: Request): (d: Decision)
    ensures var full := r.(path := "/api" + r.path);
      && (d == Allow <==> !AuthEnabled(c) || PublicRead(full) || (KeyPresented(r) && PresentedKey(r) == ApiKey(c)))
      && (d == Unauthorized <==> AuthEnabled(c) && !PublicRead(full) && !KeyPresented(r))
      && (d == Forbidden <==> AuthEnabled(c) && !PublicRead(full) && KeyPresented(r) && PresentedKey(r) != ApiKey(c))
  {
    Authenticate(c, r.(path := "/api" + r.path))
  }

  /** With the prefix put back, the article list is readable by anyone. */
  lemma MountedListReadAllowed(c: Config, r: Request)
    requires r.verb == "GET" && r.path == "/articles"
    ensures AuthenticateMounted(c, r) == Allow
  {
    var full := "/api" + r.path;
    assert StartsWith(full, "/api/articles");
    // the excluded path is longer than the whole request path
    assert |full| < |"/api/articles/validate"|;
  }

  /** Only reads are affected: any other verb is decided as before. */
  lemma MountedWritesUnchanged(c: Config, r: Request)
    requires r.verb != "GET"
    ensures AuthenticateMounted(c, r) == Authenticate(c, r)
  {
  }
}
