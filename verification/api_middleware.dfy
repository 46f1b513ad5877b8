/** The gin middleware of internal/web/v1/middleware.go: the single-page
    application path rewrite and the bearer-token check. Token parsing
    (ParseAuthToken) is a parameter answering the user name or None. */
module ApiMiddleware {
  import opened Wrappers
  import opened Text

  /** SpaMiddleware: the path the rest of the chain sees. */
  function SpaPath(path: string): (r: string)
    ensures HasPrefix(path, "/api/") || HasPrefix(path, "/metrics") ==> r == path
    ensures '.' in path ==> r == path
  {
    if HasPrefix(path, "/api/") || HasPrefix(path, "/metrics") then path
    else if '.' in path then path
    else "/"
  }

  /** API, metrics and file paths are served as asked; every other path
      is the application's root. */
  lemma SpaPathIff(path: string)
    ensures SpaPath(path) == path
            <==> HasPrefix(path, "/api/") || HasPrefix(path, "/metrics") || '.' in path || path == "/"
    ensures SpaPath(path) != path ==> SpaPath(path) == "/"
  {
  }

  /** Rewriting twice is rewriting once. */
  lemma SpaPathIdempotent(path: string)
    ensures SpaPath(SpaPath(path)) == SpaPath(path)
  {
    if SpaPath(path) == "/" {
      assert !HasPrefix("/", "/api/") && !HasPrefix("/", "/metrics") && '.' !in "/";
    }
  }

  const Bearer := "Bearer "

  /** What AuthMiddleware does: abort with a status and an error text, or
      store the user name and go on. */
  datatype AuthOutcome = Reject(status: int, error: string) | Proceed(username: string)

  const Unauthorized := 401

  /** AuthMiddleware; an absent header reads as "". */
  function Authorize(header: string, parseToken: string -> Option<string>): (r: AuthOutcome)
    ensures header == "" ==> r == Reject(Unauthorized, "Authorization header required")
    ensures header != "" && !HasPrefix(header, Bearer) ==> r == Reject(Unauthorized, "Bearer token required")
    ensures header == Bearer ==> r == Reject(Unauthorized, "Invalid token")
    ensures r.Reject? ==> r.status == Unauthorized
  {
    if header == "" then Reject(Unauthorized, "Authorization header required")
    else
      var token := TrimPrefix(header, Bearer);
      if token == header then Reject(Unauthorized, "Bearer token required")
      else if token == "" then Reject(Unauthorized, "Invalid token")
      else
        match parseToken(token)
        case None => Reject(Unauthorized, "Invalid token")
        case Some(user) => Proceed(user)
  }

  /** The chain continues exactly for "Bearer <token>" with a token the
      parser accepts, and with that token's user. */
  lemma AuthorizeIff(header: string, parseToken: string -> Option<string>)
    ensures Authorize(header, parseToken).Proceed?
            <==> HasPrefix(header, Bearer) && |header| > |Bearer| && parseToken(header[|Bearer|..]).Some?
    ensures Authorize(header, parseToken).Proceed? ==>
            Authorize(header, parseToken).username == parseToken(header[|Bearer|..]).value
  {
    if HasPrefix(header, Bearer) {
      var token := TrimPrefix(header, Bearer);
      assert |token| == |header| - |Bearer|;
    }
  }

  /** A token is always read after exactly one "Bearer ": the header
      "Bearer " + t proceeds exactly when t is non-empty and parses. */
  lemma BearerToken(t: string, parseToken: string -> Option<string>)
    ensures Authorize(Bearer + t, parseToken).Proceed? <==> t != "" && parseToken(t).Some?
  {
    assert (Bearer + t)[..|Bearer|] == Bearer && (Bearer + t)[|Bearer|..] == t;
    AuthorizeIff(Bearer + t, parseToken);
  }
}
