/** The net/http middleware of internal/web/middleware.go. A decorated
    handler is the list of its layers, innermost first; running it tells
    which layers the request passed through and whether the wrapped
    handler was reached. Claim parsing (security.ParseClaim) is a
    parameter answering the token's expiry, and the clock is `now`. */
module WebMiddleware {
  import opened Wrappers
  import opened Bytes

  // ---------------------------------------------------------------------
  // sanitiseHeaders
  // ---------------------------------------------------------------------

  /** Header names as the bytes of the Go string. */
  type Headers = map<Bytes, seq<string>>

  /** "authorization" */
  const AuthorizationKey: Bytes := [0x61, 0x75, 0x74, 0x68, 0x6f, 0x72, 0x69, 0x7a, 0x61, 0x74, 0x69, 0x6f, 0x6e]

  /** sanitiseHeaders: a new map without the authorization header. */
  function SanitiseHeaders(headers: Headers): (r: Headers)
    ensures forall k | k in r :: !EqualFold(k, AuthorizationKey)
  {
    map k | k in headers && !EqualFold(k, AuthorizationKey) :: headers[k]
  }

  /** Only names equal to "authorization" up to case are dropped; every
      other header keeps its values. */
  lemma SanitiseKeepsOthers(headers: Headers, k: Bytes)
    ensures k in SanitiseHeaders(headers) <==> k in headers && !EqualFold(k, AuthorizationKey)
    ensures k in SanitiseHeaders(headers) ==> SanitiseHeaders(headers)[k] == headers[k]
  {
  }

  lemma SanitiseIdempotent(headers: Headers)
    ensures SanitiseHeaders(SanitiseHeaders(headers)) == SanitiseHeaders(headers)
  {
  }

  // ---------------------------------------------------------------------
  // Layers
  // ---------------------------------------------------------------------

  datatype Middleware = Cors | Secure | Logging

  datatype Request = Request(verb: string, authorization: string)

  /** What a layer writes when it answers by itself. */
  datatype Reply = Reply(status: int, allowOrigin: string, body: string)

  const StatusOK := 200
  const StatusUnauthorized := 401

  /** http.Error(w, "unauthorised", 401) */
  const Unauthorised := Reply(StatusUnauthorized, "", "unauthorised\n")

  /** The reply of a layer that does not pass the request on, or None when
      it calls the handler it wraps. */
  function Gate(m: Middleware, req: Request, parseClaim: string -> Option<int>, now: int): (r: Option<Reply>)
    ensures m == Cors ==> (r.Some? <==> req.verb == "OPTIONS")
    ensures m == Cors && r.Some? ==> r.value == Reply(StatusOK, "*", "")
    ensures m == Logging ==> r.None?
  {
    match m
    case Cors => if req.verb == "OPTIONS" then Some(Reply(StatusOK, "*", "")) else None
    case Logging => None
    case Secure =>
      if |req.authorization| == 0 then Some(Unauthorised)
      else
        match parseClaim(req.authorization)
        case None => Some(Unauthorised)
        case Some(expires) => if now > expires then Some(Unauthorised) else None
  }

  /** Secure lets a request through exactly when it carries a claim that
      parses and has not expired. */
  lemma SecureIff(req: Request, parseClaim: string -> Option<int>, now: int)
    ensures Gate(Secure, req, parseClaim, now).None?
            <==> req.authorization != "" && parseClaim(req.authorization).Some?
                 && now <= parseClaim(req.authorization).value
    ensures Gate(Secure, req, parseClaim, now).Some? ==> Gate(Secure, req, parseClaim, now).value == Unauthorised
  {
  }

  /** Where a request ends: a layer's own reply, or the wrapped handler. */
  datatype Outcome = Answered(reply: Reply) | Handled

  /** The layers entered, outermost first, and where the request ended. */
  datatype Run = Run(entered: seq<Middleware>, outcome: Outcome)

  /** Serving through `layers` (innermost first). */
  function Serve(layers: seq<Middleware>, req: Request, parseClaim: string -> Option<int>, now: int): (r: Run)
    ensures |r.entered| <= |layers|
    ensures |layers| > 0 ==> |r.entered| > 0 && r.entered[0] == layers[|layers| - 1]
  {
    if |layers| == 0 then Run([], Handled)
    else
      var outer := layers[|layers| - 1];
      match Gate(outer, req, parseClaim, now)
      case Some(reply) => Run([outer], Answered(reply))
      case None =>
        var inner := Serve(layers[..|layers| - 1], req, parseClaim, now);
        Run([outer] + inner.entered, inner.outcome)
  }

  /** Decorate: CORS around the handler, then each decorator around that,
      so the last decorator is the outermost layer. */
  function Decorate(decorators: seq<Middleware>): (layers: seq<Middleware>)
    ensures |layers| == |decorators| + 1 && layers[0] == Cors
  {
    [Cors] + decorators
  }

  function Reverse<T>(s: seq<T>): (r: seq<T>)
    ensures |r| == |s| && forall i | 0 <= i < |s| :: r[i] == s[|s| - 1 - i]
  {
    if |s| == 0 then [] else [s[|s| - 1]] + Reverse(s[..|s| - 1])
  }

  /** The handler is reached exactly when no layer answers by itself. */
  lemma {:induction false} HandledIff(layers: seq<Middleware>, req: Request, parseClaim: string -> Option<int>, now: int)
    ensures Serve(layers, req, parseClaim, now).outcome == Handled
            <==> forall i | 0 <= i < |layers| :: Gate(layers[i], req, parseClaim, now).None?
  {
    if |layers| > 0 {
      var n := |layers| - 1;
      HandledIff(layers[..n], req, parseClaim, now);
      assert forall i | 0 <= i < n :: layers[..n][i] == layers[i];
    }
  }

  /** When every layer passes the request on, it enters the decorators
      from last to first and then CORS, and reaches the handler. */
  lemma {:induction false} PassThrough(layers: seq<Middleware>, req: Request, parseClaim: string -> Option<int>, now: int)
    requires forall i | 0 <= i < |layers| :: Gate(layers[i], req, parseClaim, now).None?
    ensures Serve(layers, req, parseClaim, now) == Run(Reverse(layers), Handled)
  {
    if |layers| > 0 {
      var n := |layers| - 1;
      assert forall i | 0 <= i < n :: layers[..n][i] == layers[i];
      PassThrough(layers[..n], req, parseClaim, now);
    }
  }

  lemma DecorateOrder(decorators: seq<Middleware>, req: Request, parseClaim: string -> Option<int>, now: int)
    requires req.verb != "OPTIONS"
    requires forall i | 0 <= i < |decorators| :: Gate(decorators[i], req, parseClaim, now).None?
    ensures Serve(Decorate(decorators), req, parseClaim, now) == Run(Reverse(decorators) + [Cors], Handled)
  {
    var layers := Decorate(decorators);
    assert forall i | 1 <= i < |layers| :: layers[i] == decorators[i - 1];
    PassThrough(layers, req, parseClaim, now);
    assert Reverse(layers) == Reverse(decorators) + [Cors];
  }

  /** An OPTIONS request through logging layers is answered 200 with
      Access-Control-Allow-Origin "*" and never reaches the handler. */
  lemma {:induction false} CorsAnswersOptions(decorators: seq<Middleware>, req: Request, parseClaim: string -> Option<int>, now: int)
    requires req.verb == "OPTIONS"
    requires forall i | 0 <= i < |decorators| :: decorators[i] == Logging
    ensures Serve(Decorate(decorators), req, parseClaim, now).outcome == Answered(Reply(StatusOK, "*", ""))
    decreases |decorators|
  {
    if |decorators| > 0 {
      var n := |decorators| - 1;
      assert Decorate(decorators)[..n + 1] == Decorate(decorators[..n]);
      CorsAnswersOptions(decorators[..n], req, parseClaim, now);
    }
  }
}
