/**
 The newsletter signup endpoint as a pure function of the request, the
 instant, the email validator and the two stores. Its checks run in a fixed
 order and each failure returns at once: body parse, CSRF validation, email
 validation, client-key derivation and rate check (5 per 60 s), then the
 token is invalidated and 200 is returned. `validateAndSanitizeEmail` is not
 part of this model; it is the `emailCheck` parameter.
 */
module Newsletter {
  import opened Js
  import Hex
  import Csrf
  import RateLimit

  const SignupLimit: int := 5
  const SignupWindowMs: int := 60 * 1000

  /** What `request.json()` produced. A JSON `null` parses, but taking its
      fields throws, which the outer handler turns into a 500. Any other JSON
      value destructures without throwing: an object gives its two fields,
      and a number, string, boolean or array gives two `undefined` fields,
      that is `Json(NonString, NonString)`. */
  datatype Body = Unparseable | JsonNull | Json(email: Unknown, csrfToken: Unknown)

  /** The request headers the handler reads; `None` when absent. */
  datatype RequestHeaders = RequestHeaders(forwardedFor: Option<string>, realIp: Option<string>)

  datatype Request = Request(body: Body, headers: RequestHeaders)

  /** The answer of `validateAndSanitizeEmail`. */
  datatype EmailVerdict = EmailValid(sanitized: string) | EmailInvalid(error: Option<string>)

  /** The `error` field of a response body. The 429 text embeds the reset
      instant as an ISO-8601 string, kept here as the instant. */
  datatype ErrorDetail = NoDetail | Text(text: string) | RetryAfterInstant(resetAt: int)

  /** `X-RateLimit-Limit`, `X-RateLimit-Remaining`, `X-RateLimit-Reset`. */
  datatype RateHeaders = RateHeaders(limit: int, remaining: int, reset: int)

  datatype ResponseHeaders = ResponseHeaders(retryAfter: Option<int>, rateLimit: Option<RateHeaders>)

  datatype Response = Response(status: int, success: bool, message: string, error: ErrorDetail, headers: ResponseHeaders)

  /** The response with the stores as the request leaves them. */
  datatype Handled = Handled(response: Response, tokens: Csrf.TokenStore, rates: RateLimit.RateStore)

  const NoHeaders: ResponseHeaders := ResponseHeaders(None, None)

  /** The text before the first comma: `split(',')[0]`. */
  function FirstSegment(s: string): (r: string)
    ensures |r| <= |s| && r == s[..|r|]
    ensures ',' !in r
    ensures |r| < |s| ==> s[|r|] == ','
  {
    if s == [] || s[0] == ',' then []
    else
      var rest := FirstSegment(s[1..]);
      assert s[..|rest| + 1] == [s[0]] + rest;
      [s[0]] + rest
  }

  /** The key the rate limiter uses: the trimmed first hop of
      `x-forwarded-for` when that is non-empty, otherwise a non-empty
      `x-real-ip`, otherwise `"unknown"`. */
  function ClientKey(h: RequestHeaders): (key: string)
    ensures key != ""
    ensures h.forwardedFor.Some? && Trim(FirstSegment(h.forwardedFor.value)) != "" ==>
      key == Trim(FirstSegment(h.forwardedFor.value))
    ensures (h.forwardedFor.None? || Trim(FirstSegment(h.forwardedFor.value)) == "") && h.realIp.Some? && h.realIp.value != "" ==>
      key == h.realIp.value
    ensures (h.forwardedFor.None? || Trim(FirstSegment(h.forwardedFor.value)) == "") && (h.realIp.None? || h.realIp.value == "") ==>
      key == "unknown"
  {
    var forwarded := if h.forwardedFor.Some? then Trim(FirstSegment(h.forwardedFor.value)) else "";
    if forwarded != "" then forwarded
    else if h.realIp.Some? && h.realIp.value != "" then h.realIp.value
    else "unknown"
  }

  /** `Math.ceil(a / b)` for a positive divisor. */
  function CeilDiv(a: int, b: int): (q: int)
    requires b > 0
    ensures (q - 1) * b < a <= q * b
  {
    -((-a) / b)
  }

  function RateLimitHeaders(r: RateLimit.RateLimitResult): (h: RateHeaders)
    ensures h.limit == r.limit && h.remaining == r.remaining && h.reset == r.resetAt
  {
    RateHeaders(r.limit, r.remaining, r.resetAt)
  }

  /** `csrfResult.error || fallback`. Every refusal carries a non-empty
      message, so the fallback text is never what a refusal reports. */
  function CsrfErrorText(v: Csrf.Verdict): (text: string)
    ensures v.Invalid? ==> text == Csrf.ErrorMessage(v.error)
    ensures v.Invalid? ==> text != "CSRF token is required for form submission"
  {
    var e := if v.Invalid? then Csrf.ErrorMessage(v.error) else "";
    if e != "" then e else "CSRF token is required for form submission"
  }

  /** The request reaches the rate limiter: a JSON body, a valid token and a
      valid email. */
  predicate ReachesLimiter(req: Request, now: int, emailCheck: Unknown -> EmailVerdict, tokens: Csrf.TokenStore) {
    && req.body.Json?
    && Csrf.ValidateCsrfToken(tokens, req.body.csrfToken, now).verdict.Valid?
    && emailCheck(req.body.email).EmailValid?
  }

  /** Every check passes: the request reaches the rate limiter and it admits. */
  predicate Admitted(req: Request, now: int, emailCheck: Unknown -> EmailVerdict, tokens: Csrf.TokenStore, rates: RateLimit.RateStore) {
    && ReachesLimiter(req, now, emailCheck, tokens)
    && RateLimit.CheckRateLimit(rates, ClientKey(req.headers), SignupLimit, SignupWindowMs, now).result.allowed
  }

  /** `POST /api/newsletter` at instant `now`. */
  function Post(req: Request, now: int, emailCheck: Unknown -> EmailVerdict, tokens: Csrf.TokenStore, rates: RateLimit.RateStore): (r: Handled)
    // a body that is not JSON is refused before anything else
    ensures req.body.Unparseable? ==>
      r == Handled(Response(400, false, "Invalid request body", Text("Request body must be valid JSON"), NoHeaders), tokens, rates)
    // a JSON null body throws when its fields are read
    ensures req.body.JsonNull? ==> r.response.status == 500 && r.tokens == tokens && r.rates == rates
    // success means: token valid, email valid, admitted; and the token is then gone
    ensures r.response.status == 200 <==> Admitted(req, now, emailCheck, tokens, rates)
    ensures r.response.success <==> r.response.status == 200
    ensures r.response.status == 200 ==> req.body.csrfToken.Str? && req.body.csrfToken.s !in r.tokens
    ensures r.response.status in {200, 400, 403, 429, 500}
  {
    match req.body
    case Unparseable =>
      Handled(Response(400, false, "Invalid request body", Text("Request body must be valid JSON"), NoHeaders), tokens, rates)
    case JsonNull =>
      Handled(Response(500, false, "Internal server error", Text("An unexpected error occurred. Please try again later."), NoHeaders), tokens, rates)
    case Json(email, csrfToken) =>
      var csrf := Csrf.ValidateCsrfToken(tokens, csrfToken, now);
      if !csrf.verdict.Valid? then
        Handled(Response(403, false, "Invalid CSRF token", Text(CsrfErrorText(csrf.verdict)), NoHeaders), csrf.store, rates)
      else
        match emailCheck(email)
        case EmailInvalid(error) =>
          Handled(Response(400, false, "Invalid email address", if error.Some? then Text(error.value) else NoDetail, NoHeaders), csrf.store, rates)
        case EmailValid(_) =>
          var ip := ClientKey(req.headers);
          var checked := RateLimit.CheckRateLimit(rates, ip, SignupLimit, SignupWindowMs, now);
          var result := checked.result;
          if !result.allowed then
            var headers := ResponseHeaders(Some(CeilDiv(result.resetAt - now, 1000)), Some(RateLimitHeaders(result)));
            Handled(Response(429, false, "Too many requests", RetryAfterInstant(result.resetAt), headers), csrf.store, checked.store)
          else
            var consumed := Csrf.InvalidateCsrfToken(csrf.store, csrfToken.s);
            Handled(Response(200, true, "Successfully subscribed to newsletter", NoDetail, ResponseHeaders(None, Some(RateLimitHeaders(result)))), consumed, checked.store)
  }

  /** `GET /api/newsletter`. */
  function Get(): (r: Response)
    ensures r.status == 405 && !r.success
  {
    Response(405, false, "Method not allowed", Text("Only POST requests are supported for this endpoint"), NoHeaders)
  }

  // ---------------------------------------------------------------------
  // Properties of the composition

  /** A refused token gives 403 with the validator's own reason, before the
      email or the rate limit is looked at: the rate store is untouched and
      the token store changes only by the validator's expired-entry
      deletion. */
  lemma InvalidTokenIsForbidden(req: Request, now: int, emailCheck: Unknown -> EmailVerdict, tokens: Csrf.TokenStore, rates: RateLimit.RateStore)
    requires req.body.Json?
    requires Csrf.ValidateCsrfToken(tokens, req.body.csrfToken, now).verdict.Invalid?
    ensures var v := Csrf.ValidateCsrfToken(tokens, req.body.csrfToken, now);
            var r := Post(req, now, emailCheck, tokens, rates);
            && r.response.status == 403
            && r.response.message == "Invalid CSRF token"
            && r.response.error == Text(Csrf.ErrorMessage(v.verdict.error))
            && r.rates == rates
            && r.tokens == v.store
  {
  }

  /** Check order: with a bad token the answer is 403 whatever the rate
      state and whatever the email, so garbage never spends a budget. */
  lemma TokenCheckPrecedesRateCheck(req: Request, now: int, check1: Unknown -> EmailVerdict, check2: Unknown -> EmailVerdict,
                                    tokens: Csrf.TokenStore, rates1: RateLimit.RateStore, rates2: RateLimit.RateStore)
    requires req.body.Json?
    requires !Csrf.ValidateCsrfToken(tokens, req.body.csrfToken, now).verdict.Valid?
    ensures Post(req, now, check1, tokens, rates1).response == Post(req, now, check2, tokens, rates2).response
    ensures Post(req, now, check1, tokens, rates1).response.status == 403
  {
  }

  /** A valid token with a refused email gives 400 and changes nothing, so
      the same token works for the next attempt: the next request sees the
      stores it would have seen without the failed one. */
  lemma EmailFailureKeepsToken(req: Request, now: int, emailCheck: Unknown -> EmailVerdict, tokens: Csrf.TokenStore, rates: RateLimit.RateStore)
    requires req.body.Json?
    requires Csrf.ValidateCsrfToken(tokens, req.body.csrfToken, now).verdict.Valid?
    requires emailCheck(req.body.email).EmailInvalid?
    ensures var r := Post(req, now, emailCheck, tokens, rates);
            && r.response.status == 400
            && r.response.message == "Invalid email address"
            && r.tokens == tokens && r.rates == rates
            && req.body.csrfToken.s in r.tokens
  {
  }

  /** A rate-limited request gives 429 and keeps the token; the headers
      carry the limiter's figures and a positive Retry-After in seconds. */
  lemma RateLimitedKeepsToken(req: Request, now: int, emailCheck: Unknown -> EmailVerdict, tokens: Csrf.TokenStore, rates: RateLimit.RateStore)
    requires ReachesLimiter(req, now, emailCheck, tokens)
    requires !RateLimit.CheckRateLimit(rates, ClientKey(req.headers), SignupLimit, SignupWindowMs, now).result.allowed
    ensures var c := RateLimit.CheckRateLimit(rates, ClientKey(req.headers), SignupLimit, SignupWindowMs, now);
            var r := Post(req, now, emailCheck, tokens, rates);
            && r.response.status == 429
            && r.tokens == tokens
            && req.body.csrfToken.s in r.tokens
            && r.rates == c.store
            && r.response.headers.rateLimit == Some(RateHeaders(SignupLimit, 0, c.result.resetAt))
            && r.response.headers.retryAfter.Some?
            && r.response.headers.retryAfter.value >= 1
            && (r.response.headers.retryAfter.value - 1) * 1000 < c.result.resetAt - now <= r.response.headers.retryAfter.value * 1000
  {
    var c := RateLimit.CheckRateLimit(rates, ClientKey(req.headers), SignupLimit, SignupWindowMs, now);
    assert c.result.resetAt - now >= 1;
  }

  /** A success consumes the token and reports the post-increment rate
      figures. */
  lemma SuccessConsumesToken(req: Request, now: int, emailCheck: Unknown -> EmailVerdict, tokens: Csrf.TokenStore, rates: RateLimit.RateStore)
    requires ReachesLimiter(req, now, emailCheck, tokens)
    requires RateLimit.CheckRateLimit(rates, ClientKey(req.headers), SignupLimit, SignupWindowMs, now).result.allowed
    ensures var c := RateLimit.CheckRateLimit(rates, ClientKey(req.headers), SignupLimit, SignupWindowMs, now);
            var r := Post(req, now, emailCheck, tokens, rates);
            && r.tokens == tokens - {req.body.csrfToken.s}
            && r.rates == c.store
            && r.response.headers == ResponseHeaders(None, Some(RateHeaders(SignupLimit, c.result.remaining, c.result.resetAt)))
            && 0 <= c.result.remaining < SignupLimit
  {
  }

  /** No replay: after a success, the same token is refused as unknown on
      any later request, whatever its email, headers or instant. */
  lemma NoReplay(req: Request, now: int, emailCheck: Unknown -> EmailVerdict, tokens: Csrf.TokenStore, rates: RateLimit.RateStore,
                 req2: Request, now2: int, emailCheck2: Unknown -> EmailVerdict)
    requires ReachesLimiter(req, now, emailCheck, tokens)
    requires RateLimit.CheckRateLimit(rates, ClientKey(req.headers), SignupLimit, SignupWindowMs, now).result.allowed
    requires req2.body.Json? && req2.body.csrfToken == req.body.csrfToken
    ensures var r := Post(req, now, emailCheck, tokens, rates);
            var r2 := Post(req2, now2, emailCheck2, r.tokens, r.rates);
            && r2.response.status == 403
            && r2.response.error == Text("Invalid CSRF token")
            && r2.rates == r.rates
  {
    var r := Post(req, now, emailCheck, tokens, rates);
    assert Csrf.ValidateCsrfToken(tokens, req.body.csrfToken, now).verdict.Valid?;
    UnknownTokenIsForbidden(req2, now2, emailCheck2, r.tokens, r.rates);
  }

  /** A well-formed token that is not in the store is refused as unknown. */
  lemma UnknownTokenIsForbidden(req: Request, now: int, emailCheck: Unknown -> EmailVerdict, tokens: Csrf.TokenStore, rates: RateLimit.RateStore)
    requires req.body.Json? && req.body.csrfToken.Str? && Csrf.IsTokenFormat(req.body.csrfToken.s)
    requires req.body.csrfToken.s !in tokens
    ensures var r := Post(req, now, emailCheck, tokens, rates);
            && r.response.status == 403
            && r.response.error == Text("Invalid CSRF token")
            && r.tokens == tokens && r.rates == rates
  {
    assert Csrf.ValidateCsrfToken(tokens, req.body.csrfToken, now).verdict == Csrf.Invalid(Csrf.UnknownToken);
  }

  /** A token held back by a 429 succeeds once the client's window has run
      out, provided it has not expired by then. */
  lemma RateLimitedTokenSucceedsLater(req: Request, now: int, emailCheck: Unknown -> EmailVerdict, tokens: Csrf.TokenStore, rates: RateLimit.RateStore, later: int)
    requires Post(req, now, emailCheck, tokens, rates).response.status == 429
    requires req.body.Json? && req.body.csrfToken.Str? && req.body.csrfToken.s in tokens
    requires later - RateLimit.CheckRateLimit(rates, ClientKey(req.headers), SignupLimit, SignupWindowMs, now).store[ClientKey(req.headers)].windowStart >= SignupWindowMs
    requires later <= tokens[req.body.csrfToken.s]
    ensures var r := Post(req, now, emailCheck, tokens, rates);
            Post(req, later, emailCheck, r.tokens, r.rates).response.status == 200
  {
  }

  /** End to end: a fresh token, used at once on a server with no rate records and a
      valid email, succeeds; the same request again is forbidden. */
  lemma IssueSubmitReplay(random: seq<Hex.byte>, now: int, headers: RequestHeaders, email: Unknown, emailCheck: Unknown -> EmailVerdict,
                          tokens: Csrf.TokenStore, rates: RateLimit.RateStore)
    requires |random| == Csrf.TokenLengthBytes
    requires emailCheck(email).EmailValid?
    requires rates == map[]
    ensures var issued := Csrf.CreateCsrfToken(tokens, random, now, Csrf.DefaultExpirationMs);
            var req := Request(Json(email, Str(issued.token.token)), headers);
            var first := Post(req, now, emailCheck, issued.store, rates);
            var second := Post(req, now, emailCheck, first.tokens, first.rates);
            && first.response.status == 200
            && first.response.headers.rateLimit == Some(RateHeaders(SignupLimit, SignupLimit - 1, now + SignupWindowMs))
            && second.response.status == 403
  {
    var issued := Csrf.CreateCsrfToken(tokens, random, now, Csrf.DefaultExpirationMs);
    var token := issued.token.token;
    var req := Request(Json(email, Str(token)), headers);
    assert Csrf.ValidateCsrfToken(issued.store, Str(token), now).verdict.Valid?;
    var c := RateLimit.CheckRateLimit(rates, ClientKey(headers), SignupLimit, SignupWindowMs, now);
    assert c.result == RateLimit.RateLimitResult(true, SignupLimit - 1, now + SignupWindowMs, SignupLimit);
    var first := Post(req, now, emailCheck, issued.store, rates);
    assert first.response.status == 200;
    SuccessConsumesToken(req, now, emailCheck, issued.store, rates);
    NoReplay(req, now, emailCheck, issued.store, rates, req, now, emailCheck);
  }
}
