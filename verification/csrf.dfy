/**
 The CSRF token ledger: a map from token to expiry instant (milliseconds).
 Tokens are 32 random bytes in lower-case hex. Validation rejects malformed
 input before it looks at the store, reports unknown and expired tokens
 separately, deletes an expired entry as it reports it, and leaves a valid
 token in place: consuming a token is the separate `InvalidateCsrfToken`.
 The random bytes and the clock are parameters.
 */
module Csrf {
  import opened Js
  import Hex

  /** One hour. */
  const DefaultExpirationMs: int := 60 * 60 * 1000
  const TokenLengthBytes: nat := 32
  /** Length of the hex-encoded token. */
  const TokenLength: nat := TokenLengthBytes * 2

  type TokenStore = map<string, int>

  datatype CsrfToken = CsrfToken(token: string, expiresAt: int)

  /** Why a candidate token was refused. */
  datatype CsrfError = NotAString | Missing | BadFormat | UnknownToken | Expired

  function ErrorMessage(e: CsrfError): (m: string)
    ensures m != ""
  {
    match e
    case NotAString => "CSRF token must be a string"
    case Missing => "CSRF token is required"
    case BadFormat => "Invalid CSRF token format"
    case UnknownToken => "Invalid CSRF token"
    case Expired => "CSRF token has expired"
  }

  /** Distinct reasons give distinct messages, so a caller that sees only
      the text can still tell a format error from a store miss or an
      expiry. */
  lemma ErrorMessageInjective(a: CsrfError, b: CsrfError)
    ensures ErrorMessage(a) == ErrorMessage(b) ==> a == b
  {
  }

  datatype Verdict = Valid | Invalid(error: CsrfError)

  /** A verdict together with the store as the validation leaves it. */
  datatype Validated = Validated(verdict: Verdict, store: TokenStore)

  datatype Issued = Issued(token: CsrfToken, store: TokenStore)

  /** The shape every issued token has: 64 characters of `[0-9a-f]`. */
  predicate IsTokenFormat(s: string) {
    |s| == TokenLength && Hex.IsLowerHex(s)
  }

  /** Every key of the store is a well-formed token. */
  ghost predicate WellFormedStore(store: TokenStore) {
    forall t :: t in store ==> IsTokenFormat(t)
  }

  /** The hex-encoding loop of the secure branch of the generator. */
  method GenerateRandomToken(random: seq<Hex.byte>) returns (token: string)
    requires |random| == TokenLengthBytes
    ensures token == Hex.Encode(random)
    ensures IsTokenFormat(token)
  {
    token := "";
    var i := 0;
    while i < |random|
      invariant 0 <= i <= |random|
      invariant token == Hex.Encode(random[..i])
    {
      Hex.EncodeAppend(random[..i], random[i]);
      assert random[..i + 1] == random[..i] + [random[i]];
      token := token + [Hex.HexChars[random[i] as int / 16]];
      token := token + [Hex.HexChars[random[i] as int % 16]];
      i := i + 1;
    }
    assert random[..i] == random;
  }

  /** `createCsrfToken`: the token made from `random`, stored with expiry
      `now + expirationMs`. */
  function CreateCsrfToken(store: TokenStore, random: seq<Hex.byte>, now: int, expirationMs: int): (r: Issued)
    requires |random| == TokenLengthBytes
    ensures IsTokenFormat(r.token.token)
    ensures r.token.token == Hex.Encode(random)
    ensures r.token.expiresAt == now + expirationMs
    ensures r.store.Keys == store.Keys + {r.token.token}
    ensures r.store[r.token.token] == now + expirationMs
    ensures forall t :: t in store && t != r.token.token ==> r.store[t] == store[t]
  {
    var token := Hex.Encode(random);
    var expiresAt := now + expirationMs;
    Issued(CsrfToken(token, expiresAt), store[token := expiresAt])
  }

  /** The format checks, in the order the validator makes them, before any
      store lookup. */
  function FormatError(candidate: Unknown): (e: Option<CsrfError>)
    ensures e.None? <==> candidate.Str? && IsTokenFormat(candidate.s)
    ensures e == Some(NotAString) <==> candidate.NonString?
    ensures e == Some(Missing) <==> candidate == Str("")
    ensures e == Some(BadFormat) <==> candidate.Str? && candidate.s != "" && !IsTokenFormat(candidate.s)
  {
    match candidate
    case NonString => Some(NotAString)
    case Str(s) =>
      if s == "" then Some(Missing)
      else if |s| != TokenLength then Some(BadFormat)
      else if !Hex.IsLowerHex(s) then Some(BadFormat)
      else None
  }

  /** `validateCsrfToken` at instant `now`. */
  function ValidateCsrfToken(store: TokenStore, candidate: Unknown, now: int): (r: Validated)
    // a format error is reported without reading or changing the store
    ensures FormatError(candidate).Some? ==> r == Validated(Invalid(FormatError(candidate).value), store)
    // valid exactly for a well-formed, stored, unexpired token; expiry is strict
    ensures r.verdict == Valid <==> candidate.Str? && IsTokenFormat(candidate.s) && candidate.s in store && now <= store[candidate.s]
    ensures r.verdict == Invalid(UnknownToken) <==> candidate.Str? && IsTokenFormat(candidate.s) && candidate.s !in store
    ensures r.verdict == Invalid(Expired) <==> candidate.Str? && IsTokenFormat(candidate.s) && candidate.s in store && store[candidate.s] < now
    // the only change validation makes is deleting the expired entry it reports
    ensures r.verdict == Invalid(Expired) ==> r.store == store - {candidate.s}
    ensures r.verdict != Invalid(Expired) ==> r.store == store
  {
    match FormatError(candidate)
    case Some(e) => Validated(Invalid(e), store)
    case None =>
      var token := candidate.s;
      if token !in store then Validated(Invalid(UnknownToken), store)
      else if store[token] < now then Validated(Invalid(Expired), store - {token})
      else Validated(Valid, store)
  }

  /** `invalidateCsrfToken`: removes exactly that key; absent keys are a
      no-op. */
  function InvalidateCsrfToken(store: TokenStore, token: string): (r: TokenStore)
    ensures token !in r
    ensures r.Keys == store.Keys - {token}
    ensures forall t :: t in r ==> r[t] == store[t]
  {
    store - {token}
  }

  /** `getTokenExpiration`: a read with no side effect. */
  function GetTokenExpiration(store: TokenStore, token: string): (r: Option<int>)
    ensures r.Some? <==> token in store
    ensures r.Some? ==> r.value == store[token]
  {
    if token in store then Some(store[token]) else None
  }

  function ClearAllCsrfTokens(): (r: TokenStore)
    ensures |r| == 0
  {
    map[]
  }

  /** The keys among `keys` whose entries have expired at `now`. */
  ghost function ExpiredAmong(store: TokenStore, now: int, keys: set<string>): set<string> {
    set t | t in keys && t in store && store[t] < now
  }

  /** The keys among `keys` whose entries are still valid at `now`. */
  ghost function ActiveAmong(store: TokenStore, now: int, keys: set<string>): set<string> {
    set t | t in keys && t in store && now <= store[t]
  }

  ghost function ExpiredTokens(store: TokenStore, now: int): set<string> {
    ExpiredAmong(store, now, store.Keys)
  }

  ghost function ActiveTokens(store: TokenStore, now: int): set<string> {
    ActiveAmong(store, now, store.Keys)
  }

  /** Body of the periodic cleanup: keeps exactly the entries that have not
      expired (`expiresAt < now` is expired), unchanged. */
  function CleanupExpiredTokens(store: TokenStore, now: int): (r: TokenStore)
    ensures r.Keys == ActiveTokens(store, now)
    ensures store.Keys - r.Keys == ExpiredTokens(store, now)
    ensures forall t :: t in r ==> r[t] == store[t]
  {
    map t | t in store && now <= store[t] :: store[t]
  }

  /** `getCsrfTokenStats`: one pass over the expiry instants, counting
      expired (`< now`) and active entries. */
  method GetCsrfTokenStats(store: TokenStore, now: int) returns (active: nat, expired: nat)
    ensures active == |ActiveTokens(store, now)|
    ensures expired == |ExpiredTokens(store, now)|
    ensures active + expired == |store|
  {
    active, expired := 0, 0;
    var todo := store.Keys;
    ghost var done: set<string> := {};
    while todo != {}
      invariant todo + done == store.Keys && todo !! done
      invariant active == |ActiveAmong(store, now, done)|
      invariant expired == |ExpiredAmong(store, now, done)|
      decreases |todo|
    {
      var t :| t in todo;
      CountOneMore(store, now, done, t);
      if store[t] < now {
        expired := expired + 1;
      } else {
        active := active + 1;
      }
      MoveOne(todo, done, t);
      todo := todo - {t};
      done := done + {t};
    }
    StatsPartition(store, now);
  }

  lemma CountOneMore(store: TokenStore, now: int, done: set<string>, t: string)
    requires t in store && t !in done
    ensures store[t] < now ==>
      |ExpiredAmong(store, now, done + {t})| == |ExpiredAmong(store, now, done)| + 1 &&
      ActiveAmong(store, now, done + {t}) == ActiveAmong(store, now, done)
    ensures now <= store[t] ==>
      ExpiredAmong(store, now, done + {t}) == ExpiredAmong(store, now, done) &&
      |ActiveAmong(store, now, done + {t})| == |ActiveAmong(store, now, done)| + 1
  {
    var e, a := ExpiredAmong(store, now, done), ActiveAmong(store, now, done);
    assert t !in e && t !in a;
    if store[t] < now {
      assert ExpiredAmong(store, now, done + {t}) == e + {t};
    } else {
      assert ActiveAmong(store, now, done + {t}) == a + {t};
    }
  }

  /** Moving one key from the to-do set to the done set keeps their union
      and their disjointness. */
  lemma MoveOne(todo: set<string>, done: set<string>, t: string)
    requires t in todo && todo !! done
    ensures (todo - {t}) + (done + {t}) == todo + done
    ensures (todo - {t}) !! (done + {t})
    ensures |todo - {t}| < |todo|
  {
  }

  /** Active and expired entries split the store. */
  lemma StatsPartition(store: TokenStore, now: int)
    ensures ActiveTokens(store, now) !! ExpiredTokens(store, now)
    ensures |ActiveTokens(store, now)| + |ExpiredTokens(store, now)| == |store|
  {
    var a, e := ActiveTokens(store, now), ExpiredTokens(store, now);
    assert a + e == store.Keys;
    assert |a + e| == |a| + |e|;
  }

  // ---------------------------------------------------------------------
  // Properties across several calls

  /** Every operation keeps the store's keys well-formed tokens. */
  lemma OperationsPreserveWellFormedness(store: TokenStore, random: seq<Hex.byte>, candidate: Unknown, token: string, now: int, ttl: int)
    requires WellFormedStore(store) && |random| == TokenLengthBytes
    ensures WellFormedStore(CreateCsrfToken(store, random, now, ttl).store)
    ensures WellFormedStore(ValidateCsrfToken(store, candidate, now).store)
    ensures WellFormedStore(InvalidateCsrfToken(store, token))
    ensures WellFormedStore(CleanupExpiredTokens(store, now))
  {
  }

  /** A freshly issued token can be read back with the expiry it was given,
      validates until that instant inclusive, and is not consumed by
      validation. */
  lemma IssuedTokenValidates(store: TokenStore, random: seq<Hex.byte>, now: int, ttl: int, later: int)
    requires |random| == TokenLengthBytes && later <= now + ttl
    ensures var i := CreateCsrfToken(store, random, now, ttl);
            && GetTokenExpiration(i.store, i.token.token) == Some(now + ttl)
            && ValidateCsrfToken(i.store, Str(i.token.token), later) == Validated(Valid, i.store)
  {
  }

  /** Validation does not consume: validating a valid token again at the
      same instant still succeeds. */
  lemma ValidationIsRepeatable(store: TokenStore, candidate: Unknown, now: int)
    requires ValidateCsrfToken(store, candidate, now).verdict == Valid
    ensures var v := ValidateCsrfToken(store, candidate, now);
            v.store == store && ValidateCsrfToken(v.store, candidate, now).verdict == Valid
  {
  }

  /** One-time use: after invalidation the same token is unknown. */
  lemma InvalidatedTokenIsUnknown(store: TokenStore, token: string, now: int)
    requires IsTokenFormat(token)
    ensures ValidateCsrfToken(InvalidateCsrfToken(store, token), Str(token), now).verdict == Invalid(UnknownToken)
  {
  }

  lemma InvalidateIsIdempotent(store: TokenStore, token: string)
    ensures InvalidateCsrfToken(InvalidateCsrfToken(store, token), token) == InvalidateCsrfToken(store, token)
  {
  }

  /** Past its expiry a token is reported expired and is gone afterwards. */
  lemma ExpiredTokenIsRemoved(store: TokenStore, random: seq<Hex.byte>, now: int, ttl: int, later: int)
    requires |random| == TokenLengthBytes && now + ttl < later
    ensures var i := CreateCsrfToken(store, random, now, ttl);
            var v := ValidateCsrfToken(i.store, Str(i.token.token), later);
            && v.verdict == Invalid(Expired)
            && GetTokenExpiration(v.store, i.token.token) == None
            && ValidateCsrfToken(v.store, Str(i.token.token), later).verdict == Invalid(UnknownToken)
  {
  }

  /** A cleanup at `sweptAt` never changes whether a later validation
      succeeds: it only removes entries that would be reported expired. */
  lemma CleanupKeepsValidity(store: TokenStore, candidate: Unknown, sweptAt: int, now: int)
    requires sweptAt <= now
    ensures ValidateCsrfToken(CleanupExpiredTokens(store, sweptAt), candidate, now).verdict.Valid?
        <==> ValidateCsrfToken(store, candidate, now).verdict.Valid?
  {
  }

  /** After a cleanup at `now` nothing in the store is expired at `now`. */
  lemma CleanupLeavesNoExpired(store: TokenStore, now: int)
    ensures ExpiredTokens(CleanupExpiredTokens(store, now), now) == {}
    ensures ActiveTokens(CleanupExpiredTokens(store, now), now) == ActiveTokens(store, now)
  {
  }
}
