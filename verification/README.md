# Newsletter request protection, modelled in Dafny

This project models the request-protection layer behind the restaurant
site's newsletter signup, plus two small pure helpers:

- **CSRF token ledger** (`Csrf`, `Hex`). This is a map from token to expiry
  instant. Tokens are 32 random bytes in lower-case hex. Validation checks
  the format first, then the store, then the expiry. It deletes an expired
  entry as it reports it. It never consumes a valid token; consuming is
  `InvalidateCsrfToken`. The cleanup timer body, statistics, peek and clear
  are modelled too.
- **Rate limiter** (`RateLimit`). This is a map from client identifier to
  `{count, windowStart}`. The source comment calls it a sliding window. It
  is a fixed window that restarts at the instant of the first check after
  it runs out. The module also models the status read, reset, clear,
  statistics and the cleanup timer body, which always uses the default
  60-second window.
- **Signup handler** (`Newsletter`). `POST /api/newsletter` is a pure
  function of the request, the instant, an email-validation oracle and both
  stores. It returns the response and both new stores. The fixed order is:
  body parse, CSRF validation, email validation, client-key derivation,
  rate check, token invalidation, 200. `GET` answers 405.
- **Email shape** (`Validation`). `validateEmail` is an executable
  predicate. It is proved equivalent to a position-by-position restatement
  of `^[^\s@]+@[^\s@]+\.[^\s@]+$`.
- **Frame naming** (`Frames`). Index `i` maps to the file name of source
  frame `4 * i`, zero-padded to three digits, with the `041`/`042` delay
  tag. The preload loop requests every frame in order and counts successes
  and failures alike.

Shared JavaScript conventions live in `Js`: `undefined` as `Option`, a
value that may not be a string, the ECMAScript whitespace set, and `trim`.

The clock, the random bytes and the image-load outcomes are parameters.
`validateAndSanitizeEmail` is a function parameter of `Newsletter.Post`. The
handler imports it, but `src/lib/validation.ts` does not define it, so it is
not part of this model.

## Model

| member | source | states |
|---|---|---|
| Hex.Encode | src/lib/csrf.ts:79-88 | Two characters per byte, high nibble first and then low nibble, taken from `0123456789abcdef`. The output has twice the input's length and is all lower-case hex. |
| Hex.DecodeEncode | src/lib/csrf.ts:83-88 | Decoding the hex text gives back the bytes, so the encoding loses nothing. |
| Hex.EncodeDecode | src/lib/csrf.ts:83-88 | Every even-length lower-case hex string is the encoding of the bytes it decodes to. |
| Hex.EncodeInjective | src/lib/csrf.ts:76-89 | Distinct random byte strings give distinct tokens. |
| Hex.EncodeAppend | src/lib/csrf.ts:84-87 | One more byte appends exactly its two digits, as each turn of the loop does. |
| Csrf.GenerateRandomToken | src/lib/csrf.ts:76-89 | The loop over 32 bytes builds exactly their hex encoding, a 64-character `[0-9a-f]` string that passes the validator's format checks. |
| Csrf.CreateCsrfToken | src/lib/csrf.ts:113-124 | Stores exactly `token ↦ now + expirationMs` for the encoded token. Every other entry keeps its expiry, and the returned pair carries the same values. |
| Csrf.FormatError | src/lib/csrf.ts:142-175 | The cheap checks, in order: a non-string gives 'must be a string', an empty string gives 'is required', and a wrong length or a character outside `[0-9a-f]` gives 'Invalid CSRF token format'. It returns nothing exactly for 64 lower-case hex characters. |
| Csrf.ErrorMessage | src/lib/csrf.ts:147-192 | Every refusal reason has a non-empty message. |
| Csrf.ErrorMessageInjective | src/lib/csrf.ts:147-192 | Distinct reasons have distinct messages, so the text alone tells a format error from an unknown or an expired token. |
| Csrf.ValidateCsrfToken | src/lib/csrf.ts:142-203 | A format error leaves the store unchanged. The result is valid exactly for a well-formed stored token with `now <= expiresAt`. It is unknown exactly for a well-formed absent token, and expired exactly for `expiresAt < now`. Only the expired case changes the store, by deleting that one key. |
| Csrf.InvalidateCsrfToken | src/lib/csrf.ts:220-222 | Removes that key and no other. An absent key is a no-op. |
| Csrf.GetTokenExpiration | src/lib/csrf.ts:239-241 | Reports the stored expiry exactly when the token is present. |
| Csrf.ClearAllCsrfTokens | src/lib/csrf.ts:252-254 | Leaves an empty store. |
| Csrf.CleanupExpiredTokens | src/lib/csrf.ts:55-63 | Deletes exactly the entries with `expiresAt < now` and leaves the rest unchanged. |
| Csrf.GetCsrfTokenStats | src/lib/csrf.ts:268-288 | The loop counts the active entries (`now <= expiresAt`) and the expired ones (`expiresAt < now`), and active + expired is the store size. |
| Csrf.StatsPartition | src/lib/csrf.ts:276-282 | Active and expired entries are disjoint and together make up the store. |
| Csrf.OperationsPreserveWellFormedness | src/lib/csrf.ts:113-222 | Create, validate, invalidate and cleanup keep every key a 64-character hex token. |
| Csrf.IssuedTokenValidates | src/lib/csrf.ts:113-124 | A new token reads back its expiry through `getTokenExpiration`. It validates up to and including that instant, and validation leaves the store as it was. |
| Csrf.ValidationIsRepeatable | src/lib/csrf.ts:196-202 | Validation does not consume a token: a valid token is still valid when validated again. |
| Csrf.InvalidatedTokenIsUnknown | src/lib/csrf.ts:220-222 | After invalidation, the same token is refused as 'Invalid CSRF token'. |
| Csrf.InvalidateIsIdempotent | src/lib/csrf.ts:220-222 | Invalidating twice is the same as invalidating once. |
| Csrf.ExpiredTokenIsRemoved | src/lib/csrf.ts:186-194 | Past its expiry a token is reported expired. It is then absent from the store and unknown to the next validation. |
| Csrf.CleanupKeepsValidity | src/lib/csrf.ts:55-63 | A cleanup at or before the validation instant never changes whether a validation succeeds. |
| Csrf.CleanupLeavesNoExpired | src/lib/csrf.ts:55-63 | After a cleanup nothing is expired at that instant, and the set of active tokens is unchanged. |
| RateLimit.CurrentWindow | src/lib/rate-limit.ts:84-101 | The record a check decides on. An unseen or stale identifier (`now - windowStart >= windowMs`) gets `{0, now}`; any other identifier gets its stored record. |
| RateLimit.CheckRateLimit | src/lib/rate-limit.ts:76-130 | Afterwards a record for the identifier exists and no other record has changed. A stale window restarts at `now`. At or over the limit the result is rejected with remaining 0 and no increment. Otherwise the count rises by one and remaining = limit − count ≥ 0. In both cases resetAt = windowStart + windowMs. |
| RateLimit.GetRateLimitStatus | src/lib/rate-limit.ts:162-201 | An absent or stale record gives remaining = limit and resetAt = now + windowMs. Otherwise remaining = max(0, limit − count), allowed iff remaining > 0, and resetAt = windowStart + windowMs. It returns no store. |
| RateLimit.ResetRateLimit | src/lib/rate-limit.ts:143-145 | Removes that identifier's record and no other. |
| RateLimit.ResetStartsFresh | src/lib/rate-limit.ts:84-93 | After a reset, the next check on that identifier (with a positive limit) is admitted with limit − 1 remaining, a window opened at that instant and count 1. That is the same answer an empty store gives. |
| RateLimit.ResetIsIdempotent | src/lib/rate-limit.ts:143-145 | Resetting twice is the same as resetting once. |
| RateLimit.ClearAllRateLimits | src/lib/rate-limit.ts:212-214 | Leaves an empty store. |
| RateLimit.CleanupStaleRecords | src/lib/rate-limit.ts:46-55 | Keeps exactly the records with `windowStart >= now − 60000`, unchanged, whatever window the checks used. |
| RateLimit.TotalCountRemove | src/lib/rate-limit.ts:232-235 | The sum of the counts does not depend on the order in which records are visited. |
| RateLimit.GetRateLimitStats | src/lib/rate-limit.ts:228-242 | Reports the number of identifiers and the sum of all counts. |
| RateLimit.RunChecks | src/lib/rate-limit.ts:76-130 | A run of checks on one identifier gives one result per instant, and afterwards a record for that identifier exists. |
| RateLimit.RunIsolates | src/lib/rate-limit.ts:84-129 | A run of checks on one identifier leaves every other identifier's record unchanged, and neither adds nor removes any other identifier. |
| RateLimit.CountNeverExceedsLimit | src/lib/rate-limit.ts:104-121 | If every check uses the same limit L ≥ 0, the count never exceeds L, at any instants. |
| RateLimit.BurstWithinWindow | src/lib/rate-limit.ts:96-121 | From an unseen or stale identifier, checks inside the window the first one opens report remaining L−1, …, 0 and are then rejected. All of them report the same resetAt. |
| RateLimit.RunAppend | src/lib/rate-limit.ts:76-130 | Two batches of checks run one after the other give the same results as one combined batch. |
| RateLimit.CheckIsolatesIdentifiers | src/lib/rate-limit.ts:84-93 | A check on one identifier leaves unchanged the answer that a check on another identifier gets. |
| RateLimit.StaleWindowRestoresBudget | src/lib/rate-limit.ts:96-101 | Once a window has run out, the next check is admitted with remaining limit − 1 and resetAt = now + windowMs. |
| RateLimit.StatusPredictsCheck | src/lib/rate-limit.ts:162-201 | For a positive limit, a status read predicts the next check at the same instant: same decision and resetAt, and one less remaining when admitted. |
| RateLimit.CleanupInvisibleToDefaultWindow | src/lib/rate-limit.ts:46-55 | For windows no longer than the default, a cleanup never changes a later check's answer. |
| RateLimit.CleanupForgetsLongWindow | src/lib/rate-limit.ts:46-55 | With a 2-minute window, the cleanup can delete a live record and so admit a 6th request within the same window. |
| RateLimit.BoundaryBurst | src/lib/rate-limit.ts:96-121 | Because the window is fixed and restarts at `now`, an unseen identifier gets all 2·limit checks admitted. This holds for a full batch inside the first window followed by a full batch starting when that window ends, for example 0, 59999 (×4) and then 60000 (×5). |
| Validation.IndexOf | src/lib/validation.ts:17 | Finds the first occurrence of a character, or reports that there is none. |
| Validation.ValidateEmail | src/lib/validation.ts:10-19 | A non-string or an empty string is rejected. |
| Validation.ValidateEmailMatchesRegex | src/lib/validation.ts:17-18 | Accepts exactly the strings that `^[^\s@]+@[^\s@]+\.[^\s@]+$` matches, restated by the positions of the `@` and of a later `.`. |
| Validation.AcceptedMatchesRegex | src/lib/validation.ts:17-18 | Every accepted string matches the restated regular expression. |
| Validation.MatchAccepted | src/lib/validation.ts:17-18 | Every string the restated regular expression matches is accepted. |
| Validation.ValidateEmailSplit | src/lib/validation.ts:17-18 | `local + "@" + domain` is accepted iff local is non-empty and free of whitespace and `@`, and domain is free of both and has a `.` that is neither its first nor its last character. |
| Validation.AcceptedHasOneAt | src/lib/validation.ts:17 | An accepted address has exactly one `@`, and it is neither the first nor the last character. |
| Validation.AcceptedHasNoWhitespace | src/lib/validation.ts:17 | An accepted address contains no whitespace. |
| Js.TrimStart | src/app/api/newsletter/route.ts:90 | Drops exactly a leading whitespace run. |
| Js.TrimEnd | src/app/api/newsletter/route.ts:90 | Drops exactly a trailing whitespace run. |
| Js.Trim | src/app/api/newsletter/route.ts:90 | The result is the input with whitespace removed from both ends. It is empty iff the input is all whitespace. |
| Newsletter.FirstSegment | src/app/api/newsletter/route.ts:90 | The prefix before the first comma, or the whole string if there is none. |
| Newsletter.ClientKey | src/app/api/newsletter/route.ts:90-92 | The trimmed first `x-forwarded-for` hop if non-empty, else a non-empty `x-real-ip`, else `"unknown"`. It is never empty. |
| Newsletter.CeilDiv | src/app/api/newsletter/route.ts:106 | `Math.ceil(a / b)`: the least q with a ≤ q·b. |
| Newsletter.CsrfErrorText | src/app/api/newsletter/route.ts:70 | For every refusal the 403 detail is the validator's own message. The `||` fallback text never appears, because every message is non-empty. |
| Newsletter.RateLimitHeaders | src/app/api/newsletter/route.ts:107-109 | The X-RateLimit-* headers copy limit, remaining and resetAt. |
| Newsletter.Post | src/app/api/newsletter/route.ts:43-157 | An unparseable body gives 400 and a JSON `null` gives 500, both with stores untouched. The answer is 200 iff the token validates, the email is valid and the rate check admits. A 200 has removed the token. The only statuses are 200/400/403/429/500. |
| Newsletter.Get | src/app/api/newsletter/route.ts:163-172 | Always 405, unsuccessful. |
| Newsletter.InvalidTokenIsForbidden | src/app/api/newsletter/route.ts:63-74 | A refused token gives 403 with the validator's reason. The rate store is untouched, and the token store changes only by the validator's deletion of an expired entry. |
| Newsletter.TokenCheckPrecedesRateCheck | src/app/api/newsletter/route.ts:63-113 | With a refused token the response is 403 and the same whatever the rate store and whatever the email validator. |
| Newsletter.EmailFailureKeepsToken | src/app/api/newsletter/route.ts:76-87 | A valid token with a refused email gives 400 and leaves both stores unchanged, so the token stays usable. |
| Newsletter.RateLimitedKeepsToken | src/app/api/newsletter/route.ts:95-113 | A rejection gives 429 with limit 5, remaining 0 and resetAt in the headers. Retry-After is ceil((resetAt − now)/1000) ≥ 1, and the token is not invalidated. |
| Newsletter.SuccessConsumesToken | src/app/api/newsletter/route.ts:115-142 | When every check passes (token, email and rate limiter; `Post` equates this with a 200), the submitted token and only it is removed. The response reports the post-increment remaining (0 ≤ remaining < 5) and resetAt in the headers. |
| Newsletter.NoReplay | src/app/api/newsletter/route.ts:116 | After a request that passes every check (so a 200), the same token is refused with 403 'Invalid CSRF token' on any later request, and the rate store is untouched. |
| Newsletter.UnknownTokenIsForbidden | src/app/api/newsletter/route.ts:63-74 | A well-formed token missing from the store gives 403 'Invalid CSRF token' and changes neither store. |
| Newsletter.RateLimitedTokenSucceedsLater | src/app/api/newsletter/route.ts:95-142 | A token held back by a 429 succeeds once the client's window has run out, provided the token has not expired. |
| Newsletter.IssueSubmitReplay | src/app/api/newsletter/route.ts:43-142 | With no rate records yet, a fresh token used at once with a valid email gives 200 with remaining 4. Sending the same request again gives 403. |
| Frames.ToDecimal | src/components/BurgerSequenceCanvas.tsx:38 | `String(n)`: non-empty decimal digits without a leading zero, and 3 digits for 100..999. |
| Frames.ToDecimalValue | src/components/BurgerSequenceCanvas.tsx:38 | The digits read back as n. |
| Frames.PadStart | src/components/BurgerSequenceCanvas.tsx:38 | `padStart(width, '0')`: the result is at least `width` long, ends with the input, and is preceded only by `0`s. |
| Frames.LeadingZerosValue | src/components/BurgerSequenceCanvas.tsx:38 | Leading zeros do not change the value. |
| Frames.FrameNumber | src/components/BurgerSequenceCanvas.tsx:37 | Index i asks for a source frame that is a multiple of 4, and dividing by 4 recovers i. |
| Frames.PaddedFrameNumber | src/components/BurgerSequenceCanvas.tsx:37-38 | The padded digits read as 4·i, are at least 3 long, and are exactly 3 long for every index 0..47. |
| Frames.DelayTag | src/components/BurgerSequenceCanvas.tsx:42 | The tag is `041` or `042`. It is `041` iff the frame number is 1 modulo 3. |
| Frames.DelayTagByIndex | src/components/BurgerSequenceCanvas.tsx:42 | The tag is `041` iff i mod 3 = 1, and `042` otherwise. |
| Frames.JoinPath | src/components/BurgerSequenceCanvas.tsx:44 | The template literal, piece by piece: `/frames/frame_` (14 characters), then the number text, then `_delay-0.`, then the tag, then `s.jpg`. The length is 31 plus the length of the number text. |
| Frames.FramePath | src/components/BurgerSequenceCanvas.tsx:44 | The name is `/frames/frame_`, then the padded number, then `_delay-0.`, then the tag and `s.jpg`. It is 34 characters for indices 0..47. |
| Frames.FramePathInjective | src/components/BurgerSequenceCanvas.tsx:37-44 | The 48 file names are pairwise distinct. |
| Frames.LoadProgress | src/components/BurgerSequenceCanvas.tsx:50 | `Math.round(loaded / 48 * 100)` in integers: the nearest whole percentage, with halves rounded up. |
| Frames.LoadProgressMonotonic | src/components/BurgerSequenceCanvas.tsx:50 | Progress never decreases as the counter rises. |
| Frames.LoadEach | src/components/BurgerSequenceCanvas.tsx:30-71 | For any mapping from index to file name: every index is requested once, in order. A slot is filled exactly when its load succeeded. After each load the counter and the progress advance, on success and on error alike. |
| Frames.LoadImages | src/components/BurgerSequenceCanvas.tsx:30-71 | Indices 0..47 are requested once each, in order. A slot holds its image exactly when that load succeeded. The counter rises on success and on error, so it ends at 48 and the final progress is 100. |

## Left out

- Random sources: `crypto.getRandomValues` and the `Math.random` fallback of `generateRandomToken` are left out. The 32 random bytes are an input, and only the hex encoding is modelled.
- Timers: the two `setInterval` registrations are left out. Each cleanup body is a function of the store and `now`, and the interleaving of sweeps with requests is not modelled.
- Dates: `Date` objects, ISO-8601 formatting and header `toString` are left out. Instants and header values stay integers. The 429 error text keeps the reset instant instead of its ISO string.
- Framework: `NextRequest`/`NextResponse` and JSON parsing are left out. The parsed body is an input variant: unparseable, `null`, or the two destructured fields. A JSON number, string, boolean or array destructures without throwing to two `undefined` fields, so it is `Json(NonString, NonString)`.
- Newsletter.Post: the email oracle receives an `Unknown`, which does not distinguish non-string values from each other. `validateAndSanitizeEmail` therefore cannot be modelled as answering `5` differently from `null` or `undefined`.
- Newsletter.Post: the handler reads `Date.now()` three times (in CSRF validation, in the rate check, and for Retry-After). The model uses one instant for all three. The Retry-After ≥ 1 guarantee holds at that instant.
- Newsletter.Post: an exception thrown inside `validateAndSanitizeEmail` is not modelled. That function is not part of this model, and the oracle always answers.
- The `src/app/api/csrf-token/route.ts` endpoint is left out. It is a thin wrapper over `CreateCsrfToken` with fixed cache headers and an ISO date.
- In `BurgerSequenceCanvas.tsx`, the scroll-to-frame mapping, the canvas drawing and the resize handling (lines 84-200) are left out. They are floating-point canvas math and DOM calls. The frame images are their `src` strings, and the load outcomes are an input.
- Frames.LoadEach: there is one success-or-failure outcome per frame, so every image load is assumed to settle with `onload` or `onerror`. The source awaits each load with no time-out, and a load that never settles would stop the loop with the counter below 48. That case is not modelled.
- Frames.LoadImages: it rests on the same assumption as `Frames.LoadEach`, that every load settles.
- Frames.LoadProgress: it is computed in exact integers rather than floating point. The values agree, because the only half-way cases (6, 18, 30 and 42 of 48) are exact binary fractions.
- Strings are sequences of Unicode scalar values, while JavaScript lengths count UTF-16 units. Any character outside the Basic Multilingual Plane fails the `[0-9a-f]` test, so the CSRF verdict is the same either way. Lone surrogates cannot be represented.
- All presentational React code is left out (pages, layout, the other components, animation constants).
