# Middleware access-token signing and renewal

A Dafny model of `src/lib/middleware-auth.ts`, the part of the session layer
that mints and renews short-lived access tokens:

- **Signer** (`generateSignatureForMiddleware`): HMAC-SHA256 over the UTF-8
  bytes of a string, keyed by the UTF-8 bytes of the secret. The 32-byte MAC is
  rendered as lower-case hexadecimal, byte by byte, via
  `b.toString(16).padStart(2, '0')` and `join('')`. Module `HexEncoding` models
  that rendering concretely. It also has a decoder, the reference the encoder is
  proved against. Module `Signer` composes the rendering with the HMAC.
- **Renewal policy** (`shouldRenewToken`): with `remaining = ACCESS_TOKEN_AGE - (now - timestamp)`,
  a token is renewed iff `0 < remaining < RENEWAL_THRESHOLD`. This is module
  `Renewal`.
- **Refresh orchestration** (`refreshAccessToken`): ask the refresh-token store
  whether `(username, tokenId, refreshToken)` is valid. On rejection, return
  nothing. Otherwise, stamp the current time, sign the JSON text of
  `{username, role, timestamp}` and return the seven-field envelope. This is
  module `TokenRefresh`. The result also records, in order, the verifier
  call, the clock read and the HMAC computation (`importKey` and `sign` as
  one entry), so that "nothing is signed on rejection" can be stated.

Foreign code and ambient state are passed in as parameters:

- HMAC-SHA256 and `TextEncoder.encode` are function fields of `Signer.WebCrypto`.
  The HMAC's result type `Digest` fixes its length at 32 bytes.
- `JSON.stringify` of the signed record is the `stringify` parameter.
- `verifyRefreshToken` is a function parameter.
- `Date.now()` is the `now` parameter.
- `process.env.PASSWORD` is an `Option<string>`.
- `TOKEN_CONFIG` is a `Renewal.TokenConfig` value.

The signed record's key for the user is `username` (line 49).

## Model

| member | source | states |
|---|---|---|
| `HexEncoding.Digit` | src/lib/middleware-auth.ts:25 | the digit rendered for a nibble is in `0-9a-f` and reads back as that nibble |
| `HexEncoding.ToRadix16` | src/lib/middleware-auth.ts:25 | `toString(16)` gives a non-empty lower-case numeral that parses back to the number and has no leading zero; below 16 it is one digit, below 256 at most two |
| `HexEncoding.PadStart` | src/lib/middleware-auth.ts:25 | `padStart` yields the target length (or the original if longer), ends with the original string and is filled with the pad character in front |
| `HexEncoding.ByteToHex` | src/lib/middleware-auth.ts:25 | each byte becomes exactly two characters: the high-nibble digit, then the low-nibble digit (zero-padded) |
| `HexEncoding.Encode` | src/lib/middleware-auth.ts:24-26 | the rendered MAC is twice as long as the byte sequence and consists only of `0-9a-f` |
| `HexEncoding.IsLowerHexEveryChar` | src/lib/middleware-auth.ts:24-26 | the alphabet predicate used on rendered strings holds iff every character is in `0-9a-f` |
| `HexEncoding.EncodeAt` | src/lib/middleware-auth.ts:24-26 | characters `2i` and `2i+1` of the rendering are the two digits of byte `i` (byte order kept) |
| `HexEncoding.Decode` | src/lib/middleware-auth.ts:24-26 | reading hex back succeeds iff the string has even length and only lower-case hex digits, giving half as many bytes |
| `HexEncoding.DecodeEncode` | src/lib/middleware-auth.ts:24-26 | decoding a rendered byte sequence returns exactly that sequence |
| `HexEncoding.EncodeDecode` | src/lib/middleware-auth.ts:24-26 | every even-length lower-case hex string is the rendering of the bytes it decodes to |
| `HexEncoding.EncodeInjective` | src/lib/middleware-auth.ts:24-26 | two byte sequences render identically iff they are equal |
| `Signer.GenerateSignature` | src/lib/middleware-auth.ts:6-27 | the signature is 64 lower-case hex characters that decode to the HMAC-SHA256 of the UTF-8 data under the UTF-8 secret |
| `Signer.SignatureMatchesMac` | src/lib/middleware-auth.ts:22-26 | two signatures are equal iff the underlying MACs are equal |
| `Renewal.ShouldRenewToken` | src/lib/middleware-auth.ts:75-80 | renew iff `now - ACCESS_TOKEN_AGE < timestamp < now - ACCESS_TOKEN_AGE + RENEWAL_THRESHOLD`, i.e. iff the token has not expired and expires within the threshold |
| `Renewal.RenewalExcludesExpiredAndFresh` | src/lib/middleware-auth.ts:79 | an expired token (`remaining <= 0`) and one with `remaining >= RENEWAL_THRESHOLD` are never renewed |
| `Renewal.RenewalWindowIsInterval` | src/lib/middleware-auth.ts:75-80 | over time a token's renewable instants form one interval |
| `Renewal.RenewalWindowNonEmpty` | src/lib/middleware-auth.ts:79 | some issue time is renewable at `now` iff `RENEWAL_THRESHOLD > 1` (both bounds are strict) |
| `Renewal.FreshTokenNotRenewed` | src/lib/middleware-auth.ts:76-79 | with `0 < RENEWAL_THRESHOLD < ACCESS_TOKEN_AGE`, a token issued at `now` is not renewed |
| `Renewal.RenewalBoundaryExamples` | src/lib/middleware-auth.ts:75-80 | with a one-hour lifetime and five-minute threshold: 200 s left renews, 600 s left and 100 s past expiry do not |
| `TokenRefresh.SecretFromEnv` | src/lib/middleware-auth.ts:56 | the secret is empty iff the variable is unset or empty, and is the variable's value otherwise |
| `TokenRefresh.RefreshAccessToken` | src/lib/middleware-auth.ts:30-72 | no envelope iff the verifier rejects `(username, tokenId, refreshToken)`; the verifier is the first call; on success the envelope carries the five inputs unchanged and `timestamp = now`, is authentic for `{username, role, now}`, and the calls are verify, read clock, HMAC over the payload's bytes |
| `TokenRefresh.RejectionSkipsSigning` | src/lib/middleware-auth.ts:38-43 | on rejection no HMAC is computed and the clock is not read |
| `TokenRefresh.SignatureIgnoresCarriedFields` | src/lib/middleware-auth.ts:48-67 | accepted refreshes differing only in `tokenId`, `refreshToken`, `refreshExpires` carry the same signature |
| `TokenRefresh.CarriedFieldsUnprotected` | src/lib/middleware-auth.ts:59-67 | rewriting the three unsigned fields of an authentic envelope keeps it authentic |
| `TokenRefresh.SignatureCollisionIsMacCollision` | src/lib/middleware-auth.ts:48-57 | two authentic envelopes under one secret with equal signatures have equal MACs over their signed payloads |
| `TokenRefresh.RefreshesAtDifferentTimesDiffer` | src/lib/middleware-auth.ts:45-57 | accepted refreshes at different instants have different timestamps and different signed messages, and their signatures agree iff the HMAC collides on those messages |

## Left out

- HMAC-SHA256 itself (`crypto.subtle.importKey` / `sign`, lines 14-22) is a foreign Web Crypto call. It is a function parameter whose only known property is its 32-byte result. A possible rejection of an empty key by the primitive is not modelled: the model's HMAC is total.
- `TextEncoder` (UTF-8, lines 10-12) and `JSON.stringify` of the signed record (lines 48-52) are function parameters. JSON escaping is not re-implemented.
- The final `JSON.stringify` of the envelope and its `encodeURIComponent` (line 71) are transport encoding. The envelope is a record, not a percent-encoded string.
- `verifyRefreshToken` and `TOKEN_CONFIG` come from `./refresh-token`, which is not part of this model. The verdict is a function parameter; the two durations form `Renewal.TokenConfig`.
- The call trace of `TokenRefresh.Refreshed` is not a complete list of outside calls. It omits `TextEncoder.encode` (lines 11-12), both `JSON.stringify` calls (lines 48, 71), `encodeURIComponent` (line 71) and `console.log` (lines 41, 69). It records `importKey` and `sign` (lines 14-22) as a single `HmacSign` entry.
- Strings are Dafny strings of Unicode scalar values. JavaScript strings may hold lone UTF-16 surrogates, which `TextEncoder` turns into U+FFFD; such inputs are not representable. No proved property depends on this, since every string is passed through or handed to an abstract function.
- `console.log`, `async`/`await`, and exceptions thrown by the verifier or the Web Crypto calls are not modelled. Such exceptions propagate to the caller unchanged.
- `Date.now()` and `process.env.PASSWORD` are ambient state. They are the `now` and `password` parameters.
- JavaScript numbers are doubles. Times are modelled as unbounded integers. Millisecond timestamps and the configured durations are integers well inside the exactly representable range.
- A non-integer or `NaN` `timestamp` passed to `shouldRenewToken` is not modelled.
- RefreshesAtDifferentTimesDiffer: does not claim that signatures at different times differ, only that they differ unless HMAC collides. It assumes distinct payloads serialise to distinct bytes; HMAC cannot be injective on unbounded messages.
- SignatureCollisionIsMacCollision: states tamper-evidence relative to HMAC collisions, for the same reason.
