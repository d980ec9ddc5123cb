/** `refreshAccessToken`: exchanges a refresh token the external store
    accepts for a freshly stamped and signed access-token envelope. The
    store's check, the clock, the `PASSWORD` environment variable and
    `JSON.stringify` of the signed record are parameters. */
module TokenRefresh {
  import opened Wrappers
  import opened HexEncoding
  import opened Signer

  /** The record whose JSON text is signed: exactly these three fields. */
  datatype SignPayload = SignPayload(username: string, role: string, timestamp: int)

  /** The access-token envelope handed back to the caller (before it is
      serialised and percent-encoded for transport). */
  datatype Envelope = Envelope(
    username: string,
    role: string,
    timestamp: int,
    tokenId: string,
    refreshToken: string,
    refreshExpires: int,
    signature: string)

  /** The outside calls the trace records: the verifier, the clock read and
      the HMAC computation (`importKey` and `sign` as one entry). Text
      encoding, JSON serialisation and logging are not recorded. */
  datatype ExternalCall =
    | VerifyRefreshToken(username: string, tokenId: string, refreshToken: string)
    | ReadClock
    | HmacSign(key: seq<byte>, message: seq<byte>)

  /** What one refresh produces: the envelope, or None when the refresh
      token is rejected, together with the external calls it made. */
  datatype Refreshed = Refreshed(token: Option<Envelope>, calls: seq<ExternalCall>)

  /** `process.env.PASSWORD || ''`: an unset or empty variable yields the
      empty secret, any other value is used as is. */
  function SecretFromEnv(password: Option<string>): (secret: string)
    ensures password.Some? && password.value != "" ==> secret == password.value
    ensures secret == "" <==> password.None? || password.value == ""
  {
    if password.Some? && password.value != "" then password.value else ""
  }

  /** The fields of an envelope that its signature covers. */
  function PayloadOf(envelope: Envelope): SignPayload {
    SignPayload(envelope.username, envelope.role, envelope.timestamp)
  }

  /** An envelope whose signature is the one the signer gives for its own
      username, role and timestamp under `secret`. */
  predicate IsAuthentic(crypto: WebCrypto, stringify: SignPayload -> string, secret: string, envelope: Envelope) {
    envelope.signature == GenerateSignature(crypto, stringify(PayloadOf(envelope)), secret)
  }

  /** The refresh as a whole. The verifier is consulted first and only with
      the username, token id and refresh token; on rejection nothing else
      happens. On acceptance the clock is read, the three-field payload is
      signed, and every other field is carried through unchanged. */
  function RefreshAccessToken(
    crypto: WebCrypto,
    stringify: SignPayload -> string,
    verifyRefreshToken: (string, string, string) -> bool,
    now: int,
    password: Option<string>,
    username: string,
    role: string,
    tokenId: string,
    refreshToken: string,
    refreshExpires: int): (r: Refreshed)
    ensures r.token.None? <==> !verifyRefreshToken(username, tokenId, refreshToken)
    ensures |r.calls| >= 1 && r.calls[0] == VerifyRefreshToken(username, tokenId, refreshToken)
    ensures r.token.None? ==> |r.calls| == 1
    ensures r.token.Some? ==>
      var e := r.token.value;
      && e.username == username && e.role == role && e.timestamp == now
      && e.tokenId == tokenId && e.refreshToken == refreshToken && e.refreshExpires == refreshExpires
      && IsAuthentic(crypto, stringify, SecretFromEnv(password), e)
      && r.calls == [
        VerifyRefreshToken(username, tokenId, refreshToken),
        ReadClock,
        HmacSign(crypto.encode(SecretFromEnv(password)), crypto.encode(stringify(SignPayload(username, role, now))))]
  {
    var verify := VerifyRefreshToken(username, tokenId, refreshToken);
    if !verifyRefreshToken(username, tokenId, refreshToken) then
      Refreshed(None, [verify])
    else
      var dataToSign := stringify(SignPayload(username, role, now));
      var secret := SecretFromEnv(password);
      var signature := GenerateSignature(crypto, dataToSign, secret);
      var sign := HmacSign(crypto.encode(secret), crypto.encode(dataToSign));
      Refreshed(
        Some(Envelope(username, role, now, tokenId, refreshToken, refreshExpires, signature)),
        [verify, ReadClock, sign])
  }

  /** A rejected refresh token never reaches the signer: no HMAC is computed
      and the clock is not read. */
  lemma RejectionSkipsSigning(
    crypto: WebCrypto, stringify: SignPayload -> string, verifyRefreshToken: (string, string, string) -> bool,
    now: int, password: Option<string>,
    username: string, role: string, tokenId: string, refreshToken: string, refreshExpires: int)
    requires !verifyRefreshToken(username, tokenId, refreshToken)
    ensures var r := RefreshAccessToken(crypto, stringify, verifyRefreshToken, now, password,
                                        username, role, tokenId, refreshToken, refreshExpires);
      r.token.None? && forall c :: c in r.calls ==> !c.HmacSign? && !c.ReadClock?
  {
  }

  /** The signature depends only on the username, role and issue time: two
      accepted refreshes that differ in token id, refresh token or refresh
      expiry carry the same signature. */
  lemma SignatureIgnoresCarriedFields(
    crypto: WebCrypto, stringify: SignPayload -> string, verifyRefreshToken: (string, string, string) -> bool,
    now: int, password: Option<string>, username: string, role: string,
    tokenId1: string, refreshToken1: string, refreshExpires1: int,
    tokenId2: string, refreshToken2: string, refreshExpires2: int)
    requires verifyRefreshToken(username, tokenId1, refreshToken1)
    requires verifyRefreshToken(username, tokenId2, refreshToken2)
    ensures
      var r1 := RefreshAccessToken(crypto, stringify, verifyRefreshToken, now, password,
                                   username, role, tokenId1, refreshToken1, refreshExpires1);
      var r2 := RefreshAccessToken(crypto, stringify, verifyRefreshToken, now, password,
                                   username, role, tokenId2, refreshToken2, refreshExpires2);
      r1.token.Some? && r2.token.Some? && r1.token.value.signature == r2.token.value.signature
  {
  }

  /** Rewriting the unsigned fields of an authentic envelope leaves it
      authentic: they are not protected by the signature. */
  lemma CarriedFieldsUnprotected(
    crypto: WebCrypto, stringify: SignPayload -> string, secret: string, envelope: Envelope,
    tokenId: string, refreshToken: string, refreshExpires: int)
    requires IsAuthentic(crypto, stringify, secret, envelope)
    ensures IsAuthentic(crypto, stringify, secret,
      envelope.(tokenId := tokenId, refreshToken := refreshToken, refreshExpires := refreshExpires))
  {
  }

  /** Tampering with a signed field goes unnoticed only through an HMAC
      collision: if two authentic envelopes under one secret carry the same
      signature, the MACs of their two signed payloads coincide. */
  lemma SignatureCollisionIsMacCollision(
    crypto: WebCrypto, stringify: SignPayload -> string, secret: string, e1: Envelope, e2: Envelope)
    requires IsAuthentic(crypto, stringify, secret, e1)
    requires IsAuthentic(crypto, stringify, secret, e2)
    requires e1.signature == e2.signature
    ensures Mac(crypto, stringify(PayloadOf(e1)), secret) == Mac(crypto, stringify(PayloadOf(e2)), secret)
  {
    SignatureMatchesMac(crypto, stringify(PayloadOf(e1)), secret, stringify(PayloadOf(e2)), secret);
  }

  /** Two accepted refreshes at different instants stamp different times, so
      their signatures can agree only through an HMAC collision on two
      different messages (given, as for JSON text and UTF-8, that distinct
      payloads serialise to distinct bytes). */
  lemma RefreshesAtDifferentTimesDiffer(
    crypto: WebCrypto, stringify: SignPayload -> string, verifyRefreshToken: (string, string, string) -> bool,
    now1: int, now2: int, password: Option<string>,
    username: string, role: string, tokenId: string, refreshToken: string, refreshExpires: int)
    requires verifyRefreshToken(username, tokenId, refreshToken)
    requires now1 != now2
    requires forall p, q :: crypto.encode(stringify(p)) == crypto.encode(stringify(q)) ==> p == q
    ensures
      var r1 := RefreshAccessToken(crypto, stringify, verifyRefreshToken, now1, password,
                                   username, role, tokenId, refreshToken, refreshExpires);
      var r2 := RefreshAccessToken(crypto, stringify, verifyRefreshToken, now2, password,
                                   username, role, tokenId, refreshToken, refreshExpires);
      var key := crypto.encode(SecretFromEnv(password));
      var m1 := crypto.encode(stringify(SignPayload(username, role, now1)));
      var m2 := crypto.encode(stringify(SignPayload(username, role, now2)));
      && r1.token.value.timestamp != r2.token.value.timestamp
      && m1 != m2
      && (r1.token.value.signature == r2.token.value.signature <==> crypto.hmacSha256(key, m1) == crypto.hmacSha256(key, m2))
  {
    var secret := SecretFromEnv(password);
    SignatureMatchesMac(crypto, stringify(SignPayload(username, role, now1)), secret,
                        stringify(SignPayload(username, role, now2)), secret);
  }
}
