/** `shouldRenewToken`: whether an access token issued at `timestamp` is in
    the window just before its expiry during which it is silently renewed.
    The clock and the two configured durations are parameters. */
module Renewal {

  /** The two durations of `TOKEN_CONFIG`, in milliseconds. */
  datatype TokenConfig = TokenConfig(accessTokenAge: int, renewalThreshold: int)

  /** The instant a token issued at `timestamp` stops being valid. */
  function ExpiresAt(config: TokenConfig, timestamp: int): int {
    timestamp + config.accessTokenAge
  }

  /** Reference reading of the policy: the token has not expired yet, and
      expires within the next `renewalThreshold` milliseconds. */
  predicate InRenewalWindow(config: TokenConfig, now: int, timestamp: int) {
    ExpiresAt(config, timestamp) - config.renewalThreshold < now < ExpiresAt(config, timestamp)
  }

  /** The policy as computed: `remaining = age limit - (now - timestamp)`,
      renew when `0 < remaining < threshold`. Equivalently, the issue time
      lies strictly between `now - accessTokenAge` and that plus the
      threshold. */
  function ShouldRenewToken(config: TokenConfig, now: int, timestamp: int): (renew: bool)
    ensures renew <==> now - config.accessTokenAge < timestamp < now - config.accessTokenAge + config.renewalThreshold
    ensures renew <==> InRenewalWindow(config, now, timestamp)
  {
    var age := now - timestamp;
    var remaining := config.accessTokenAge - age;
    remaining < config.renewalThreshold && remaining > 0
  }

  /** A token that has already expired is never offered for renewal, and
      neither is one with at least `renewalThreshold` milliseconds left. */
  lemma RenewalExcludesExpiredAndFresh(config: TokenConfig, now: int, timestamp: int)
    ensures now >= ExpiresAt(config, timestamp) ==> !ShouldRenewToken(config, now, timestamp)
    ensures ExpiresAt(config, timestamp) - now >= config.renewalThreshold ==> !ShouldRenewToken(config, now, timestamp)
  {
  }

  /** Seen over time, a token enters the renewal window at most once and
      leaves it at most once: between two instants at which it is renewable,
      it is renewable throughout. */
  lemma RenewalWindowIsInterval(config: TokenConfig, timestamp: int, t1: int, t2: int, t3: int)
    requires t1 <= t2 <= t3
    requires ShouldRenewToken(config, t1, timestamp) && ShouldRenewToken(config, t3, timestamp)
    ensures ShouldRenewToken(config, t2, timestamp)
  {
  }

  /** Some token is renewable at `now` exactly when the threshold leaves room
      for a whole millisecond strictly between zero and itself. */
  lemma RenewalWindowNonEmpty(config: TokenConfig, now: int)
    ensures (exists timestamp :: ShouldRenewToken(config, now, timestamp)) <==> config.renewalThreshold > 1
  {
    if config.renewalThreshold > 1 {
      var timestamp := now - config.accessTokenAge + 1;
      assert ShouldRenewToken(config, now, timestamp);
    }
  }

  /** A token issued just now is not renewed when the lifetime exceeds the
      threshold, which is how the durations are meant to be configured. */
  lemma FreshTokenNotRenewed(config: TokenConfig, now: int)
    requires 0 < config.renewalThreshold < config.accessTokenAge
    ensures !ShouldRenewToken(config, now, now)
  {
  }

  /** The boundary cases for a one-hour token with a five-minute window:
      200 s left renews, 600 s left does not, 100 s past expiry does not. */
  lemma RenewalBoundaryExamples(now: int)
    ensures ShouldRenewToken(TokenConfig(3600000, 300000), now, now - 3400000)
    ensures !ShouldRenewToken(TokenConfig(3600000, 300000), now, now - 3000000)
    ensures !ShouldRenewToken(TokenConfig(3600000, 300000), now, now - 3700000)
  {
  }
}
