/**
 * The per-identity cooldown guard: a map from an identity string (the
 * address-like key the caller supplies) to the claims recorded for it. An
 * identity may claim again only once more than one hour has passed since its
 * most recent claim. Times are milliseconds since the epoch, as integers.
 */
module Prevention {
  import opened Optional

  /** The cooldown window: one hour, in milliseconds. */
  const TIME_RESTRICTION: int := 60 * 60 * 1000

  /** Milliseconds in a minute: the source divides by 1000 and then by 60. */
  const MINUTE_MS: int := 1000 * 60

  const TIME_RESTRICTION_REASON: string := "Time restriction"

  datatype UserInfo = UserInfo(ipAddress: string, fingerprint: string, claimTime: int, couponId: string)

  datatype PreventionStatus = PreventionStatus(allowed: bool, reason: Option<string>, timeRemaining: Option<int>)

  const Allowed: PreventionStatus := PreventionStatus(true, None, None)

  function Denied(minutes: int): PreventionStatus
  {
    PreventionStatus(false, Some(TIME_RESTRICTION_REASON), Some(minutes))
  }

  /** `Math.ceil(ms / 1000 / 60)`: the least whole number of minutes covering `ms` milliseconds. */
  function CeilMinutes(ms: int): (m: int)
    ensures (m - 1) * MINUTE_MS < ms <= m * MINUTE_MS
  {
    -((-ms) / MINUTE_MS)
  }

  /** The `reduce` that keeps the record with the later claim time (the later one on a tie). */
  function Latest(claims: seq<UserInfo>): (latest: UserInfo)
    requires |claims| > 0
    ensures latest in claims
    ensures forall c :: c in claims ==> c.claimTime <= latest.claimTime
  {
    if |claims| == 1 then claims[0]
    else
      var prefix := claims[..|claims| - 1];
      var claim := claims[|claims| - 1];
      assert claims == prefix + [claim];
      var latest := Latest(prefix);
      if latest.claimTime > claim.claimTime then latest else claim
  }

  /** The decision once the time since the latest claim is known. */
  function DecideAfter(timeSinceLastClaim: int): (status: PreventionStatus)
    ensures status.allowed <==> timeSinceLastClaim > TIME_RESTRICTION
    ensures status.allowed ==> status.reason.None? && status.timeRemaining.None?
    ensures !status.allowed ==> status.reason == Some(TIME_RESTRICTION_REASON) && status.timeRemaining.Some?
  {
    if timeSinceLastClaim > TIME_RESTRICTION then Allowed
    else Denied(CeilMinutes(TIME_RESTRICTION - timeSinceLastClaim))
  }

  /** The eligibility decision for an identity whose recorded claims are `claims`. */
  function CanClaim(claims: seq<UserInfo>, now: int): (status: PreventionStatus)
    ensures |claims| == 0 ==> status == Allowed
    ensures status == Allowed || exists m :: status == Denied(m)
  {
    if |claims| == 0 then Allowed else DecideAfter(now - Latest(claims).claimTime)
  }

  /** An identity without claims is always allowed. */
  lemma FreshIdentityIsAllowed(now: int)
    ensures CanClaim([], now) == Allowed
  {
  }

  /** The cooldown is strict: a claim is allowed only when MORE than one hour has passed since
      the latest one, so exactly one hour is still denied. */
  lemma CooldownIsStrict(claims: seq<UserInfo>, now: int)
    requires |claims| > 0
    ensures CanClaim(claims, now).allowed <==> now - Latest(claims).claimTime > TIME_RESTRICTION
    ensures now == Latest(claims).claimTime + TIME_RESTRICTION ==> CanClaim(claims, now) == Denied(0)
  {
  }

  /** A denial gives the reason and the minutes left, rounded up; with a clock that has not run
      backwards these lie between 0 and 60. */
  lemma DenialReportsMinutesLeft(timeSinceLastClaim: int)
    requires !DecideAfter(timeSinceLastClaim).allowed
    ensures var remaining := TIME_RESTRICTION - timeSinceLastClaim;
      exists m :: DecideAfter(timeSinceLastClaim) == Denied(m) && (m - 1) * MINUTE_MS < remaining <= m * MINUTE_MS
    ensures timeSinceLastClaim >= 0 ==> 0 <= DecideAfter(timeSinceLastClaim).timeRemaining.value <= 60
  {
  }

  /** The latest claim time does not depend on the order in which the claims were recorded. */
  lemma {:induction false} LatestIgnoresOrder(xs: seq<UserInfo>, ys: seq<UserInfo>)
    requires |xs| > 0 && multiset(xs) == multiset(ys)
    ensures |ys| > 0
    ensures Latest(xs).claimTime == Latest(ys).claimTime
  {
    assert Latest(xs) in multiset(ys);
    assert |ys| > 0;
    assert Latest(ys) in multiset(xs);
  }

  /** So neither does the decision: it is determined by the largest claim time alone. */
  lemma DecisionIgnoresOrder(xs: seq<UserInfo>, ys: seq<UserInfo>, now: int)
    requires multiset(xs) == multiset(ys)
    ensures CanClaim(xs, now) == CanClaim(ys, now)
  {
    if |xs| > 0 {
      LatestIgnoresOrder(xs, ys);
    } else {
      assert |ys| == |multiset(ys)| == 0;
    }
  }

  /** Once allowed, an identity stays allowed as time moves on while nothing new is recorded. */
  lemma AllowedStaysAllowed(claims: seq<UserInfo>, now: int, later: int)
    requires CanClaim(claims, now).allowed && now <= later
    ensures CanClaim(claims, later).allowed
  {
  }

  /** The cooling-down state ends: more than an hour after the latest recorded claim, the identity
      is allowed again. */
  lemma CooldownElapses(claims: seq<UserInfo>, lastClaim: int, now: int)
    requires forall c :: c in claims ==> c.claimTime <= lastClaim
    requires now > lastClaim + TIME_RESTRICTION
    ensures CanClaim(claims, now) == Allowed
  {
  }

  /** A claim recorded at `now` puts the identity into cooldown at once, and, when no earlier
      record lies in the future, with the full 60 minutes to wait. */
  lemma RecordedClaimCoolsDown(claims: seq<UserInfo>, userInfo: UserInfo, now: int)
    ensures !CanClaim(claims + [userInfo.(claimTime := now)], now).allowed
    ensures (forall c :: c in claims ==> c.claimTime <= now) ==>
      CanClaim(claims + [userInfo.(claimTime := now)], now) == Denied(60)
  {
  }

  // ---------------------------------------------------------------------------
  // The guard: the module-level claim map as the field of one object
  // ---------------------------------------------------------------------------

  class ClaimGuard {
    var ipClaimMap: map<string, seq<UserInfo>>

    constructor ()
      ensures ipClaimMap == map[]
    {
      ipClaimMap := map[];
    }

    /** The claims recorded for `ip`, or none. */
    function ClaimsOf(ip: string): seq<UserInfo>
      reads this
    {
      if ip in ipClaimMap then ipClaimMap[ip] else []
    }

    /** Reads the map and the clock, and changes nothing. */
    function CanClaimByIp(ip: string, now: int): (status: PreventionStatus)
      reads this
      ensures (ip !in ipClaimMap || ipClaimMap[ip] == []) ==> status == Allowed
      ensures ip in ipClaimMap && ipClaimMap[ip] != [] ==>
        (status.allowed <==> now - Latest(ipClaimMap[ip]).claimTime > TIME_RESTRICTION)
    {
      CanClaim(ClaimsOf(ip), now)
    }

    /** Appends one record for the claimant's identity, stamped with `now` whatever claim time the
        caller passed; creates the list when the identity is new. */
    method RecordClaim(userInfo: UserInfo, now: int)
      modifies this
      ensures ipClaimMap == old(ipClaimMap)[userInfo.ipAddress := old(ClaimsOf(userInfo.ipAddress)) + [userInfo.(claimTime := now)]]
      ensures !CanClaimByIp(userInfo.ipAddress, now).allowed
    {
      if userInfo.ipAddress !in ipClaimMap {
        ipClaimMap := ipClaimMap[userInfo.ipAddress := []];
      }
      ipClaimMap := ipClaimMap[userInfo.ipAddress := ipClaimMap[userInfo.ipAddress] + [userInfo.(claimTime := now)]];
      RecordedClaimCoolsDown(old(ClaimsOf(userInfo.ipAddress)), userInfo, now);
    }

    /** Deletes every identity, one key at a time, leaving every identity allowed. */
    method ResetClaimHistory()
      modifies this
      ensures ipClaimMap == map[]
      ensures forall ip, now :: CanClaimByIp(ip, now) == Allowed
    {
      var keys := ipClaimMap.Keys;
      while keys != {}
        invariant ipClaimMap.Keys == keys
        decreases keys
      {
        var key :| key in keys;
        ipClaimMap := ipClaimMap - {key};
        keys := keys - {key};
      }
    }
  }
}
