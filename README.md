# Round-robin coupon distribution: a Dafny model

This project models the two in-memory services of a client-side coupon
demo:

- the **coupon registry** (`src/utils/couponDistribution.ts`). It holds a pool
  of coupons and a cursor. `getNextCoupon` hands out coupons in round-robin
  order, skipping any that are claimed or expired. `claimCoupon` marks one
  coupon as claimed. `addCoupon` appends a coupon and `resetCoupons`
  restores the five seed coupons.
- the **claim guard** (`src/utils/prevention.ts`). It maps an identity
  string to the claims recorded for it. `canClaimByIp` allows a new claim
  only when more than one hour has passed since that identity's latest
  claim. `recordClaim` appends a record and `resetClaimHistory` forgets
  every identity.

Layout:

- `optional.dfy`: module `Optional`, the `Option` type. It stands for
  `T | null` and for the optional fields of a coupon.
- `coupon_distribution.dfy`: module `CouponDistribution`. It holds the
  `Coupon` datatype and pure functions that specify each operation
  (`NextCoupon`, `Claim`, `Reseed`, `FindIndex`). It holds the lemmas about
  those functions. It also holds the class `CouponRegistry`, whose fields
  are the module-level `availableCoupons` and `currentCouponIndex` and the
  seed list. Each method of the class is proved equal to its specification
  function. `GetNextCoupon` keeps the source's scanning loop, with its
  invariants.
- `prevention.dfy`: module `Prevention`. It holds `UserInfo`,
  `PreventionStatus`, the max-fold `Latest` and the decision `CanClaim`,
  with lemmas about them. It also holds the class `ClaimGuard`, whose field
  is the module-level `ipClaimMap`. `ResetClaimHistory` keeps the source's
  delete-each-key loop.

Modelling choices:

- The clock is a parameter `now`, in milliseconds, and every `Date` is an
  integer number of milliseconds.
- The seed's expiry dates are computed from the module's load time, so the
  constructor of `CouponRegistry` takes that time as `loadTime`.
- Coupon ids stay strings. `NatToString` models `(n).toString()` for the id
  `addCoupon` assigns. `Valid()` keeps the invariant that the coupon at
  position `i` has id `i + 1`, so ids never collide.
- `Math.ceil(ms / 1000 / 60)` is integer ceiling division by 60,000
  (`CeilMinutes`). This is exact for integer milliseconds.

The page tells users that each of them can claim one coupon per hour
(`src/components/CouponSystem.tsx:181`). The code compares the elapsed time
with a strict `>` (`src/utils/prevention.ts:29`), so at exactly one hour the
claim is still denied, with 0 minutes remaining. `CooldownIsStrict` states
this.

## Model

| member | source | states |
|---|---|---|
| `CouponDistribution.NatToString` | src/utils/couponDistribution.ts:62 | the decimal numeral of the new id is non-empty, and has a single digit exactly for numbers below 10 |
| `CouponDistribution.NatToStringInjective` | src/utils/couponDistribution.ts:62 | different numbers give different id strings |
| `CouponDistribution.SampleCoupons` | src/utils/couponDistribution.ts:5-41 | the seed holds five coupons, all unclaimed with no claimant and no claim time, each expiring at least seven days after the module loads |
| `CouponDistribution.SampleCouponsAreNumbered` | src/utils/couponDistribution.ts:5-41 | the five seed coupons carry the ids "1" to "5" in order |
| `CouponDistribution.SequentialIdsAreUnique` | src/utils/couponDistribution.ts:59-68 | in a pool numbered by position, no two coupons share an id |
| `CouponDistribution.FindIndex` | src/utils/couponDistribution.ts:104 | the result is -1 exactly when no coupon has the id; otherwise it is the first position holding the id |
| `CouponDistribution.FindIndexOfNumberedId` | src/utils/couponDistribution.ts:104 | in a pool numbered by position, the coupon with id k is found at position k - 1 |
| `CouponDistribution.CircularIndex` | src/utils/couponDistribution.ts:86 | stepping the cursor with `% length` always lands inside the pool |
| `CouponDistribution.CircularStep` | src/utils/couponDistribution.ts:86-95 | advancing the cursor by one with `% length` counts steps from the start, and the cursor is back at the start exactly after a full turn |
| `CouponDistribution.CircularIndexIsBijective` | src/utils/couponDistribution.ts:82-95 | one full turn from any start visits every position of the pool exactly once |
| `CouponDistribution.Eligible` | src/utils/couponDistribution.ts:89 | a coupon is handed out only when it is unclaimed and expires strictly after now; `NextCouponIsNullIffNoneEligible` and `NextCouponIsFirstEligible` state the scan in its terms |
| `CouponDistribution.FirstEligibleFrom` | src/utils/couponDistribution.ts:82-95 | the offset found lies in the range still to be scanned |
| `CouponDistribution.FirstEligibleFromIsLeast` | src/utils/couponDistribution.ts:82-95 | the offset found is the least one whose coupon is unclaimed and unexpired; none is found only when no such offset exists |
| `CouponDistribution.NextCoupon` | src/utils/couponDistribution.ts:73-98 | the cursor stays in bounds; an empty pool gives null and leaves the cursor unchanged |
| `CouponDistribution.NextCouponIsNullIffNoneEligible` | src/utils/couponDistribution.ts:82-97 | null is returned exactly when no coupon is both unclaimed and expiring strictly after now, and then the cursor is back at its starting value |
| `CouponDistribution.NextCouponIsFirstEligible` | src/utils/couponDistribution.ts:79-91 | a non-null result is the first eligible coupon at or after the old cursor in circular order, and the cursor then points just past it, modulo the pool length |
| `CouponDistribution.RoundRobinVisitsEachOnce` | src/utils/couponDistribution.ts:73-98 | when every coupon is eligible, any number of consecutive calls hand out the coupons in circular order from the cursor; the first pool-length offers come from pairwise distinct positions, the offers repeat with period pool length, and after k calls the cursor has moved k steps modulo the pool length |
| `CouponDistribution.NextCouponSkipsClaimed` | src/utils/couponDistribution.ts:89 | a claimed coupon is never handed out, so the next call after a claim does not offer the claimed coupon again |
| `CouponDistribution.ClaimedIdIsNotOfferedNext` | src/utils/couponDistribution.ts:86-118 | in a pool numbered by position, after a successful claim no later call offers a coupon with the claimed id, whatever the cursor and the clock |
| `CouponDistribution.Claim` | src/utils/couponDistribution.ts:103-119 | a claim never changes the pool length |
| `CouponDistribution.ClaimFailsWhenUnknownOrTaken` | src/utils/couponDistribution.ts:103-108 | a claim returns null exactly when no coupon has the id or the first one with it is already claimed, and then the pool is unchanged; expiry is not checked |
| `CouponDistribution.ClaimSucceedsOnFirstUnclaimedMatch` | src/utils/couponDistribution.ts:104-118 | a successful claim replaces only the first coupon with the id by a copy with claimed set, claimedBy the claimant's address and claimedAt the current time, every other field kept; it returns that copy and leaves every other coupon unchanged |
| `CouponDistribution.ClaimNeverUnclaims` | src/utils/couponDistribution.ts:111-116 | a claim keeps every id and never clears a claim |
| `CouponDistribution.NewCoupon` | src/utils/couponDistribution.ts:60-64 | the coupon `addCoupon` builds from the caller's fields, unclaimed and with the given id; `CouponRegistry.AddCoupon` states the id it receives and where it goes |
| `CouponDistribution.Cleared` | src/utils/couponDistribution.ts:125-130 | a seed coupon with claimed false and no claimant or claim time; `Reseed` states this field by field |
| `CouponDistribution.Reseed` | src/utils/couponDistribution.ts:125-130 | the reset pool has the seed's length, ids, codes, descriptions and expiry dates, with every claim cleared |
| `CouponDistribution.ReseedRestoresSample` | src/utils/couponDistribution.ts:5-47 | resetting recreates exactly the pool the registry started with |
| `CouponDistribution.TwoCouponScenario` | src/utils/couponDistribution.ts:73-132 | with two eligible coupons A and B and the cursor at 0: A is offered and claimed, then B is offered and claimed, then null; after a reset A is offered first again |
| `CouponDistribution.CouponRegistry.constructor` | src/utils/couponDistribution.ts:5-47 | the pool starts as the seed list and the cursor starts at 0 |
| `CouponDistribution.CouponRegistry.GetCoupons` | src/utils/couponDistribution.ts:52-54 | returns the whole pool in insertion order, claimed coupons included |
| `CouponDistribution.CouponRegistry.AddCoupon` | src/utils/couponDistribution.ts:59-68 | the pool grows by exactly the new coupon, which is unclaimed, has id old length + 1 and the caller's other fields; earlier coupons and the cursor are unchanged |
| `CouponDistribution.CouponRegistry.GetNextCoupon` | src/utils/couponDistribution.ts:73-98 | the scanning loop returns the coupon and leaves the cursor that `NextCoupon` specifies, never changes the pool, and looks at no more positions than the pool holds, at all of them when it returns null |
| `CouponDistribution.CouponRegistry.ClaimCoupon` | src/utils/couponDistribution.ts:103-119 | the result and the new pool are those `Claim` specifies; the cursor is unchanged |
| `CouponDistribution.CouponRegistry.ResetCoupons` | src/utils/couponDistribution.ts:124-132 | the pool becomes the cleared seed list and the cursor becomes 0 |
| `Prevention.CeilMinutes` | src/utils/prevention.ts:38 | the result is the least whole number of minutes covering the given milliseconds |
| `Prevention.Latest` | src/utils/prevention.ts:22-24 | the fold returns one of the records, and its claim time is the largest of all of them |
| `Prevention.DecideAfter` | src/utils/prevention.ts:26-39 | allowed exactly when the time since the latest claim exceeds 3,600,000 ms, and then with no reason or minutes; otherwise denied with the reason "Time restriction" and a number of minutes |
| `Prevention.CanClaim` | src/utils/prevention.ts:13-40 | an identity with no records is allowed; every result is either a bare allowance or a denial carrying the reason and the minutes left |
| `Prevention.FreshIdentityIsAllowed` | src/utils/prevention.ts:14-19 | an identity with no records is allowed |
| `Prevention.CooldownIsStrict` | src/utils/prevention.ts:26-31 | a claim is allowed exactly when more than 3,600,000 ms have passed since the latest claim; at exactly one hour it is denied with 0 minutes left |
| `Prevention.DenialReportsMinutesLeft` | src/utils/prevention.ts:33-39 | a denial carries the reason "Time restriction" and the remaining time rounded up to minutes, which lies between 0 and 60 when the latest claim is not in the future |
| `Prevention.LatestIgnoresOrder` | src/utils/prevention.ts:22-24 | reordering the records does not change the latest claim time |
| `Prevention.DecisionIgnoresOrder` | src/utils/prevention.ts:13-40 | the decision does not depend on the order of the records |
| `Prevention.AllowedStaysAllowed` | src/utils/prevention.ts:26-31 | once an identity is allowed, it stays allowed as time moves on without new records |
| `Prevention.CooldownElapses` | src/utils/prevention.ts:26-31 | more than one hour after every recorded claim, the identity is allowed again |
| `Prevention.RecordedClaimCoolsDown` | src/utils/prevention.ts:26-38 | right after a claim is recorded at now, the identity is denied at that same time, with exactly 60 minutes left when no earlier record lies in the future |
| `Prevention.ClaimGuard.constructor` | src/utils/prevention.ts:4 | the claim map starts empty |
| `Prevention.ClaimGuard.CanClaimByIp` | src/utils/prevention.ts:13-40 | reads the map and changes nothing; an identity with no records or an empty list is allowed; otherwise it is allowed exactly when more than one hour has passed since its latest claim |
| `Prevention.ClaimGuard.RecordClaim` | src/utils/prevention.ts:46-55 | the identity's list gains exactly one record stamped with now, whatever claim time the caller passed, and is created if absent; every other identity's list is unchanged; the identity is then denied at now |
| `Prevention.ClaimGuard.ResetClaimHistory` | src/utils/prevention.ts:98-102 | the map becomes empty, so every identity is allowed |

## Left out

- `getMockIpAddress` and `getBrowserFingerprint` (`src/utils/prevention.ts:61-93`) are not modelled. They read and write browser storage, call a random number generator and read browser properties. The model takes the identity as an opaque input string.
- The React components and pages are not part of this model. They only render results and call the operations in the order check, next, claim, record.
- The clock is not modelled: each operation takes `now` as an argument. `getNextCoupon` re-reads the clock for each coupon it visits; the model uses one `now` for the whole scan. The seed list reads the clock once per coupon at load time; the model uses one `loadTime`.
- `GetCoupons` returns a copy of the pool's value. The source returns the live array, so a caller could mutate the pool through it; that aliasing is not modelled.
- `CanClaimByIp` treats the claim map as a plain dictionary. In the source the map is a plain JavaScript object, so keys such as "constructor" or "__proto__" would hit inherited properties; such identities are not modelled.
- Invalid dates (NaN times) are not modelled: every time is an integer.
- `RecordedClaimCoolsDown`: the promise of exactly 60 minutes left needs every earlier record of the identity to lie at or before `now`. With a clock that moved backwards, the source reports more than 60 minutes, and the lemma then states only the denial.
