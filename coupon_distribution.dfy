/**
 * The round-robin coupon registry: a pool of coupons and a cursor that walks
 * the pool circularly, handing out the next coupon that is neither claimed
 * nor expired. Times are milliseconds since the epoch, as plain integers;
 * the clock is the `now` argument of each operation that reads it.
 */
module CouponDistribution {
  import opened Optional

  /** Milliseconds in one day, as the seed list spells it out. */
  const DAY_MS: int := 24 * 60 * 60 * 1000

  datatype Coupon = Coupon(
    id: string,
    code: string,
    description: string,
    expiresAt: int,
    claimed: bool,
    claimedBy: Option<string>,
    claimedAt: Option<int>)

  /** What a caller of `addCoupon` supplies: a coupon without `id` and `claimed`. */
  datatype CouponFields = CouponFields(
    code: string,
    description: string,
    expiresAt: int,
    claimedBy: Option<string>,
    claimedAt: Option<int>)

  /** What a caller of `claimCoupon` supplies about the claimant: a user record without `couponId`. */
  datatype Claimant = Claimant(ipAddress: string, fingerprint: string, claimTime: int)

  // ---------------------------------------------------------------------------
  // Coupon ids: the decimal text of a natural number
  // ---------------------------------------------------------------------------

  function DigitChar(d: nat): (c: char)
    requires d < 10
    ensures '0' <= c <= '9'
  {
    (48 + d) as char
  }

  /** The decimal numeral of `n`, as JavaScript's `toString()` prints a non-negative integer. */
  function NatToString(n: nat): (s: string)
    ensures 1 <= |s|
    ensures n < 10 <==> |s| == 1
  {
    if n < 10 then [DigitChar(n)] else NatToString(n / 10) + [DigitChar(n % 10)]
  }

  /** Different numbers have different numerals, so ids handed out by count never collide. */
  lemma {:induction false} NatToStringInjective(m: nat, n: nat)
    requires NatToString(m) == NatToString(n)
    ensures m == n
  {
    if m >= 10 && n >= 10 {
      var sm, sn := NatToString(m), NatToString(n);
      assert sm[|sm| - 1] == DigitChar(m % 10);
      assert sn[|sn| - 1] == DigitChar(n % 10);
      assert NatToString(m / 10) == sm[..|sm| - 1] == sn[..|sn| - 1] == NatToString(n / 10);
      NatToStringInjective(m / 10, n / 10);
    }
  }

  // ---------------------------------------------------------------------------
  // The seed list and the shape every reachable pool has
  // ---------------------------------------------------------------------------

  /** The five sample coupons; their expiry dates are fixed relative to the time the module loads. */
  function SampleCoupons(loadTime: int): (seed: seq<Coupon>)
    ensures |seed| == 5
    ensures forall i :: 0 <= i < |seed| ==>
      && !seed[i].claimed && seed[i].claimedBy.None? && seed[i].claimedAt.None?
      && seed[i].expiresAt >= loadTime + 7 * DAY_MS
  {
    [ Coupon("1", "SAVE10NOW", "10% off your purchase", loadTime + 7 * DAY_MS, false, None, None),
      Coupon("2", "FREESHIP", "Free shipping on orders over $50", loadTime + 14 * DAY_MS, false, None, None),
      Coupon("3", "BOGO2023", "Buy one get one free", loadTime + 10 * DAY_MS, false, None, None),
      Coupon("4", "SUMMER25", "25% off summer collection", loadTime + 30 * DAY_MS, false, None, None),
      Coupon("5", "WELCOME15", "15% off your first purchase", loadTime + 60 * DAY_MS, false, None, None) ]
  }

  /** The coupon at position i carries the id i + 1: the seed is numbered so, and `addCoupon` continues the count. */
  ghost predicate SequentialIds(pool: seq<Coupon>)
  {
    forall i :: 0 <= i < |pool| ==> pool[i].id == NatToString(i + 1)
  }

  /** The cursor is a position of the pool, or 0 when the pool is empty. */
  predicate CursorInRange(pool: seq<Coupon>, cursor: nat)
  {
    if |pool| == 0 then cursor == 0 else cursor < |pool|
  }

  lemma SampleCouponsAreNumbered(loadTime: int)
    ensures SequentialIds(SampleCoupons(loadTime))
  {
  }

  /** Ids of a sequentially numbered pool are pairwise distinct. */
  lemma SequentialIdsAreUnique(pool: seq<Coupon>, i: nat, j: nat)
    requires SequentialIds(pool)
    requires i < |pool| && j < |pool| && i != j
    ensures pool[i].id != pool[j].id
  {
    if pool[i].id == pool[j].id {
      NatToStringInjective(i + 1, j + 1);
    }
  }

  // ---------------------------------------------------------------------------
  // Round-robin selection
  // ---------------------------------------------------------------------------

  /** A coupon may be handed out when it is unclaimed and expires strictly after `now`. */
  predicate Eligible(c: Coupon, now: int)
  {
    !c.claimed && c.expiresAt > now
  }

  /** The position reached `k` steps after `start`, wrapping around a pool of `n` coupons. */
  function CircularIndex(start: nat, k: nat, n: nat): (i: nat)
    requires 0 < n
    ensures i < n
  {
    (start + k) % n
  }

  /** Two circular steps below one full turn stay within the first two laps. */
  lemma WithinTwoLaps(x: nat, n: nat)
    requires 0 < n && x < 2 * n
    ensures x % n == if x < n then x else x - n
  {
  }

  /** Stepping the cursor by `% n` is the same as counting steps from the start, and the
      cursor is back at its start exactly after a full turn. */
  lemma CircularStep(start: nat, k: nat, n: nat)
    requires start < n && k < n
    ensures (CircularIndex(start, k, n) + 1) % n == CircularIndex(start, k + 1, n)
    ensures CircularIndex(start, k + 1, n) == start <==> k + 1 == n
  {
    WithinTwoLaps(start + k, n);
    WithinTwoLaps(start + k + 1, n);
    WithinTwoLaps(CircularIndex(start, k, n) + 1, n);
  }

  /** How many steps after `start` the scan reaches position `i`. */
  function StepsTo(start: nat, i: nat, n: nat): (k: nat)
    requires start < n && i < n
    ensures k < n
  {
    if i >= start then i - start else i + n - start
  }

  /** One full turn from any start visits every position exactly once. */
  lemma {:induction false} CircularIndexIsBijective(start: nat, n: nat)
    requires start < n
    ensures forall k, l :: 0 <= k < l < n ==> CircularIndex(start, k, n) != CircularIndex(start, l, n)
    ensures forall i :: 0 <= i < n ==> CircularIndex(start, StepsTo(start, i, n), n) == i
  {
    forall k, l | 0 <= k < l < n
      ensures CircularIndex(start, k, n) != CircularIndex(start, l, n)
    {
      WithinTwoLaps(start + k, n);
      WithinTwoLaps(start + l, n);
    }
    forall i | 0 <= i < n
      ensures CircularIndex(start, StepsTo(start, i, n), n) == i
    {
      WithinTwoLaps(start + StepsTo(start, i, n), n);
    }
  }

  predicate EligibleAt(pool: seq<Coupon>, start: nat, k: nat, now: int)
    requires 0 < |pool|
  {
    Eligible(pool[CircularIndex(start, k, |pool|)], now)
  }

  /** The least offset k in [from, |pool|) whose coupon, k steps after `start`, is eligible. */
  function FirstEligibleFrom(pool: seq<Coupon>, start: nat, now: int, from: nat): (r: Option<nat>)
    requires start < |pool| && from <= |pool|
    ensures r.Some? ==> from <= r.value < |pool|
    decreases |pool| - from
  {
    if from == |pool| then None
    else if EligibleAt(pool, start, from, now) then Some(from)
    else FirstEligibleFrom(pool, start, now, from + 1)
  }

  lemma {:induction false} FirstEligibleFromIsLeast(pool: seq<Coupon>, start: nat, now: int, from: nat)
    requires start < |pool| && from <= |pool|
    ensures FirstEligibleFrom(pool, start, now, from).None? <==>
      forall k :: from <= k < |pool| ==> !EligibleAt(pool, start, k, now)
    ensures FirstEligibleFrom(pool, start, now, from).Some? ==>
      var j := FirstEligibleFrom(pool, start, now, from).value;
      EligibleAt(pool, start, j, now) && forall k :: from <= k < j ==> !EligibleAt(pool, start, k, now)
    decreases |pool| - from
  {
    if from < |pool| && !EligibleAt(pool, start, from, now) {
      FirstEligibleFromIsLeast(pool, start, now, from + 1);
    }
  }

  /** The outcome of one `getNextCoupon` call: the coupon returned (None for null) and the new cursor. */
  datatype Pick = Pick(coupon: Option<Coupon>, cursor: nat)

  /** What `getNextCoupon` returns and where it leaves the cursor, as a function of the pool,
      the old cursor and the clock. */
  function NextCoupon(pool: seq<Coupon>, cursor: nat, now: int): (p: Pick)
    requires CursorInRange(pool, cursor)
    ensures CursorInRange(pool, p.cursor)
    ensures |pool| == 0 ==> p == Pick(None, cursor)
  {
    if |pool| == 0 then Pick(None, cursor)
    else match FirstEligibleFrom(pool, cursor, now, 0)
      case None => Pick(None, cursor)
      case Some(j) =>
        Pick(Some(pool[CircularIndex(cursor, j, |pool|)]), CircularIndex(cursor, j + 1, |pool|))
  }

  /** null comes back exactly when no coupon of the pool is both unclaimed and unexpired,
      and then the cursor has come full circle to where it started. */
  lemma NextCouponIsNullIffNoneEligible(pool: seq<Coupon>, cursor: nat, now: int)
    requires CursorInRange(pool, cursor)
    ensures NextCoupon(pool, cursor, now).coupon.None? <==>
      forall i :: 0 <= i < |pool| ==> !Eligible(pool[i], now)
    ensures NextCoupon(pool, cursor, now).coupon.None? ==> NextCoupon(pool, cursor, now).cursor == cursor
  {
    if |pool| > 0 {
      var n := |pool|;
      FirstEligibleFromIsLeast(pool, cursor, now, 0);
      CircularIndexIsBijective(cursor, n);
      if FirstEligibleFrom(pool, cursor, now, 0).None? {
        forall i | 0 <= i < n
          ensures !Eligible(pool[i], now)
        {
          assert !EligibleAt(pool, cursor, StepsTo(cursor, i, n), now);
        }
      }
    }
  }

  /** A non-null result is the first eligible coupon at or after the cursor in circular order,
      and the cursor then points just past it. */
  lemma NextCouponIsFirstEligible(pool: seq<Coupon>, cursor: nat, now: int)
    requires CursorInRange(pool, cursor)
    requires NextCoupon(pool, cursor, now).coupon.Some?
    ensures 0 < |pool|
    ensures exists j :: (0 <= j < |pool|
      && NextCoupon(pool, cursor, now).coupon.value == pool[CircularIndex(cursor, j, |pool|)]
      && EligibleAt(pool, cursor, j, now)
      && (forall k :: 0 <= k < j ==> !EligibleAt(pool, cursor, k, now))
      && NextCoupon(pool, cursor, now).cursor == CircularIndex(cursor, j + 1, |pool|))
  {
    FirstEligibleFromIsLeast(pool, cursor, now, 0);
    var j := FirstEligibleFrom(pool, cursor, now, 0).value;
    assert NextCoupon(pool, cursor, now).coupon.value == pool[CircularIndex(cursor, j, |pool|)];
  }

  /** The results of calling `getNextCoupon` `k` times in a row with nothing claimed in between. */
  function Offers(pool: seq<Coupon>, cursor: nat, now: int, k: nat): (offers: seq<Option<Coupon>>)
    requires CursorInRange(pool, cursor)
    ensures |offers| == k
    decreases k
  {
    if k == 0 then []
    else
      var p := NextCoupon(pool, cursor, now);
      [p.coupon] + Offers(pool, p.cursor, now, k - 1)
  }

  /** Where the cursor stands after those `k` calls. */
  function CursorAfter(pool: seq<Coupon>, cursor: nat, now: int, k: nat): (after: nat)
    requires CursorInRange(pool, cursor)
    ensures CursorInRange(pool, after)
    decreases k
  {
    if k == 0 then cursor
    else CursorAfter(pool, NextCoupon(pool, cursor, now).cursor, now, k - 1)
  }

  /** When every coupon is eligible, consecutive calls hand out the coupons in circular order from
      the cursor, without end: the first |pool| offers come from pairwise distinct positions, so
      each coupon is offered once per full cycle, and the sequence then repeats with period |pool|.
      After k calls the cursor has moved k steps. */
  lemma {:induction false} RoundRobinVisitsEachOnce(pool: seq<Coupon>, cursor: nat, now: int, k: nat)
    requires 0 < |pool| && cursor < |pool|
    requires forall i :: 0 <= i < |pool| ==> Eligible(pool[i], now)
    ensures forall i :: 0 <= i < k ==> Offers(pool, cursor, now, k)[i] == Some(pool[CircularIndex(cursor, i, |pool|)])
    ensures forall i, j :: 0 <= i < j < k && j < |pool| ==>
      CircularIndex(cursor, i, |pool|) != CircularIndex(cursor, j, |pool|)
    ensures forall i :: 0 <= i && i + |pool| < k ==>
      Offers(pool, cursor, now, k)[i + |pool|] == Offers(pool, cursor, now, k)[i]
    ensures CursorAfter(pool, cursor, now, k) == CircularIndex(cursor, k, |pool|)
    decreases k
  {
    var n := |pool|;
    CircularIndexIsBijective(cursor, n);
    if k == 0 {
      WithinTwoLaps(cursor, n);
    } else {
      assert EligibleAt(pool, cursor, 0, now);
      assert cursor % n == cursor by { WithinTwoLaps(cursor, n); }
      var next := NextCoupon(pool, cursor, now).cursor;
      assert next == (cursor + 1) % n;
      var offers := Offers(pool, cursor, now, k);
      var rest := Offers(pool, next, now, k - 1);
      assert offers == [Some(pool[cursor])] + rest;
      RoundRobinVisitsEachOnce(pool, next, now, k - 1);
      forall i | 1 <= i < k
        ensures offers[i] == Some(pool[CircularIndex(cursor, i, n)])
      {
        assert offers[i] == rest[i - 1];
        CircularShift(cursor, i, n);
      }
      CircularShift(cursor, k, n);
      forall i | 0 <= i && i + n < k
        ensures offers[i + n] == offers[i]
      {
        ModShift(cursor + i, n);
      }
    }
  }

  /** Starting one position later and taking one step fewer reaches the same place. */
  lemma CircularShift(cursor: nat, i: nat, n: nat)
    requires cursor < n && 1 <= i
    ensures CircularIndex((cursor + 1) % n, i - 1, n) == CircularIndex(cursor, i, n)
  {
    WithinTwoLaps(cursor + 1, n);
    if cursor + 1 == n {
      ModShift(i - 1, n);
    }
  }

  /** A full turn more lands on the same position. */
  lemma ModShift(y: nat, n: nat)
    requires 0 < n
    ensures (y + n) % n == y % n
  {
    ModUnique(y + n, y / n + 1, y % n, n);
  }

  /** Euclidean division has one remainder: the r in x == a * n + r with 0 <= r < n. */
  lemma ModUnique(x: int, a: int, r: int, n: int)
    requires 0 < n && 0 <= r < n && x == a * n + r
    ensures x % n == r
  {
    var a', r' := x / n, x % n;
    assert x == a' * n + r';
    assert (a - a') * n == r' - r;
    if a > a' {
      MulAtLeast(a - a', n);
    } else if a < a' {
      MulAtLeast(a' - a, n);
    }
  }

  lemma {:induction false} MulAtLeast(d: nat, n: nat)
    requires 1 <= d
    ensures d * n >= n
  {
    if d > 1 {
      MulAtLeast(d - 1, n);
      assert d * n == (d - 1) * n + n;
    }
  }

  /** Right after a coupon is claimed, the next call cannot hand that same claimed record out. */
  lemma NextCouponSkipsClaimed(pool: seq<Coupon>, cursor: nat, now: int, c: Coupon)
    requires CursorInRange(pool, cursor)
    requires c in pool && c.claimed
    ensures NextCoupon(pool, cursor, now).coupon != Some(c)
  {
    if NextCoupon(pool, cursor, now).coupon.Some? {
      NextCouponIsFirstEligible(pool, cursor, now);
    }
  }

  /** In a numbered pool, once a claim succeeds, no later call of `getNextCoupon` offers a coupon
      with that id, whatever the cursor and the clock. */
  lemma ClaimedIdIsNotOfferedNext(pool: seq<Coupon>, couponId: string, claimant: Claimant, now: int, cursor: nat, later: int)
    requires SequentialIds(pool) && CursorInRange(pool, cursor)
    requires Claim(pool, couponId, claimant, now).coupon.Some?
    ensures var next := NextCoupon(Claim(pool, couponId, claimant, now).pool, cursor, later);
      next.coupon.None? || next.coupon.value.id != couponId
  {
    var i := FindIndex(pool, couponId);
    var after := Claim(pool, couponId, claimant, now).pool;
    assert after[i].claimed && forall q :: 0 <= q < |pool| && q != i ==> after[q] == pool[q];
    var next := NextCoupon(after, cursor, later);
    if next.coupon.Some? {
      NextCouponIsFirstEligible(after, cursor, later);
      var j :| 0 <= j < |after| && next.coupon.value == after[CircularIndex(cursor, j, |after|)]
        && EligibleAt(after, cursor, j, later);
      var q := CircularIndex(cursor, j, |after|);
      assert q != i;
      SequentialIdsAreUnique(pool, q, i);
    }
  }

  // ---------------------------------------------------------------------------
  // Claiming, appending and resetting
  // ---------------------------------------------------------------------------

  /** `findIndex` by id: the first position holding `id`, or -1. */
  function FindIndex(pool: seq<Coupon>, id: string): (r: int)
    ensures -1 <= r < |pool|
    ensures r == -1 <==> forall k :: 0 <= k < |pool| ==> pool[k].id != id
    ensures r >= 0 ==> pool[r].id == id && forall k :: 0 <= k < r ==> pool[k].id != id
  {
    if |pool| == 0 then -1
    else if pool[0].id == id then 0
    else
      var rest := FindIndex(pool[1..], id);
      if rest == -1 then -1 else rest + 1
  }

  /** In a sequentially numbered pool, the coupon with id "k" sits at position k - 1. */
  lemma FindIndexOfNumberedId(pool: seq<Coupon>, k: nat)
    requires SequentialIds(pool) && 1 <= k <= |pool|
    ensures FindIndex(pool, NatToString(k)) == k - 1
  {
    var r := FindIndex(pool, NatToString(k));
    assert pool[k - 1].id == NatToString(k);
    if 0 <= r < k - 1 {
      SequentialIdsAreUnique(pool, r, k - 1);
    }
  }

  /** The result of `claimCoupon`: the returned coupon (None for null) and the pool afterwards. */
  datatype ClaimOutcome = ClaimOutcome(coupon: Option<Coupon>, pool: seq<Coupon>)

  function Claim(pool: seq<Coupon>, couponId: string, claimant: Claimant, now: int): (r: ClaimOutcome)
    ensures |r.pool| == |pool|
  {
    var i := FindIndex(pool, couponId);
    if i == -1 || pool[i].claimed then ClaimOutcome(None, pool)
    else
      var claimedCopy := pool[i].(claimed := true, claimedBy := Some(claimant.ipAddress), claimedAt := Some(now));
      ClaimOutcome(Some(claimedCopy), pool[i := claimedCopy])
  }

  /** A claim fails and changes nothing when no coupon has the id, or the first one with it is
      already claimed; expiry plays no part. */
  lemma ClaimFailsWhenUnknownOrTaken(pool: seq<Coupon>, couponId: string, claimant: Claimant, now: int)
    ensures Claim(pool, couponId, claimant, now).coupon.None? <==>
      (forall k :: 0 <= k < |pool| ==> pool[k].id != couponId) ||
      (exists i :: 0 <= i < |pool| && pool[i].id == couponId && pool[i].claimed &&
         forall k :: 0 <= k < i ==> pool[k].id != couponId)
    ensures Claim(pool, couponId, claimant, now).coupon.None? ==> Claim(pool, couponId, claimant, now).pool == pool
  {
  }

  /** A successful claim replaces only the first coupon with the id, by its claimed copy, and
      returns that copy: claimed, stamped with the claimant's address and the claim time, every
      other field kept. */
  lemma ClaimSucceedsOnFirstUnclaimedMatch(pool: seq<Coupon>, couponId: string, claimant: Claimant, now: int, i: nat)
    requires i < |pool| && pool[i].id == couponId && !pool[i].claimed
    requires forall k :: 0 <= k < i ==> pool[k].id != couponId
    ensures var c := pool[i].(claimed := true, claimedBy := Some(claimant.ipAddress), claimedAt := Some(now));
      Claim(pool, couponId, claimant, now) == ClaimOutcome(Some(c), pool[i := c])
    ensures forall k :: 0 <= k < |pool| && k != i ==> Claim(pool, couponId, claimant, now).pool[k] == pool[k]
  {
  }

  /** Claiming never clears a claim: every coupon claimed before is still claimed after. */
  lemma ClaimNeverUnclaims(pool: seq<Coupon>, couponId: string, claimant: Claimant, now: int)
    ensures forall k :: 0 <= k < |pool| && pool[k].claimed ==> Claim(pool, couponId, claimant, now).pool[k].claimed
    ensures forall k :: 0 <= k < |pool| ==> Claim(pool, couponId, claimant, now).pool[k].id == pool[k].id
  {
  }

  function NewCoupon(fields: CouponFields, id: string): (c: Coupon)
  {
    Coupon(id, fields.code, fields.description, fields.expiresAt, false, fields.claimedBy, fields.claimedAt)
  }

  /** A seed coupon with its claim state cleared, as `resetCoupons` copies it. */
  function Cleared(c: Coupon): Coupon
  {
    c.(claimed := false, claimedBy := None, claimedAt := None)
  }

  /** The pool `resetCoupons` installs: the seed, position by position, with every claim cleared. */
  function Reseed(seed: seq<Coupon>): (pool: seq<Coupon>)
    ensures |pool| == |seed|
    ensures forall i :: 0 <= i < |seed| ==>
      && pool[i].id == seed[i].id && pool[i].code == seed[i].code
      && pool[i].description == seed[i].description && pool[i].expiresAt == seed[i].expiresAt
      && !pool[i].claimed && pool[i].claimedBy.None? && pool[i].claimedAt.None?
  {
    seq(|seed|, i requires 0 <= i < |seed| => Cleared(seed[i]))
  }

  /** The seed list is already free of claims, so a reset recreates exactly the pool the
      registry started with. */
  lemma ReseedRestoresSample(loadTime: int)
    ensures Reseed(SampleCoupons(loadTime)) == SampleCoupons(loadTime)
  {
  }

  /** The scenario of a two-coupon pool: A then B are handed out and claimed, after which nothing
      is left; a reset brings A back first. */
  lemma TwoCouponScenario(a: Coupon, b: Coupon, user: Claimant, now: int)
    requires Eligible(a, now) && Eligible(b, now) && a.id != b.id
    ensures var p1 := NextCoupon([a, b], 0, now);
      && p1 == Pick(Some(a), 1)
      && var c1 := Claim([a, b], a.id, user, now);
      && c1.coupon.Some?
      && var p2 := NextCoupon(c1.pool, p1.cursor, now);
      && p2 == Pick(Some(b), 0)
      && var c2 := Claim(c1.pool, b.id, user, now);
      && c2.coupon.Some?
      && NextCoupon(c2.pool, p2.cursor, now).coupon.None?
      && NextCoupon(Reseed([a, b]), 0, now) == Pick(Some(Cleared(a)), 1)
  {
    var pool := [a, b];
    assert EligibleAt(pool, 0, 0, now);
    var c1 := Claim(pool, a.id, user, now);
    assert FindIndex(pool, a.id) == 0;
    var pool1 := c1.pool;
    assert pool1 == [pool[0].(claimed := true, claimedBy := Some(user.ipAddress), claimedAt := Some(now)), b];
    assert !EligibleAt(pool1, 1, 1, now);
    assert EligibleAt(pool1, 1, 0, now);
    assert FindIndex(pool1, b.id) == 1;
    var c2 := Claim(pool1, b.id, user, now);
    NextCouponIsNullIffNoneEligible(c2.pool, 0, now);
    var reseeded := Reseed(pool);
    assert EligibleAt(reseeded, 0, 0, now);
  }

  // ---------------------------------------------------------------------------
  // The registry: the module-level pool and cursor as the fields of one object
  // ---------------------------------------------------------------------------

  class CouponRegistry {
    /** The seed list `resetCoupons` restores; never mutated. */
    const sampleCoupons: seq<Coupon>
    var availableCoupons: seq<Coupon>
    var currentCouponIndex: nat

    ghost predicate Valid()
      reads this
    {
      && CursorInRange(availableCoupons, currentCouponIndex)
      && SequentialIds(availableCoupons)
      && SequentialIds(sampleCoupons)
      && |sampleCoupons| == 5
    }

    /** The state when the module loads at `loadTime`: the pool is a copy of the seed, the cursor 0. */
    constructor (loadTime: int)
      ensures Valid()
      ensures sampleCoupons == SampleCoupons(loadTime)
      ensures availableCoupons == sampleCoupons && currentCouponIndex == 0
    {
      sampleCoupons := SampleCoupons(loadTime);
      availableCoupons := SampleCoupons(loadTime);
      currentCouponIndex := 0;
      SampleCouponsAreNumbered(loadTime);
    }

    /** Every coupon of the pool, claimed or not, in insertion order. */
    method GetCoupons() returns (coupons: seq<Coupon>)
      ensures coupons == availableCoupons
    {
      coupons := availableCoupons;
    }

    /** Appends an unclaimed coupon whose id is the new pool length; the cursor stays put. */
    method AddCoupon(fields: CouponFields) returns (newCoupon: Coupon)
      requires Valid()
      modifies this
      ensures Valid()
      ensures newCoupon == NewCoupon(fields, NatToString(|old(availableCoupons)| + 1))
      ensures availableCoupons == old(availableCoupons) + [newCoupon]
      ensures currentCouponIndex == old(currentCouponIndex)
    {
      newCoupon := NewCoupon(fields, NatToString(|availableCoupons| + 1));
      availableCoupons := availableCoupons + [newCoupon];
    }

    /** Scans circularly from the cursor, advancing it past every position visited, and stops at
        the first eligible coupon or after one full turn; `visited` counts the positions looked at. */
    method GetNextCoupon(now: int) returns (couponToReturn: Option<Coupon>, ghost visited: nat)
      requires Valid()
      modifies this
      ensures Valid()
      ensures availableCoupons == old(availableCoupons)
      ensures Pick(couponToReturn, currentCouponIndex) == NextCoupon(old(availableCoupons), old(currentCouponIndex), now)
      ensures visited <= |availableCoupons|
      ensures couponToReturn.None? ==> visited == |availableCoupons|
    {
      var n := |availableCoupons|;
      visited := 0;
      if n == 0 {
        return None, 0;
      }
      var startIndex := currentCouponIndex;
      couponToReturn := None;
      WithinTwoLaps(startIndex, n);
      while true
        invariant availableCoupons == old(availableCoupons) && startIndex == old(currentCouponIndex)
        invariant visited < n
        invariant currentCouponIndex == CircularIndex(startIndex, visited, n)
        invariant FirstEligibleFrom(availableCoupons, startIndex, now, visited) ==
                  FirstEligibleFrom(availableCoupons, startIndex, now, 0)
        invariant couponToReturn == None
        decreases n - visited
      {
        var coupon := availableCoupons[currentCouponIndex];
        CircularStep(startIndex, visited, n);
        currentCouponIndex := (currentCouponIndex + 1) % n;
        if !coupon.claimed && coupon.expiresAt > now {
          assert EligibleAt(availableCoupons, startIndex, visited, now);
          couponToReturn := Some(coupon);
          visited := visited + 1;
          break;
        }
        visited := visited + 1;
        if currentCouponIndex == startIndex {
          assert FirstEligibleFrom(availableCoupons, startIndex, now, visited) == None;
          break;
        }
      }
    }

    /** Marks the first coupon with `couponId` as claimed by the claimant at `now`, or returns
        None and changes nothing. */
    method ClaimCoupon(couponId: string, claimant: Claimant, now: int) returns (claimed: Option<Coupon>)
      requires Valid()
      modifies this
      ensures Valid()
      ensures ClaimOutcome(claimed, availableCoupons) == Claim(old(availableCoupons), couponId, claimant, now)
      ensures currentCouponIndex == old(currentCouponIndex)
    {
      var couponIndex := FindIndex(availableCoupons, couponId);
      if couponIndex == -1 || availableCoupons[couponIndex].claimed {
        return None;
      }
      availableCoupons := availableCoupons[couponIndex := availableCoupons[couponIndex].(
        claimed := true, claimedBy := Some(claimant.ipAddress), claimedAt := Some(now))];
      claimed := Some(availableCoupons[couponIndex]);
    }

    /** Restores the seed with every claim cleared and puts the cursor back to 0. */
    method ResetCoupons()
      requires Valid()
      modifies this
      ensures Valid()
      ensures availableCoupons == Reseed(sampleCoupons) && currentCouponIndex == 0
    {
      availableCoupons := Reseed(sampleCoupons);
      currentCouponIndex := 0;
    }
  }
}
