/**
  The atomic token bucket of the NVD source (internal/enrich/cpe/sources/nvd_api.go):
  refill and take in one critical section. Time is in seconds.
*/
module TokenBucket {
  const NANOS := 1000000000.0
  const MILLISECOND := 0.001

  datatype Bucket = Bucket(tokens: real, burst: real, rps: real, lastRefill: real) {
    ghost predicate Valid() {
      0.0 <= tokens <= burst && burst >= 1.0 && rps > 0.0
    }

    function Refill(now: real): Bucket {
      var t := tokens + (now - lastRefill) * rps;
      this.(tokens := if t > burst then burst else t, lastRefill := now)
    }

    /** The wait is cut to whole nanoseconds before the extra millisecond. */
    function Delay(): real
      requires rps > 0.0
    {
      ((1.0 - tokens) / rps * NANOS).Floor as real / NANOS + MILLISECOND
    }

    /** The bucket after a try at time now, and the wait: zero when a token was taken. */
    function Try(now: real): (Bucket, real)
      requires rps > 0.0
    {
      var b := Refill(now);
      if b.tokens >= 1.0 then (b.(tokens := b.tokens - 1.0), 0.0) else (b, b.Delay())
    }
  }

  class Limiter {
    var tokens: real
    const burst: real
    const rps: real
    var lastRefill: real

    function Value(): Bucket
      reads this
    {
      Bucket(tokens, burst, rps, lastRefill)
    }

    constructor (rps: real, burst: int, now: real)
      ensures Value().Valid() && Value().lastRefill == now && Value().tokens == Value().burst
      ensures Value().rps == if rps <= 0.0 then 1.0 else rps
      ensures Value().burst == if burst < 1 then 1.0 else burst as real
    {
      this.rps := if rps <= 0.0 then 1.0 else rps;
      var b := if burst < 1 then 1.0 else burst as real;
      this.burst := b;
      tokens := b;
      lastRefill := now;
    }

    method TryAcquire(now: real) returns (wait: real)
      requires rps > 0.0
      modifies this
      ensures (Value(), wait) == old(Value()).Try(now)
    {
      var elapsed := now - lastRefill;
      tokens := tokens + elapsed * rps;
      if tokens > burst {
        tokens := burst;
      }
      lastRefill := now;
      assert Value() == old(Value()).Refill(now);
      if tokens >= 1.0 {
        tokens := tokens - 1.0;
        return 0.0;
      }
      return Value().Delay();
    }
  }

  /** Granting and waiting exclude each other, and the level stays within [0, burst]. */
  lemma TryKeepsValid(b: Bucket, now: real)
    requires b.Valid() && now >= b.lastRefill
    ensures var (after, wait) := b.Try(now);
      && after.Valid() && after.lastRefill == now && after.burst == b.burst && after.rps == b.rps
      && (wait == 0.0 <==> b.Refill(now).tokens >= 1.0)
      && (wait != 0.0 ==> wait >= MILLISECOND && after.tokens < 1.0)
  {
    assert (now - b.lastRefill) * b.rps >= 0.0;
    var r := b.Refill(now);
    if r.tokens < 1.0 {
      assert (1.0 - r.tokens) / b.rps >= 0.0;
      assert ((1.0 - r.tokens) / b.rps * NANOS).Floor >= 0;
    }
  }

  lemma DelayIsEnough(missing: real, rps: real, wait: real)
    requires rps > 0.0 && wait >= missing / rps
    ensures wait * rps >= missing
  {
    assert missing / rps * rps == missing;
    assert (wait - missing / rps) * rps >= 0.0;
  }

  /** After a refusal, waiting the returned duration undisturbed makes the next try succeed. */
  lemma WaitingSuffices(b: Bucket, now: real, later: real)
    requires b.Valid() && now >= b.lastRefill
    requires b.Try(now).1 != 0.0 && later >= now + b.Try(now).1
    ensures b.Try(now).0.Try(later).1 == 0.0
  {
    TryKeepsValid(b, now);
    var (after, wait) := b.Try(now);
    DelayIsEnough(1.0 - after.tokens, b.rps, later - now);
    TryKeepsValid(after, later);
  }

  lemma Whole(x: real)
    ensures (x * NANOS).Floor as real / NANOS <= x
  {
  }

  lemma ShortOfMissing(missing: real, rps: real, d: real)
    requires rps > 0.0 && d < missing / rps
    ensures d * rps < missing
  {
    assert missing / rps * rps == missing;
    assert (missing / rps - d) * rps > 0.0;
  }

  /** Up to the extra millisecond the duration is needed: whoever comes back sooner is refused again. */
  lemma WaitingIsNeeded(b: Bucket, now: real, later: real)
    requires b.Valid() && now >= b.lastRefill
    requires b.Try(now).1 != 0.0 && now <= later < now + b.Try(now).1 - 0.001
    ensures b.Try(now).0.Try(later).1 != 0.0
  {
    TryKeepsValid(b, now);
    var (after, wait) := b.Try(now);
    Whole((1.0 - after.tokens) / b.rps);
    ShortOfMissing(1.0 - after.tokens, b.rps, later - now);
    TryKeepsValid(after, later);
  }

  /** What a try at this time finds: what was left and what time has brought, up to burst. */
  function Level(b: Bucket, now: real): real {
    var t := b.tokens + (now - b.lastRefill) * b.rps;
    if t <= b.burst then t else b.burst
  }

  lemma TryAtLevel(b: Bucket, now: real)
    requires b.Valid() && now >= b.lastRefill
    ensures var (after, wait) := b.Try(now);
      && (wait == 0.0 <==> Level(b, now) >= 1.0)
      && after.tokens == Level(b, now) - (if wait == 0.0 then 1.0 else 0.0)
      && after.Valid() && after.lastRefill == now && Level(after, now) == after.tokens
  {
    TryKeepsValid(b, now);
    var (after, wait) := b.Try(now);
    assert (now - after.lastRefill) * after.rps == 0.0;
  }

  /** Of several tries at one instant, as many succeed as there are whole tokens. */
  lemma {:induction false} BurstIsGranted(b: Bucket, now: real, k: nat)
    requires b.Valid() && now >= b.lastRefill && k >= 1 && k as real <= Level(b, now)
    ensures var before, r := After(b, seq(k - 1, _ => now)), After(b, seq(k, _ => now));
      && before.Try(now).1 == 0.0
      && r.tokens == Level(b, now) - k as real && r.lastRefill == now && r.Valid() && Level(r, now) == r.tokens
      && (r.Try(now).1 == 0.0 <==> (k + 1) as real <= Level(b, now))
  {
    assert b.rps > 0.0;
    hide Bucket.Try, Bucket.Valid, Level;
    var all := seq(k, _ => now);
    assert all[..k - 1] == seq(k - 1, _ => now);
    var before := After(b, all[..k - 1]);
    if k > 1 {
      BurstIsGranted(b, now, k - 1);
    } else {
      assert before == b;
    }
    TryAtLevel(before, now);
    TryAtLevel(before.Try(now).0, now);
  }

  // ----- Any run of tries -----

  ghost predicate Ordered(from: real, nows: seq<real>) {
    && (forall i :: 0 <= i < |nows| ==> nows[i] >= from)
    && (forall i, j :: 0 <= i < j < |nows| ==> nows[i] <= nows[j])
  }

  function After(b: Bucket, nows: seq<real>): (r: Bucket)
    requires b.rps > 0.0
    ensures r.rps == b.rps && r.burst == b.burst
  {
    if nows == [] then b else After(b, nows[..|nows| - 1]).Try(nows[|nows| - 1]).0
  }

  /** How many tries in the window (s, t] get a token. */
  function Grants(b: Bucket, nows: seq<real>, s: real, t: real): nat
    requires b.rps > 0.0
  {
    if nows == [] then 0
    else
      var before, now := nows[..|nows| - 1], nows[|nows| - 1];
      Grants(b, before, s, t) + if s < now <= t && After(b, before).Try(now).1 == 0.0 then 1 else 0
  }

  lemma {:induction false} RunKeepsValid(b: Bucket, nows: seq<real>)
    requires b.Valid() && Ordered(b.lastRefill, nows)
    ensures After(b, nows).Valid()
    ensures After(b, nows).lastRefill == if nows == [] then b.lastRefill else nows[|nows| - 1]
  {
    if nows != [] {
      RunKeepsValid(b, nows[..|nows| - 1]);
      TryKeepsValid(After(b, nows[..|nows| - 1]), nows[|nows| - 1]);
    }
  }

  /** The tokens that time brings. */
  function Earned(rps: real, from: real, to: real): real {
    rps * (to - from)
  }

  lemma EarnedIs(rps: real, from: real, to: real)
    ensures Earned(rps, from, to) == (to - from) * rps
  {
  }

  lemma EarnedAdds(rps: real, from: real, mid: real, to: real)
    requires rps > 0.0
    ensures Earned(rps, from, to) == Earned(rps, from, mid) + Earned(rps, mid, to)
    ensures mid >= from ==> Earned(rps, from, mid) >= 0.0
    ensures to >= mid ==> Earned(rps, mid, to) >= 0.0
  {
  }

  /** A try spends from the refilled level, which is capped by burst. */
  lemma TrySpends(b: Bucket, now: real)
    requires b.Valid() && now >= b.lastRefill
    ensures var (after, wait) := b.Try(now);
      var spent := if wait == 0.0 then 1.0 else 0.0;
      after.tokens + spent <= b.burst && after.tokens + spent <= b.tokens + Earned(b.rps, b.lastRefill, now)
  {
    TryKeepsValid(b, now);
    var level := b.tokens + (now - b.lastRefill) * b.rps;
    EarnedIs(b.rps, b.lastRefill, now);
    assert b.Refill(now).tokens <= level && b.Refill(now).tokens <= b.burst;
  }

  lemma {:induction false} WindowLevel(b: Bucket, nows: seq<real>, s: real, t: real)
    requires b.Valid() && Ordered(b.lastRefill, nows) && s <= t
    ensures var r := After(b, nows);
      var granted := Grants(b, nows, s, t) as real;
      && granted <= b.burst + Earned(b.rps, s, t)
      && (nows == [] || r.lastRefill <= s ==> granted == 0.0)
      && (nows != [] && s < r.lastRefill <= t ==> granted + r.tokens <= b.burst + Earned(b.rps, s, r.lastRefill))
  {
    hide Bucket.Try, Bucket.Valid, Earned;
    RunKeepsValid(b, nows);
    EarnedAdds(b.rps, s, s, t);
    if nows != [] {
      var before, now := nows[..|nows| - 1], nows[|nows| - 1];
      assert Ordered(b.lastRefill, before);
      WindowLevel(b, before, s, t);
      RunKeepsValid(b, before);
      var p := After(b, before);
      TryKeepsValid(p, now);
      TrySpends(p, now);
      if s < now <= t {
        EarnedAdds(b.rps, s, p.lastRefill, now);
        EarnedAdds(b.rps, s, now, t);
      }
    }
  }

  /** In every run of atomic tries, a window (s, t] grants at most burst plus rps tokens for every second of it. */
  lemma WindowBound(b: Bucket, nows: seq<real>, s: real, t: real)
    requires b.Valid() && Ordered(b.lastRefill, nows) && s <= t
    ensures After(b, nows).Valid()
    ensures Grants(b, nows, s, t) as real <= b.burst + Earned(b.rps, s, t)
  {
    RunKeepsValid(b, nows);
    WindowLevel(b, nows, s, t);
  }
}
