/**
  The rate-limited matcher (internal/fingerprint/matcher/ratelimit.go): refilling and
  taking are two critical sections, so goroutines can interleave between them.
*/
module RateLimit {
  import Tokens = TokenBucket

  /** ready holds the goroutines that have refilled and not yet tried to take. */
  datatype State = State(tokens: real, maxTokens: real, rate: real, lastRefill: real, ready: set<nat>, grants: nat) {
    ghost predicate Valid() {
      0.0 <= tokens <= maxTokens && rate > 0.0
    }

    /** A clock that has not moved on refills nothing. */
    function Refill(now: real): State {
      var elapsed := now - lastRefill;
      if elapsed <= 0.0 then this
      else
        var t := tokens + elapsed * rate;
        this.(tokens := if t > maxTokens then maxTokens else t, lastRefill := now)
    }

    function Take(): State {
      if tokens >= 1.0 then this.(tokens := tokens - 1.0, grants := grants + 1) else this
    }
  }

  // ----- The matcher's own methods -----

  class Limiter {
    var tokens: real
    const maxTokens: real
    const rate: real
    var lastRefill: real

    function Value(grants: nat): State
      reads this
    {
      State(tokens, maxTokens, rate, lastRefill, {}, grants)
    }

    constructor (burst: int, perSecond: real, now: real)
      ensures Value(0).Valid() && tokens == maxTokens && lastRefill == now
      ensures maxTokens == if burst <= 0 then 10.0 else burst as real
      ensures rate == if perSecond <= 0.0 then 5.0 else perSecond
    {
      var b := if burst <= 0 then 10.0 else burst as real;
      maxTokens := b;
      tokens := b;
      rate := if perSecond <= 0.0 then 5.0 else perSecond;
      lastRefill := now;
    }

    method Refill(now: real)
      modifies this
      ensures forall g :: Value(g) == old(Value(g)).Refill(now)
    {
      var elapsed := now - lastRefill;
      if elapsed <= 0.0 {
        return;
      }
      tokens := tokens + elapsed * rate;
      if tokens > maxTokens {
        tokens := maxTokens;
      }
      lastRefill := now;
    }

    /** Polls until a token is there; the context is cancelled when the readings run out. */
    method Acquire(readings: seq<real>) returns (acquired: bool)
      modifies this
      ensures Value(if acquired then 1 else 0) == Polled(old(Value(0)), readings)
    {
      acquired := false;
      var i := 0;
      while i < |readings| && !acquired
        invariant 0 <= i <= |readings|
        invariant if acquired
          then Value(1) == Polled(old(Value(0)), readings)
          else Polled(old(Value(0)), readings) == Polled(Value(0), readings[i..])
        decreases |readings| - i, !acquired
      {
        Refill(readings[i]);
        if tokens >= 1.0 {
          tokens := tokens - 1.0;
          acquired := true;
        }
        i := i + 1;
      }
    }
  }

  function Polled(s: State, readings: seq<real>): State
    decreases |readings|
  {
    if readings == [] then s
    else
      var next := s.Refill(readings[0]).Take();
      if next.grants > s.grants then next else Polled(next, readings[1..])
  }

  /** By this reading of the clock the bucket has a whole token. */
  ghost predicate FullBy(s: State, reading: real) {
    s.tokens >= 1.0 || s.tokens + (reading - s.lastRefill) * s.rate >= 1.0
  }

  lemma NothingEarned(time: real, rate: real)
    requires time >= 0.0 && rate > 0.0
    ensures time * rate >= 0.0
  {
  }

  lemma OnePoll(s: State, reading: real)
    requires s.Valid() && s.maxTokens >= 1.0
    ensures var r := s.Refill(reading); var next := r.Take();
      && r.Valid() && next.Valid() && r.maxTokens == s.maxTokens
      && (FullBy(s, reading) ==> next.grants == s.grants + 1 && next.tokens == r.tokens - 1.0)
      && (!FullBy(s, reading) ==> next == r && r.grants == s.grants)
  {
    RefillEarns(s, reading);
    Tokens.EarnedIs(s.rate, s.lastRefill, reading);
    if reading <= s.lastRefill {
      NothingEarned(s.lastRefill - reading, s.rate);
      assert (reading - s.lastRefill) * s.rate == 0.0 - (s.lastRefill - reading) * s.rate;
    }
  }

  lemma FullLater(s: State, first: real, reading: real)
    requires s.Valid() && s.maxTokens >= 1.0 && !FullBy(s, first)
    ensures FullBy(s.Refill(first), reading) <==> FullBy(s, reading)
  {
    if first > s.lastRefill {
      var r := s.Refill(first);
      assert r.tokens == s.tokens + (first - s.lastRefill) * s.rate;
      assert (reading - s.lastRefill) * s.rate == (reading - first) * s.rate + (first - s.lastRefill) * s.rate;
    }
  }

  /** Polling takes a token exactly if by some reading the bucket has one, and never more than one. */
  lemma {:induction false} AcquiresIff(s: State, readings: seq<real>)
    requires s.Valid() && s.maxTokens >= 1.0
    ensures var r := Polled(s, readings);
      r.grants == s.grants + if exists i :: 0 <= i < |readings| && FullBy(s, readings[i]) then 1 else 0
    decreases |readings|
  {
    if readings != [] {
      OnePoll(s, readings[0]);
      if !FullBy(s, readings[0]) {
        var next := s.Refill(readings[0]);
        AcquiresIff(next, readings[1..]);
        forall i | 0 <= i < |readings| ensures FullBy(next, readings[i]) <==> FullBy(s, readings[i]) {
          FullLater(s, readings[0], readings[i]);
        }
        hide FullBy;
        assert forall i :: 0 <= i < |readings| - 1 ==> readings[1..][i] == readings[i + 1];
        if i :| 0 <= i < |readings| && FullBy(s, readings[i]) {
          assert FullBy(next, readings[1..][i - 1]);
        }
      }
    }
  }

  // ----- Every interleaving -----

  /** Both kinds carry the instant of their critical section; a refill reads the clock inside its own. */
  datatype Action = RefillBy(g: nat, now: real) | TakeBy(g: nat, at: real)

  /** A goroutine refills, then tries to take, then may refill again. */
  ghost predicate Enabled(s: State, a: Action) {
    a.TakeBy? <==> a.g in s.ready
  }

  function Next(s: State, a: Action): State {
    match a
    case RefillBy(g, now) => s.Refill(now).(ready := s.ready + {g})
    case TakeBy(g, _) => s.Take().(ready := s.ready - {g})
  }

  function Run(s: State, actions: seq<Action>): State {
    if actions == [] then s else Next(Run(s, actions[..|actions| - 1]), actions[|actions| - 1])
  }

  ghost predicate Legal(s: State, actions: seq<Action>) {
    actions == [] || (Legal(s, actions[..|actions| - 1]) && Enabled(Run(s, actions[..|actions| - 1]), actions[|actions| - 1]))
  }

  /** A refill never brings more than the rate does in the time passed. */
  lemma RefillEarns(s: State, now: real)
    requires s.Valid()
    ensures var n := s.Refill(now);
      && n.Valid() && n.lastRefill == (if now > s.lastRefill then now else s.lastRefill)
      && n == s.(tokens := n.tokens, lastRefill := n.lastRefill)
      && n.tokens == (if now <= s.lastRefill then s.tokens
                      else if s.tokens + Tokens.Earned(s.rate, s.lastRefill, now) > s.maxTokens then s.maxTokens
                      else s.tokens + Tokens.Earned(s.rate, s.lastRefill, now))
  {
    hide Tokens.Earned;
    Tokens.EarnedAdds(s.rate, s.lastRefill, s.lastRefill, now);
    if now > s.lastRefill {
      Tokens.EarnedIs(s.rate, s.lastRefill, now);
      var elapsed := now - s.lastRefill;
      var level := s.tokens + elapsed * s.rate;
      assert level == s.tokens + Tokens.Earned(s.rate, s.lastRefill, now) >= s.tokens;
      assert s.Refill(now) == s.(tokens := if level > s.maxTokens then s.maxTokens else level, lastRefill := now);
    }
  }

  lemma NextKeepsBudget(start: State, s: State, a: Action)
    requires start.Valid() && s.Valid() && s.rate == start.rate && s.maxTokens == start.maxTokens
    requires s.lastRefill >= start.lastRefill
    requires (s.grants - start.grants) as real + s.tokens <= start.tokens + Tokens.Earned(start.rate, start.lastRefill, s.lastRefill)
    ensures var n := Next(s, a);
      && n.Valid() && n.rate == start.rate && n.maxTokens == start.maxTokens && n.lastRefill >= s.lastRefill
      && (n.grants - start.grants) as real + n.tokens <= start.tokens + Tokens.Earned(start.rate, start.lastRefill, n.lastRefill)
  {
    hide Tokens.Earned, State.Refill;
    if a.RefillBy? {
      RefillEarns(s, a.now);
      Tokens.EarnedAdds(s.rate, start.lastRefill, s.lastRefill, s.Refill(a.now).lastRefill);
    }
  }

  /**
    For every interleaving of refills and takes and every clock, the grants since a start
    stay at most its tokens plus rate tokens per second, counted up to the latest clock reading.
  */
  lemma {:induction false} TotalBound(start: State, actions: seq<Action>)
    requires start.Valid()
    ensures var s := Run(start, actions);
      && s.Valid() && s.rate == start.rate && s.maxTokens == start.maxTokens && s.lastRefill >= start.lastRefill
      && (s.grants - start.grants) as real + s.tokens <= start.tokens + Tokens.Earned(start.rate, start.lastRefill, s.lastRefill)
  {
    hide State.Valid, Next;
    if actions != [] {
      TotalBound(start, actions[..|actions| - 1]);
      NextKeepsBudget(start, Run(start, actions[..|actions| - 1]), actions[|actions| - 1]);
    }
  }

  // ----- Windows -----

  function Instant(a: Action): real {
    if a.RefillBy? then a.now else a.at
  }

  /** The actions of a window, in the order of time. */
  ghost predicate Within(actions: seq<Action>, from: real, to: real) {
    && from <= to
    && (forall i :: 0 <= i < |actions| ==> from <= Instant(actions[i]) <= to)
    && (forall i, j :: 0 <= i < j < |actions| ==> Instant(actions[i]) <= Instant(actions[j]))
  }

  /** The promise of a token bucket: one burst, and what the rate brings in the window. */
  ghost predicate KeepsWindowBound(s: State, actions: seq<Action>, from: real, to: real) {
    (Run(s, actions).grants - s.grants) as real <= s.maxTokens + Tokens.Earned(s.rate, from, to)
  }

  /** A goroutine that refilled before the window may take what the bucket would not have kept until now. */
  ghost predicate Hoards(s: State, from: real) {
    s.ready != {} && s.tokens >= 1.0 && s.tokens + Tokens.Earned(s.rate, s.lastRefill, from) > s.maxTokens
  }

  lemma WithinPrefix(actions: seq<Action>, from: real, to: real)
    requires actions != [] && Within(actions, from, to)
    ensures Within(actions[..|actions| - 1], from, to)
    ensures from <= Instant(actions[|actions| - 1]) <= to
  {
  }

  /** Either nothing has been granted or refilled yet, or the window's own budget covers grants and level. */
  ghost predicate InBudget(start: State, s: State, from: real) {
    && s.Valid() && s.rate == start.rate && s.maxTokens == start.maxTokens && s.grants >= start.grants
    && (|| (s.grants == start.grants && s.tokens == start.tokens && s.lastRefill == start.lastRefill && s.ready <= start.ready)
        || (s.lastRefill >= from && (s.grants - start.grants) as real + s.tokens <= s.maxTokens + Tokens.Earned(s.rate, from, s.lastRefill)))
  }

  lemma NextStaysInBudget(start: State, s: State, a: Action, from: real)
    requires start.Valid() && start.lastRefill <= from <= Instant(a) && InBudget(start, s, from) && Enabled(s, a)
    requires start.ready == {} || start.tokens < 1.0
    ensures InBudget(start, Next(s, a), from)
    ensures Next(s, a).lastRefill <= if Instant(a) > s.lastRefill then Instant(a) else s.lastRefill
  {
    hide Tokens.Earned, State.Refill;
    if a.RefillBy? {
      RefillEarns(s, a.now);
      Tokens.EarnedAdds(s.rate, from, s.lastRefill, s.Refill(a.now).lastRefill);
      Tokens.EarnedAdds(s.rate, from, from, s.Refill(a.now).lastRefill);
    }
  }

  lemma {:induction false} StaysInBudget(start: State, actions: seq<Action>, from: real, to: real)
    requires start.Valid() && start.lastRefill <= from && Within(actions, from, to) && Legal(start, actions)
    requires start.ready == {} || start.tokens < 1.0
    ensures InBudget(start, Run(start, actions), from) && Run(start, actions).lastRefill <= to
  {
    hide State.Valid, Next, InBudget, Enabled;
    if actions == [] {
      assert InBudget(start, start, from) by { NothingSpent(start, from); }
    } else {
      WithinPrefix(actions, from, to);
      StaysInBudget(start, actions[..|actions| - 1], from, to);
      NextStaysInBudget(start, Run(start, actions[..|actions| - 1]), actions[|actions| - 1], from);
    }
  }

  lemma NothingSpent(start: State, from: real)
    requires start.Valid()
    ensures InBudget(start, start, from)
  {
  }

  lemma {:induction false} LastReadingWithin(start: State, actions: seq<Action>, from: real, to: real)
    requires start.lastRefill <= from && Within(actions, from, to)
    ensures Run(start, actions).lastRefill <= to
  {
    if actions != [] {
      WithinPrefix(actions, from, to);
      LastReadingWithin(start, actions[..|actions| - 1], from, to);
    }
  }

  /** From a state in which nobody hoards, every continuation keeps the bound of every window that opens now. */
  lemma WindowBound(s: State, actions: seq<Action>, from: real, to: real)
    requires s.Valid() && s.lastRefill <= from && Within(actions, from, to) && Legal(s, actions) && !Hoards(s, from)
    ensures KeepsWindowBound(s, actions, from, to)
  {
    hide Run, Legal, Tokens.Earned;
    LastReadingWithin(s, actions, from, to);
    var r := Run(s, actions);
    Tokens.EarnedAdds(s.rate, from, from, to);
    Tokens.EarnedAdds(s.rate, from, r.lastRefill, to);
    if s.ready == {} || s.tokens < 1.0 {
      StaysInBudget(s, actions, from, to);
    } else {
      TotalBound(s, actions);
      Tokens.EarnedAdds(s.rate, s.lastRefill, from, to);
      Tokens.EarnedAdds(s.rate, s.lastRefill, r.lastRefill, to);
    }
  }

  // ----- Breaking the bound -----

  lemma {:induction false} RunConcat(s: State, a: seq<Action>, b: seq<Action>)
    ensures Run(s, a + b) == Run(Run(s, a), b)
    ensures Legal(s, a + b) <==> Legal(s, a) && Legal(Run(s, a), b)
    decreases |b|
  {
    hide Next, Enabled;
    if b == [] {
      assert a + b == a;
    } else {
      assert (a + b)[..|a + b| - 1] == a + b[..|b| - 1];
      RunConcat(s, a, b[..|b| - 1]);
    }
  }

  /** One goroutine asks k times at one instant. */
  function Drain(g: nat, at: real, k: nat): (actions: seq<Action>)
    ensures forall a :: a in actions ==> Instant(a) == at
  {
    if k == 0 then [] else Drain(g, at, k - 1) + [RefillBy(g, at), TakeBy(g, at)]
  }

  lemma RunTwo(s: State, a: Action, b: Action)
    ensures Run(s, [a, b]) == Next(Next(s, a), b)
    ensures Legal(s, [a, b]) <==> Enabled(s, a) && Enabled(Next(s, a), b)
  {
    hide Next, Enabled;
    assert [a, b][..1] == [a] && [a][..0] == [];
    assert Run(s, [a]) == Next(s, a) && (Legal(s, [a]) <==> Enabled(s, a));
  }

  /** As long as the first refill leaves tokens, each of k tries in a row takes one. */
  lemma {:induction false} DrainGrants(s: State, g: nat, at: real, k: nat)
    requires s.Valid() && g !in s.ready && s.Refill(at).tokens >= k as real
    ensures Legal(s, Drain(g, at, k))
    ensures var r := Run(s, Drain(g, at, k));
      r.Valid() && g !in r.ready && r.grants == s.grants + k && r.Refill(at).tokens == s.Refill(at).tokens - k as real
  {
    if k > 0 {
      DrainGrants(s, g, at, k - 1);
      var m := Run(s, Drain(g, at, k - 1));
      RunConcat(s, Drain(g, at, k - 1), [RefillBy(g, at), TakeBy(g, at)]);
      RunTwo(m, RefillBy(g, at), TakeBy(g, at));
      hide Run, Legal;
      RoundTakes(m, g, at);
    }
  }

  lemma RoundTakes(m: State, g: nat, at: real)
    requires m.Valid() && g !in m.ready && m.Refill(at).tokens >= 1.0
    ensures var r := Next(Next(m, RefillBy(g, at)), TakeBy(g, at));
      && Enabled(m, RefillBy(g, at)) && Enabled(Next(m, RefillBy(g, at)), TakeBy(g, at))
      && r.Valid() && g !in r.ready && r.grants == m.grants + 1 && r.Refill(at).tokens == m.Refill(at).tokens - 1.0
  {
    RefillEarns(m, at);
    assert m.Refill(at).lastRefill >= at;
  }

  /** The goroutine that has been waiting takes; then it asks for a whole burst, which one refill brings. */
  function Breach(g: nat, from: real, to: real, burst: nat): seq<Action> {
    [TakeBy(g, from)] + Drain(g, to, burst)
  }

  /** What the bucket would hold above its capacity. */
  function Surplus(s: State, from: real): real {
    s.tokens + Tokens.Earned(s.rate, s.lastRefill, from) - s.maxTokens
  }

  /** When the bucket is full again. */
  function FullAt(s: State, from: real): real {
    if Surplus(s, from) >= 1.0 || s.rate <= 0.0 then from else from + (1.0 - Surplus(s, from)) / s.rate
  }

  lemma EarnsBack(s: State, from: real)
    requires s.rate > 0.0
    ensures var to := FullAt(s, from);
      && from <= to
      && Tokens.Earned(s.rate, from, to) == (if Surplus(s, from) >= 1.0 then 0.0 else 1.0 - Surplus(s, from))
      && (Surplus(s, from) < 1.0 ==> from < to)
  {
    hide Surplus;
    var missing := 1.0 - Surplus(s, from);
    var to := FullAt(s, from);
    if missing > 0.0 {
      assert missing / s.rate > 0.0;
      assert to - from == missing / s.rate;
      assert s.rate * (missing / s.rate) == missing;
    } else {
      assert s.rate * 0.0 == 0.0;
    }
  }

  /** After the take, the refill at that time fills the bucket. */
  lemma RefillsAfterTake(s: State, from: real)
    requires s.Valid() && s.lastRefill <= from && Hoards(s, from)
    ensures var to := FullAt(s, from);
      && from <= to && s.Take().Valid() && s.Take().grants == s.grants + 1
      && s.Take().Refill(to).tokens == s.maxTokens && Tokens.Earned(s.rate, from, to) < 1.0
  {
    var to := FullAt(s, from);
    EarnsBack(s, from);
    NoTimeNoTokens(s.rate, from);
    Tokens.EarnedAdds(s.rate, s.lastRefill, from, to);
    RefillEarns(s.Take(), to);
    hide Tokens.Earned, State.Refill, FullAt;
  }

  lemma NoTimeNoTokens(rate: real, at: real)
    ensures Tokens.Earned(rate, at, at) == 0.0
  {
  }

  /** With a burst of whole tokens, some continuation breaks the bound of some window that opens now. */
  lemma HoardBreaksBound(s: State, g: nat, from: real, burst: nat)
    requires s.Valid() && s.maxTokens == burst as real && burst >= 1 && s.lastRefill <= from
    requires Hoards(s, from) && g in s.ready
    ensures var to := FullAt(s, from);
      var actions := Breach(g, from, to, burst);
      Within(actions, from, to) && Legal(s, actions) && !KeepsWindowBound(s, actions, from, to)
  {
    hide *;
    var to := FullAt(s, from);
    FirstTake(s, g, from);
    DrainGrants(Run(s, [TakeBy(g, from)]), g, to, burst);
    RunConcat(s, [TakeBy(g, from)], Drain(g, to, burst));
    BreachIs(g, from, to, burst);
    TooMany(s, Breach(g, from, to, burst), from, to, burst);
  }

  lemma FirstTake(s: State, g: nat, from: real)
    requires s.Valid() && s.lastRefill <= from && Hoards(s, from) && g in s.ready
    ensures var to := FullAt(s, from);
      var r := Run(s, [TakeBy(g, from)]);
      && Legal(s, [TakeBy(g, from)]) && from <= to && Tokens.Earned(s.rate, from, to) < 1.0
      && r.Valid() && g !in r.ready && r.grants == s.grants + 1 && r.Refill(to).tokens == s.maxTokens
  {
    RefillsAfterTake(s, from);
    var a := TakeBy(g, from);
    assert [a][..0] == [];
    assert Run(s, [a]) == Next(s, a);
    SameButReady(Next(s, a), s.Take(), FullAt(s, from));
    hide FullAt, Hoards;
  }

  /** Who is ready does not matter to a refill. */
  lemma SameButReady(s: State, t: State, now: real)
    requires s == t.(ready := s.ready)
    ensures s.Refill(now) == t.Refill(now).(ready := s.ready)
  {
  }

  lemma BreachIs(g: nat, from: real, to: real, burst: nat)
    requires from <= to
    ensures Breach(g, from, to, burst) == [TakeBy(g, from)] + Drain(g, to, burst)
    ensures Within(Breach(g, from, to, burst), from, to)
  {
    var drain := Drain(g, to, burst);
    var all := [TakeBy(g, from)] + drain;
    forall i | 1 <= i < |all| ensures Instant(all[i]) == to {
      assert all[i] == drain[i - 1] && drain[i - 1] in drain;
    }
  }

  lemma TooMany(s: State, actions: seq<Action>, from: real, to: real, burst: nat)
    requires s.maxTokens == burst as real && Tokens.Earned(s.rate, from, to) < 1.0
    requires Run(s, actions).grants == s.grants + 1 + burst
    ensures !KeepsWindowBound(s, actions, from, to)
  {
    hide Run, Tokens.Earned;
  }

  /**
    The bound of a window that opens now can be broken exactly when some goroutine has
    refilled and not yet taken, a token is there, and the bucket would overflow by now.
  */
  lemma WindowBoundIff(s: State, from: real, burst: nat)
    requires s.Valid() && s.maxTokens == burst as real && burst >= 1 && s.lastRefill <= from
    ensures Hoards(s, from) <==>
      exists actions, to :: Within(actions, from, to) && Legal(s, actions) && !KeepsWindowBound(s, actions, from, to)
  {
    if Hoards(s, from) {
      var g :| g in s.ready;
      HoardBreaksBound(s, g, from, burst);
    } else {
      forall actions, to | Within(actions, from, to) && Legal(s, actions) ensures KeepsWindowBound(s, actions, from, to) {
        WindowBound(s, actions, from, to);
      }
    }
  }

  lemma DrainOnce(g: nat, at: real)
    ensures Drain(g, at, 1) == [RefillBy(g, at), TakeBy(g, at)]
    ensures Breach(g, at, at, 1) == [TakeBy(g, at), RefillBy(g, at), TakeBy(g, at)]
  {
    assert Drain(g, at, 0) == [];
  }

  /**
    Such states are reached: goroutine 0 refills at time 0, takes only at time 10 and asks again at
    once. With one token and one token per second, the window from 10 to 10 grants two where the bound is one.
  */
  lemma WindowBoundFails()
    ensures var start := State(1.0, 1.0, 1.0, 0.0, {}, 0);
      var early, late := [RefillBy(0, 0.0)], [TakeBy(0, 10.0), RefillBy(0, 10.0), TakeBy(0, 10.0)];
      && start.Valid() && Within(early, 0.0, 10.0) && Legal(start, early)
      && Within(late, 10.0, 10.0) && Legal(Run(start, early), late)
      && !KeepsWindowBound(Run(start, early), late, 10.0, 10.0)
  {
    var start, a := State(1.0, 1.0, 1.0, 0.0, {}, 0), RefillBy(0, 0.0);
    assert [a][..0] == [];
    var s := Run(start, [a]);
    assert Run(start, []) == start;
    assert s == Next(start, a);
    HoardBreaksBound(s, 0, 10.0, 1);
    DrainOnce(0, 10.0);
  }
}
