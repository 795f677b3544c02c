/**
 The bridge's token buckets, over the reals: how much any window of any run can admit, and what the
 advertised waiting time is worth.
 */
module RateLimit {
  import opened Prelude

  datatype Level = Level(rate: real, burst: real, tokens: real, updated: real)

  /** A bucket holds between nothing and its burst; its rate is positive and its burst at least one. */
  predicate Sane(b: Level) { b.rate > 0.0 && b.burst >= 1.0 && 0.0 <= b.tokens <= b.burst }

  function Max(x: real, y: real): real { if x < y then y else x }

  function Min(x: real, y: real): real { if y < x then y else x }

  function Refilled(b: Level, now: real): real {
    Min(b.burst, b.tokens + Max(0.0, now - b.updated) * b.rate)
  }

  predicate Admits(b: Level, now: real) { Refilled(b, now) >= 1.0 }

  /** The bucket after one request, admitted or not. */
  function Charged(b: Level, now: real): Level {
    b.(tokens := if Admits(b, now) then Refilled(b, now) - 1.0 else Refilled(b, now), updated := now)
  }

  /** The whole seconds advertised to a refused caller. */
  function RetryAfter(b: Level): int
    requires b.rate > 0.0
  {
    if b.tokens >= 1.0 then 1
    else
      var n := ((1.0 - b.tokens) / b.rate).Floor + 1;
      if n < 1 then 1 else n
  }

  class TokenBucket {
    var rate: real
    var burst: real
    var tokens: real
    var updated: real

    function Now(): Level
      reads this
    {
      Level(rate, burst, tokens, updated)
    }

    constructor (perMinute: int, size: int, now: real)
      requires perMinute > 0 && size > 0
      ensures Now() == Level(perMinute as real / 60.0, size as real, size as real, now) && Sane(Now())
    {
      rate := perMinute as real / 60.0;
      burst := size as real;
      tokens := size as real;
      updated := now;
    }

    method Take(now: real) returns (ok: bool)
      requires Sane(Now())
      modifies this
      ensures ok == Admits(old(Now()), now)
      ensures Now() == Charged(old(Now()), now) && Sane(Now())
    {
      ghost var was := Now();
      RefillBounds(was, now);
      var elapsed := Max(0.0, now - updated);
      updated := now;
      tokens := Min(burst, tokens + elapsed * rate);
      if tokens < 1.0 {
        return false;
      }
      tokens := tokens - 1.0;
      ok := true;
    }

    method RetryAfterSeconds() returns (r: int)
      requires Sane(Now())
      ensures r == RetryAfter(Now()) && r >= 1
    {
      if tokens >= 1.0 {
        return 1;
      }
      var missing := 1.0 - tokens;
      var n := (missing / rate).Floor + 1;
      r := if n < 1 then 1 else n;
    }
  }

  lemma RefillBounds(b: Level, now: real)
    requires Sane(b)
    ensures b.tokens <= Refilled(b, now) <= b.burst
  {
    assert Max(0.0, now - b.updated) * b.rate >= 0.0;
  }

  // ---- refilling -------------------------------------------------------------------------------------

  /** A bucket that nobody asks earns its rate for the time that has passed, up to its burst; a clock that went back earns none. */
  lemma RefilledExact(b: Level, now: real)
    requires Sane(b)
    ensures now <= b.updated ==> Refilled(b, now) == b.tokens
    ensures b.updated <= now && b.tokens + (now - b.updated) * b.rate <= b.burst ==>
      Refilled(b, now) == b.tokens + (now - b.updated) * b.rate
    ensures b.updated <= now && b.tokens + (now - b.updated) * b.rate >= b.burst ==> Refilled(b, now) == b.burst
  {
    if now <= b.updated { assert Max(0.0, now - b.updated) == 0.0; } else { assert Max(0.0, now - b.updated) == now - b.updated; }
  }

  /** It makes no difference whether the time passes at once or in two parts. */
  lemma RefilledInParts(b: Level, t: real, u: real)
    requires Sane(b) && b.updated <= t <= u
    ensures Refilled(b.(tokens := Refilled(b, t), updated := t), u) == Refilled(b, u)
  {
    RefillBounds(b, t);
    var c := b.(tokens := Refilled(b, t), updated := t);
    RefilledExact(b, t);
    RefilledExact(b, u);
    RefilledExact(c, u);
    InParts(b.rate, b.updated, t, u);
  }

  lemma InParts(rate: real, s: real, t: real, u: real)
    requires rate > 0.0 && s <= t <= u
    ensures (t - s) * rate + (u - t) * rate == (u - s) * rate && (u - t) * rate >= 0.0 && (t - s) * rate >= 0.0
  {
  }

  // ---- any window of any run -------------------------------------------------------------------------

  predicate Forward(from: real, times: seq<real>) {
    && (forall k :: 0 <= k < |times| ==> from <= times[k])
    && forall i, j :: 0 <= i < j < |times| ==> times[i] <= times[j]
  }

  function After(b: Level, times: seq<real>): Level
    decreases |times|
  {
    if times == [] then b else After(Charged(b, times[0]), times[1..])
  }

  /** How many of these requests are admitted. */
  function Admitted(b: Level, times: seq<real>): nat
    decreases |times|
  {
    if times == [] then 0
    else (if Admits(b, times[0]) then 1 else 0) + Admitted(Charged(b, times[0]), times[1..])
  }

  lemma ChargedSane(b: Level, now: real)
    requires Sane(b)
    ensures Sane(Charged(b, now)) && Charged(b, now).rate == b.rate && Charged(b, now).burst == b.burst
  {
    RefillBounds(b, now);
  }

  lemma {:induction false} AfterSane(b: Level, times: seq<real>)
    requires Sane(b)
    ensures var c := After(b, times);
      Sane(c) && c.rate == b.rate && c.burst == b.burst
      && c.updated == if times == [] then b.updated else times[|times| - 1]
    decreases |times|
  {
    if times != [] {
      ChargedSane(b, times[0]);
      hide Sane, Refilled, Admits;
      AfterSane(Charged(b, times[0]), times[1..]);
    }
  }

  /** The tokens a bucket of this rate earns in this time. */
  function Earned(rate: real, wait: real): real { rate * wait }

  lemma Spread(rate: real, a: real, b: real, c: real)
    ensures Earned(rate, b - a) + Earned(rate, c - b) == Earned(rate, c - a)
  {
    assert rate * (b - a) == rate * b - rate * a;
    assert rate * (c - b) == rate * c - rate * b;
    assert rate * (c - a) == rate * c - rate * a;
  }

  /** One request takes out of the bucket what it admits, and the time up to it is all that came in. */
  lemma OneRequest(b: Level, u: real)
    requires Sane(b) && b.updated <= u
    ensures (if Admits(b, u) then 1.0 else 0.0) + Charged(b, u).tokens <= b.tokens + Earned(b.rate, u - b.updated)
    ensures (if Admits(b, u) then 1.0 else 0.0) + Charged(b, u).tokens <= b.burst
  {
    RefillBounds(b, u);
    assert Max(0.0, u - b.updated) == u - b.updated;
  }

  lemma ForwardTail(from: real, times: seq<real>)
    requires times != [] && Forward(from, times)
    ensures from <= times[0] && Forward(times[0], times[1..])
  {
    forall k | 0 <= k < |times[1..]| ensures times[0] <= times[1..][k] { assert times[1..][k] == times[k + 1]; }
  }

  predicate Until(times: seq<real>, t: real) { forall k :: 0 <= k < |times| ==> times[k] <= t }

  /** What has come in bounds what goes out. */
  lemma {:induction false} Conservation(b: Level, times: seq<real>, t: real)
    requires Sane(b) && Forward(b.updated, times) && b.updated <= t && Until(times, t)
    ensures Admitted(b, times) as real <= b.tokens + Earned(b.rate, t - b.updated)
    decreases |times|
  {
    hide Sane, Forward, Until, Admits, Earned, Refilled;
    if times == [] {
      Nonnegative(b, t - b.updated);
    } else {
      var u, c := times[0], Charged(b, times[0]);
      ForwardTail(b.updated, times);
      UntilTail(times, t);
      ChargedSane(b, u);
      OneRequest(b, u);
      Conservation(c, times[1..], t);
      Spread(b.rate, b.updated, u, t);
    }
  }

  lemma UntilTail(times: seq<real>, t: real)
    requires times != [] && Until(times, t)
    ensures times[0] <= t && Until(times[1..], t)
  {
  }

  lemma Nonnegative(b: Level, wait: real)
    requires Sane(b) && wait >= 0.0
    ensures b.tokens + Earned(b.rate, wait) >= 0.0 && Earned(b.rate, wait) >= 0.0
  {
  }

  lemma ForwardSplit(from: real, before: seq<real>, inside: seq<real>)
    requires Forward(from, before + inside)
    ensures Forward(from, before)
    ensures Forward(if before == [] then from else before[|before| - 1], inside)
  {
    var all := before + inside;
    assert forall k :: 0 <= k < |before| ==> before[k] == all[k];
    assert forall k :: 0 <= k < |inside| ==> inside[k] == all[|before| + k];
  }

  /**
   The rate bound: in any run of requests at times that do not go back, those inside a window [s, t]
   that are admitted are at most the burst and the rate times the window.
   */
  lemma WindowBound(b: Level, before: seq<real>, inside: seq<real>, s: real, t: real)
    requires Sane(b) && Forward(b.updated, before + inside) && s <= t
    requires forall k :: 0 <= k < |inside| ==> s <= inside[k] <= t
    ensures Admitted(After(b, before), inside) as real <= b.burst + Earned(b.rate, t - s)
  {
    assert Until(inside, t);
    hide Sane, Forward, Until, Admits, Earned, Refilled, After;
    ForwardSplit(b.updated, before, inside);
    AfterSane(b, before);
    var c := After(b, before);
    if inside == [] {
      Nonnegative(c, t - s);
      BurstPositive(c);
    } else {
      WindowFromFirst(c, inside, s, t);
    }
  }

  lemma BurstPositive(b: Level)
    requires Sane(b)
    ensures b.burst >= 1.0
  {
  }

  lemma WindowFromFirst(c: Level, inside: seq<real>, s: real, t: real)
    requires Sane(c) && Forward(c.updated, inside) && inside != [] && s <= inside[0] && Until(inside, t)
    ensures Admitted(c, inside) as real <= c.burst + Earned(c.rate, t - s)
  {
    hide Sane, Forward, Until, Admits, Earned, Refilled;
    var u := inside[0];
    ForwardTail(c.updated, inside);
    UntilTail(inside, t);
    ChargedSane(c, u);
    OneRequest(c, u);
    Conservation(Charged(c, u), inside[1..], t);
    Spread(c.rate, s, u, t);
    Nonnegative(c, u - s);
  }

  // ---- the advertised wait ------------------------------------------------------------------------------

  /** A refusing bucket admits after the advertised seconds without another call, and any later. */
  lemma WaitSuffices(b: Level, now: real, later: real)
    requires Sane(b) && b.updated <= now && !Admits(b, now)
    requires later >= now + RetryAfter(Charged(b, now)) as real
    ensures Admits(Charged(b, now), later)
  {
    var c := Charged(b, now);
    ChargedSane(b, now);
    var missing := 1.0 - c.tokens;
    EnoughTime(missing, c.rate, RetryAfter(c), later - now);
  }

  lemma EnoughTime(missing: real, rate: real, n: int, wait: real)
    requires rate > 0.0 && n >= (missing / rate).Floor + 1 && wait >= n as real && wait >= 0.0
    ensures wait * rate >= missing
  {
    var q := missing / rate;
    assert wait >= q;
    assert wait * rate >= q * rate;
  }

  /** The advertised wait is the least whole number of seconds, and at least one, that earns more than what is missing. */
  lemma RetryAfterExact(b: Level, n: int)
    requires Sane(b) && b.tokens < 1.0
    ensures n == RetryAfter(b) <==>
      n >= 1 && n as real * b.rate > 1.0 - b.tokens && (n == 1 || (n - 1) as real * b.rate <= 1.0 - b.tokens)
  {
    var missing := 1.0 - b.tokens;
    FloorExact(missing, b.rate, n);
    FloorExact(missing, b.rate, RetryAfter(b));
  }

  lemma FloorExact(missing: real, rate: real, n: int)
    requires rate > 0.0 && missing >= 0.0
    ensures n as real * rate > missing <==> n > (missing / rate).Floor
    ensures (n - 1) as real * rate <= missing <==> n - 1 <= (missing / rate).Floor
  {
    Scaled(missing, rate, n);
    Scaled(missing, rate, n - 1);
  }

  lemma Scaled(missing: real, rate: real, n: int)
    requires rate > 0.0
    ensures n as real * rate <= missing <==> n as real <= missing / rate
    ensures n as real <= missing / rate <==> n <= (missing / rate).Floor
  {
    var q := missing / rate;
    assert q * rate == missing;
    if n as real <= q { assert n as real * rate <= q * rate; } else { assert n as real * rate > q * rate; }
  }

  /** The wait is not much too long either: two whole seconds less, or more, and the bucket still refuses. */
  lemma WaitIsTight(b: Level, now: real, wait: nat)
    requires Sane(b) && b.updated <= now && !Admits(b, now)
    requires wait + 2 <= RetryAfter(Charged(b, now))
    ensures !Admits(Charged(b, now), now + wait as real)
  {
    var c := Charged(b, now);
    ChargedSane(b, now);
    TooSoon(1.0 - c.tokens, c.rate, wait);
    hide Admits;
    StillShort(c, now + wait as real, wait as real);
  }

  lemma TooSoon(missing: real, rate: real, wait: nat)
    requires rate > 0.0 && wait + 1 <= (missing / rate).Floor
    ensures wait as real * rate < missing
  {
    var q := missing / rate;
    assert wait as real < q;
    assert wait as real * rate < q * rate;
  }

  lemma StillShort(c: Level, later: real, wait: real)
    requires Sane(c) && wait >= 0.0 && later == c.updated + wait && wait * c.rate < 1.0 - c.tokens
    ensures !Admits(c, later)
  {
    assert Max(0.0, later - c.updated) == wait;
  }

  // ---- two buckets -------------------------------------------------------------------------------------

  /** `None` when allowed, or the seconds to wait. A refused mutation has still cost a general token. */
  function Checked(all: Level, mutations: Level, mutation: bool, now: real, then_: real): (Level, Level, Option<int>)
    requires Sane(all) && Sane(mutations)
  {
    ChargedSane(all, now);
    ChargedSane(mutations, then_);
    var a := Charged(all, now);
    if !Admits(all, now) then (a, mutations, Some(RetryAfter(a)))
    else if !mutation then (a, mutations, None)
    else
      var m := Charged(mutations, then_);
      (a, m, if Admits(mutations, then_) then None else Some(RetryAfter(m)))
  }

  class RateLimiter {
    const general: TokenBucket
    const writes: TokenBucket

    constructor (perMinute: int, burst: int, mutationPerMinute: int, mutationBurst: int, now: real)
      requires perMinute > 0 && burst > 0 && mutationPerMinute > 0 && mutationBurst > 0
      ensures Valid() && fresh(general) && fresh(writes)
      ensures general.Now() == Level(perMinute as real / 60.0, burst as real, burst as real, now)
      ensures writes.Now() == Level(mutationPerMinute as real / 60.0, mutationBurst as real, mutationBurst as real, now)
    {
      general := new TokenBucket(perMinute, burst, now);
      writes := new TokenBucket(mutationPerMinute, mutationBurst, now);
    }

    ghost predicate Valid()
      reads general, writes
    {
      general != writes && Sane(general.Now()) && Sane(writes.Now())
    }

    /** The clock is read once by each bucket that is asked: `now`, and later `then_`. */
    method Check(mutation: bool, now: real, then_: real) returns (r: Option<int>)
      requires Valid()
      modifies general, writes
      ensures Valid()
      ensures (general.Now(), writes.Now(), r) == Checked(old(general.Now()), old(writes.Now()), mutation, now, then_)
      // An admitted request takes one token from each bucket it asks.
      ensures r.None? ==> general.Now().tokens == Refilled(old(general.Now()), now) - 1.0
      ensures r.None? && mutation ==> writes.Now().tokens == Refilled(old(writes.Now()), then_) - 1.0
      // A mutation refused by its own bucket has cost a general token, and no mutation token.
      ensures r.Some? && Admits(old(general.Now()), now) ==>
        && mutation && general.Now().tokens == Refilled(old(general.Now()), now) - 1.0
        && writes.Now().tokens == Refilled(old(writes.Now()), then_) < 1.0
      // Reads, and mutations refused by the general bucket, leave the mutation bucket alone.
      ensures !mutation || !Admits(old(general.Now()), now) ==> writes.Now() == old(writes.Now())
      // The wait advertised is that of the bucket that refused.
      ensures r.Some? ==>
        r.value >= 1 && r.value == RetryAfter(if Admits(old(general.Now()), now) then writes.Now() else general.Now())
    {
      var first := general.Take(now);
      if !first {
        var wait := general.RetryAfterSeconds();
        return Some(wait);
      }
      if mutation {
        var second := writes.Take(then_);
        if !second {
          var wait := writes.RetryAfterSeconds();
          return Some(wait);
        }
      }
      r := None;
    }
  }

  /** The mutation bucket is the one that refused. */
  predicate MutationRefused(all: Level, mutations: Level, now: real, then_: real) {
    Admits(all, now) && !Admits(mutations, then_)
  }

  /**
   After a refusal by the mutation bucket and the advertised wait with no other call, the whole
   check passes exactly when the general bucket, which was charged as well, has a token again.
   */
  lemma CheckPassesIff(all: Level, mutations: Level, now: real, then_: real, again: real, againThen: real)
    requires Sane(all) && Sane(mutations) && all.updated <= now <= then_ && mutations.updated <= then_
    requires MutationRefused(all, mutations, now, then_)
    requires var (a, m, r) := Checked(all, mutations, true, now, then_);
      r.Some? && then_ + r.value as real <= again <= againThen
    ensures var (a, m, r) := Checked(all, mutations, true, now, then_);
      Sane(a) && Sane(m)
      && (Checked(a, m, true, again, againThen).2.None? <==> a.tokens + (again - now) * a.rate >= 1.0)
  {
    ChargedSane(all, now);
    ChargedSane(mutations, then_);
    WaitSuffices(mutations, then_, againThen);
  }

  /** With a general rate of at least one a second, as by default, it always has. */
  lemma CheckPassesAfterWait(all: Level, mutations: Level, now: real, then_: real, again: real, againThen: real)
    requires Sane(all) && Sane(mutations) && all.updated <= now <= then_ && mutations.updated <= then_
    requires MutationRefused(all, mutations, now, then_) && all.rate >= 1.0
    requires var (a, m, r) := Checked(all, mutations, true, now, then_);
      r.Some? && then_ + r.value as real <= again <= againThen
    ensures var (a, m, r) := Checked(all, mutations, true, now, then_);
      Sane(a) && Sane(m) && Checked(a, m, true, again, againThen).2.None?
  {
    CheckPassesIff(all, mutations, now, then_, again, againThen);
    var (a, m, r) := Checked(all, mutations, true, now, then_);
    assert r.value >= 1;
    assert again - now >= 1.0;
    assert (again - now) * a.rate >= 1.0;
  }

  /** With a slower general bucket the advertised wait can be too short for the whole check. */
  lemma SlowGeneralRefuses()
    ensures var all, mutations := Level(0.5, 1.0, 1.0, 0.0), Level(1.0, 1.0, 0.5, 0.0);
      var (a, m, r) := Checked(all, mutations, true, 0.0, 0.0);
      MutationRefused(all, mutations, 0.0, 0.0) && r == Some(1) && Sane(a) && Sane(m)
      && Checked(a, m, true, 1.0, 1.0).2 == Some(2)
  {
    var all, mutations := Level(0.5, 1.0, 1.0, 0.0), Level(1.0, 1.0, 0.5, 0.0);
    var a, m := Charged(all, 0.0), Charged(mutations, 0.0);
    assert a == Level(0.5, 1.0, 0.0, 0.0) && m == Level(1.0, 1.0, 0.5, 0.0);
    assert RetryAfter(m) == 1;
    assert Charged(a, 1.0) == Level(0.5, 1.0, 0.5, 1.0);
    assert RetryAfter(Charged(a, 1.0)) == 2;
  }
}
