/** The rate limiter's token buckets, with times in seconds and `real` in place of floating point. */
module TokenBucket {
  import opened Text

  datatype Config = Config(rate: real, capacity: nat)

  predicate ConfigOk(c: Config) {
    c.rate > 0.0 && c.capacity > 0
  }

  datatype Bucket = Bucket(tokens: real, lastRefill: real)

  type Buckets = map<string, Bucket>

  function Min(x: real, y: real): real {
    if x <= y then x else y
  }

  function BucketOf(bs: Buckets, c: Config, key: string, now: real): Bucket {
    if key in bs then bs[key] else Bucket(c.capacity as real, now)
  }

  /** The tokens at `now`: none are gained over a clock that ran backwards. */
  function Refilled(b: Bucket, c: Config, now: real): real {
    Min(c.capacity as real, b.tokens + (if now < b.lastRefill then 0.0 else now - b.lastRefill) * c.rate)
  }

  predicate Allows(bs: Buckets, c: Config, key: string, now: real) {
    key != "" && Refilled(BucketOf(bs, c, key, now), c, now) >= 1.0
  }

  function After(bs: Buckets, c: Config, key: string, now: real): Buckets {
    if key == "" then bs
    else
      var t := Refilled(BucketOf(bs, c, key, now), c, now);
      bs[key := Bucket(if t >= 1.0 then t - 1.0 else t, now)]
  }

  predicate Within(bs: Buckets, c: Config) {
    forall k :: k in bs ==> 0.0 <= bs[k].tokens <= c.capacity as real
  }

  datatype Decision = Decision(allowed: bool, limit: int, remaining: int, retryAfter: real, reset: real)

  lemma GainNonNegative(elapsed: real, rate: real)
    requires elapsed >= 0.0 && rate > 0.0
    ensures elapsed * rate >= 0.0
  {
  }

  lemma RefilledWithin(b: Bucket, c: Config, now: real)
    requires ConfigOk(c) && 0.0 <= b.tokens <= c.capacity as real
    ensures b.tokens <= Refilled(b, c, now) <= c.capacity as real
  {
    GainNonNegative(if now < b.lastRefill then 0.0 else now - b.lastRefill, c.rate);
  }

  class Limiter {
    const c: Config
    var buckets: Buckets

    ghost predicate Valid()
      reads this
    {
      ConfigOk(c) && Within(buckets, c)
    }

    constructor (c: Config)
      requires ConfigOk(c)
      ensures Valid() && buckets == map[] && this.c == c
    {
      this.c := c;
      buckets := map[];
    }

    /** Takes a token from the key's own bucket if there is one; no other bucket changes. `after` is the clock once more. */
    method Allow(key: string, now: real, after: real) returns (d: Decision)
      requires Valid()
      modifies this
      ensures Valid() && buckets == After(old(buckets), c, key, now)
      ensures d.allowed <==> Allows(old(buckets), c, key, now)
      ensures key != "" && key !in old(buckets) ==> d.allowed
      ensures key == "" ==> d == Decision(false, 0, 0, 0.0, 0.0)
      ensures key != "" ==>
              && d.limit == c.capacity
              && d.remaining as real <= buckets[key].tokens < d.remaining as real + 1.0
              && d.retryAfter == (if d.allowed then 0.0 else Wait(buckets[key], c))
              && d.reset == after + Missing(buckets[key], c)
    {
      if key == "" {
        return Decision(false, 0, 0, 0.0, 0.0);
      }
      var b := BucketOf(buckets, c, key, now);
      RefilledWithin(b, c, now);
      FullAtFirst(c, now);
      var tokens := Refill(b, now);
      var allowed := tokens >= 1.0;
      if allowed {
        tokens := tokens - 1.0;
      }
      buckets := buckets[key := Bucket(tokens, now)];
      d := Decision(allowed, c.capacity, tokens.Floor, if allowed then 0.0 else Wait(buckets[key], c),
                    after + Missing(buckets[key], c));
    }

    method Refill(b: Bucket, now: real) returns (tokens: real)
      ensures tokens == Refilled(b, c, now)
    {
      var elapsed := now - b.lastRefill;
      if elapsed < 0.0 {
        elapsed := 0.0;
      }
      tokens := Min(c.capacity as real, b.tokens + elapsed * c.rate);
    }
  }

  /** The advertised wait after a refusal. */
  function Wait(b: Bucket, c: Config): real
    requires c.rate != 0.0
  {
    (1.0 - b.tokens) / c.rate
  }

  /** How long the bucket takes to fill up. */
  function Missing(b: Bucket, c: Config): real
    requires c.rate != 0.0
  {
    (c.capacity as real - b.tokens) / c.rate
  }

  /** The reset time is exact up to the second clock reading: with no call in between, the bucket is full from then on. */
  lemma ResetIsFull(b: Bucket, c: Config, later: real)
    requires ConfigOk(c) && 0.0 <= b.tokens <= c.capacity as real && later >= b.lastRefill
    ensures Refilled(b, c, later) == c.capacity as real <==> later - b.lastRefill >= Missing(b, c)
  {
    var w := later - b.lastRefill;
    assert Missing(b, c) * c.rate == c.capacity as real - b.tokens;
    Compared(w, Missing(b, c), c.rate);
    assert Refilled(b, c, later) == Min(c.capacity as real, b.tokens + w * c.rate);
  }

  /** The wait is exact: with no call in between, the next one is allowed just when it has passed. */
  lemma WaitIsExact(bs: Buckets, c: Config, key: string, later: real)
    requires ConfigOk(c) && Within(bs, c) && key != "" && key in bs && bs[key].tokens < 1.0 && later >= bs[key].lastRefill
    ensures Allows(bs, c, key, later) <==> later - bs[key].lastRefill >= Wait(bs[key], c)
  {
    var b := bs[key];
    var w := later - b.lastRefill;
    assert (1.0 - b.tokens) / c.rate * c.rate == 1.0 - b.tokens;
    Compared(w, Wait(b, c), c.rate);
    RefilledWithin(b, c, later);
    assert Wait(b, c) * c.rate == 1.0 - b.tokens;
    assert Refilled(b, c, later) == Min(c.capacity as real, b.tokens + w * c.rate);
    assert c.capacity as real >= 1.0;
  }

  lemma Compared(x: real, y: real, rate: real)
    requires rate > 0.0
    ensures x >= y <==> x * rate >= y * rate
  {
    if x >= y {
      GainNonNegative(x - y, rate);
    } else {
      assert (y - x) * rate > 0.0;
    }
  }

  // Runs

  /** Calls on a limiter, the latest outermost. */
  datatype Calls = Start | Then(before: Calls, key: string, now: real)

  function Run(bs: Buckets, c: Config, calls: Calls): Buckets {
    match calls
    case Start => bs
    case Then(before, key, now) => After(Run(bs, c, before), c, key, now)
  }

  lemma {:induction false} RunWithin(bs: Buckets, c: Config, calls: Calls)
    requires ConfigOk(c) && Within(bs, c)
    ensures Within(Run(bs, c, calls), c)
  {
    if calls.Then? {
      RunWithin(bs, c, calls.before);
      RefilledWithin(BucketOf(Run(bs, c, calls.before), c, calls.key, calls.now), c, calls.now);
    }
  }

  /** How many of the calls for `key` are allowed. */
  function Allowed(bs: Buckets, c: Config, calls: Calls, key: string): nat {
    match calls
    case Start => 0
    case Then(before, k, now) =>
      Allowed(bs, c, before, key) + if k == key && Allows(Run(bs, c, before), c, key, now) then 1 else 0
  }

  /** The calls for one key. */
  function Only(calls: Calls, key: string): Calls {
    match calls
    case Start => Start
    case Then(before, k, now) => if k == key then Then(Only(before, key), k, now) else Only(before, key)
  }

  predicate SameBucket(bs: Buckets, other: Buckets, key: string) {
    (key in bs <==> key in other) && (key in bs ==> bs[key] == other[key])
  }

  /** Keys do not affect each other: with all other keys' calls left out, a key's bucket and decisions are the same. */
  lemma {:induction false} KeysAreIndependent(bs: Buckets, c: Config, calls: Calls, key: string)
    ensures SameBucket(Run(bs, c, calls), Run(bs, c, Only(calls, key)), key)
    ensures Allowed(bs, c, calls, key) == Allowed(bs, c, Only(calls, key), key)
  {
    if calls.Then? {
      KeysAreIndependent(bs, c, calls.before, key);
    }
  }

  /** The time of the latest call for `key`. */
  function Latest(calls: Calls, key: string): Option<real> {
    match calls
    case Start => None
    case Then(before, k, now) => if k == key then Some(now) else Latest(before, key)
  }

  /** The calls for `key` fall in the window, in clock order; other keys' clocks do not matter. */
  predicate InWindow(calls: Calls, key: string, from: real, to: real) {
    match calls
    case Start => true
    case Then(before, k, now) =>
      && InWindow(before, key, from, to)
      && (k == key ==> from <= now <= to && (Latest(before, key).Some? ==> Latest(before, key).value <= now))
  }

  /** `n` allowed plus what is left is at most the capacity plus what time has added since `from`. */
  predicate Covered(n: nat, b: Bucket, c: Config, from: real) {
    n as real + b.tokens <= c.capacity as real + (b.lastRefill - from) * c.rate
  }

  lemma TakeFirst(b: Bucket, c: Config, now: real, from: real)
    requires ConfigOk(c) && from <= now && 0.0 <= b.tokens <= c.capacity as real
    ensures var t := Refilled(b, c, now);
            if t >= 1.0 then Covered(1, Bucket(t - 1.0, now), c, from) else Covered(0, Bucket(t, now), c, from)
  {
    RefilledWithin(b, c, now);
    GainNonNegative(now - from, c.rate);
  }

  lemma TakeNext(n: nat, b: Bucket, c: Config, now: real, from: real)
    requires ConfigOk(c) && b.lastRefill <= now && Covered(n, b, c, from)
    ensures var t := Refilled(b, c, now);
            if t >= 1.0 then Covered(n + 1, Bucket(t - 1.0, now), c, from) else Covered(n, Bucket(t, now), c, from)
  {
    assert (now - b.lastRefill) * c.rate + (b.lastRefill - from) * c.rate == (now - from) * c.rate;
  }

  lemma {:induction false} Conserved(bs: Buckets, c: Config, calls: Calls, key: string, from: real, to: real)
    requires ConfigOk(c) && Within(bs, c) && key != "" && InWindow(calls, key, from, to)
    ensures var after := Run(bs, c, calls);
            match Latest(calls, key)
            case None => Allowed(bs, c, calls, key) == 0 && (key in after <==> key in bs)
            case Some(t) =>
              && from <= t <= to && key in after && after[key].lastRefill == t
              && Covered(Allowed(bs, c, calls, key), after[key], c, from)
  {
    if calls.Then? {
      Conserved(bs, c, calls.before, key, from, to);
      if calls.key == key {
        var b := BucketOf(Run(bs, c, calls.before), c, key, calls.now);
        if Latest(calls.before, key).Some? {
          TakeNext(Allowed(bs, c, calls.before, key), b, c, calls.now, from);
        } else {
          RunWithin(bs, c, calls.before);
          TakeFirst(b, c, calls.now, from);
        }
      }
    }
  }

  lemma WindowFrom(bs: Buckets, c: Config, calls: Calls, key: string, from: real, to: real)
    requires ConfigOk(c) && Within(bs, c) && key != "" && from <= to && InWindow(calls, key, from, to)
    ensures Allowed(bs, c, calls, key) as real <= c.capacity as real + (to - from) * c.rate
  {
    Conserved(bs, c, calls, key, from, to);
    var n, latest := Allowed(bs, c, calls, key), Latest(calls, key);
    if latest.None? {
      GainNonNegative(to - from, c.rate);
    } else {
      var b := Run(bs, c, calls)[key];
      assert b.tokens >= 0.0 by {
        RunWithin(bs, c, calls);
      }
      CoveredBound(n, b, c, from, to);
    }
  }

  /** In any window of any run, a key is allowed at most the capacity plus the rate times the window's length. */
  lemma WindowBound(earlier: Calls, c: Config, calls: Calls, key: string, from: real, to: real)
    requires ConfigOk(c) && key != "" && from <= to && InWindow(calls, key, from, to)
    ensures Allowed(Run(map[], c, earlier), c, calls, key) as real <= c.capacity as real + (to - from) * c.rate
  {
    RunWithin(map[], c, earlier);
    WindowFrom(Run(map[], c, earlier), c, calls, key, from, to);
  }

  lemma CoveredBound(n: nat, b: Bucket, c: Config, from: real, to: real)
    requires ConfigOk(c) && Covered(n, b, c, from) && b.tokens >= 0.0 && b.lastRefill <= to
    ensures n as real <= c.capacity as real + (to - from) * c.rate
  {
    Compared(to - from, b.lastRefill - from, c.rate);
  }

  // What is allowed, exactly: accounting without buckets

  /** The last time a key's bucket was full, and the calls allowed since then, that one included. */
  datatype Account = Account(since: real, allowed: nat)

  /** The capacity plus what time has added since, less the calls allowed. */
  function Due(a: Account, c: Config, now: real): real {
    c.capacity as real + (now - a.since) * c.rate - a.allowed as real
  }

  /** A key starts full; a call that finds the capacity covered starts over, any other is allowed for a whole token. */
  function Ledger(c: Config, calls: Calls, key: string): Option<Account> {
    match calls
    case Start => None
    case Then(before, k, now) =>
      var a := Ledger(c, before, key);
      if k != key then a
      else if a.None? || Due(a.value, c, now) >= c.capacity as real then Some(Account(now, 1))
      else Some(Account(a.value.since, a.value.allowed + if Due(a.value, c, now) >= 1.0 then 1 else 0))
  }

  /** The calls for `key` are in clock order. */
  predicate InOrder(calls: Calls, key: string) {
    match calls
    case Start => true
    case Then(before, k, now) =>
      InOrder(before, key) && (k == key && Latest(before, key).Some? ==> Latest(before, key).value <= now)
  }

  /** Refilling gives what is due, up to the capacity. */
  lemma RefilledIsDue(a: Account, b: Bucket, c: Config, now: real)
    requires ConfigOk(c) && b.lastRefill <= now && b.tokens == Due(a, c, b.lastRefill)
    ensures Refilled(b, c, now) == Min(c.capacity as real, Due(a, c, now))
  {
    assert (now - b.lastRefill) * c.rate + (b.lastRefill - a.since) * c.rate == (now - a.since) * c.rate;
  }

  lemma SpendOne(a: Account, c: Config, now: real)
    ensures Due(a.(allowed := a.allowed + 1), c, now) == Due(a, c, now) - 1.0
  {
  }

  lemma NoGain(elapsed: real, rate: real)
    requires elapsed == 0.0
    ensures elapsed * rate == 0.0
  {
  }

  lemma DueAtOnce(n: nat, c: Config, now: real)
    ensures Due(Account(now, n), c, now) == c.capacity as real - n as real
  {
    NoGain(now - Account(now, n).since, c.rate);
  }

  /** A bucket of a key that was new holds what is due at its last call. */
  lemma {:induction false} BucketIsDue(bs: Buckets, c: Config, calls: Calls, key: string)
    requires ConfigOk(c) && key != "" && key !in bs && InOrder(calls, key)
    ensures var after := Run(bs, c, calls);
            match Ledger(c, calls, key)
            case None => key !in after && Latest(calls, key).None?
            case Some(a) =>
              key in after && Latest(calls, key) == Some(after[key].lastRefill) && after[key].tokens == Due(a, c, after[key].lastRefill)
  {
    if calls.Then? {
      BucketIsDue(bs, c, calls.before, key);
      if calls.key == key {
        var a := Ledger(c, calls.before, key);
        var was := Run(bs, c, calls.before);
        if a.Some? {
          RefilledIsDue(a.value, was[key], c, calls.now);
          SpendOne(a.value, c, calls.now);
        } else {
          FullAtFirst(c, calls.now);
        }
        DueAtOnce(1, c, calls.now);
      }
    }
  }

  lemma FullAtFirst(c: Config, now: real)
    requires ConfigOk(c)
    ensures Refilled(Bucket(c.capacity as real, now), c, now) == c.capacity as real >= 1.0
  {
    NoGain(now - Bucket(c.capacity as real, now).lastRefill, c.rate);
  }

  /**
   Exactly what is allowed over any run of a new key in clock order: its first call, and after that
   each call for which a whole token is left of the capacity plus what time added since the bucket
   was last full.
   */
  lemma AllowedIffDue(bs: Buckets, c: Config, calls: Calls, key: string, now: real)
    requires ConfigOk(c) && key != "" && key !in bs && InOrder(Then(calls, key, now), key)
    ensures var a := Ledger(c, calls, key);
            Allows(Run(bs, c, calls), c, key, now) <==> a.None? || Due(a.value, c, now) >= 1.0
  {
    BucketIsDue(bs, c, calls, key);
    var a := Ledger(c, calls, key);
    if a.Some? {
      RefilledIsDue(a.value, Run(bs, c, calls)[key], c, now);
    } else {
      FullAtFirst(c, now);
    }
  }

  /** `n` calls for a key at one instant. */
  function Burst(n: nat, key: string, now: real): Calls {
    if n == 0 then Start else Then(Burst(n - 1, key, now), key, now)
  }

  lemma {:induction false} BurstLedger(n: nat, c: Config, key: string, now: real)
    requires ConfigOk(c)
    ensures InOrder(Burst(n, key, now), key) && Latest(Burst(n, key, now), key) == if n == 0 then None else Some(now)
    ensures Ledger(c, Burst(n, key, now), key) ==
            if n == 0 then None else Some(Account(now, if n <= c.capacity then n else c.capacity))
  {
    if n > 0 {
      BurstLedger(n - 1, c, key, now);
      DueAtOnce(if n - 1 <= c.capacity then n - 1 else c.capacity, c, now);
    }
  }

  /** Of the calls of a new key at one instant exactly the first `capacity` are allowed. */
  lemma BurstOfNewKey(bs: Buckets, c: Config, key: string, now: real, n: nat)
    requires ConfigOk(c) && key != "" && key !in bs && n >= 1
    ensures Allows(Run(bs, c, Burst(n - 1, key, now)), c, key, now) <==> n <= c.capacity
  {
    BurstLedger(n - 1, c, key, now);
    DueAtOnce(if n - 1 <= c.capacity then n - 1 else c.capacity, c, now);
    AllowedIffDue(bs, c, Burst(n - 1, key, now), key, now);
  }
}
