/** The lazy token bucket of `src/rate_limit.rs`, over exact reals. */
module TokenBucket {

  /** Monotonic instants and durations, in seconds. */
  type Instant = real

  datatype Bucket = Bucket(tokens: real, capacity: real, refillPerSecond: real, lastRefill: Instant)

  function Min(x: real, y: real): real {
    if x <= y then x else y
  }

  function Fresh(capacity: real, refillPerSecond: real, now: Instant): Bucket {
    Bucket(capacity, capacity, refillPerSecond, now)
  }

  function Refill(rate: real, elapsed: real): real {
    elapsed * rate
  }

  /** The tokens a call at `now` finds; an instant in the past counts as none elapsed. */
  function Available(b: Bucket, now: Instant): real {
    var elapsed := if now >= b.lastRefill then now - b.lastRefill else 0.0;
    Min(b.tokens + Refill(b.refillPerSecond, elapsed), b.capacity)
  }

  function Consume(b: Bucket, now: Instant): (Bucket, bool) {
    var available := Available(b, now);
    if available >= 1.0 then (b.(tokens := available - 1.0, lastRefill := now), true)
    else (b.(tokens := available, lastRefill := now), false)
  }

  class TokenBucket {
    var tokens: real
    const capacity: real
    const refillPerSecond: real
    var lastRefill: Instant

    ghost function Value(): Bucket
      reads this
    {
      Bucket(tokens, capacity, refillPerSecond, lastRefill)
    }

    constructor (capacity: real, refillPerSecond: real, now: Instant)
      ensures Value() == Fresh(capacity, refillPerSecond, now)
    {
      this.tokens := capacity;
      this.capacity := capacity;
      this.refillPerSecond := refillPerSecond;
      this.lastRefill := now;
    }

    method TryConsume(now: Instant) returns (granted: bool)
      modifies this
      ensures (Value(), granted) == Consume(old(Value()), now)
    {
      var elapsed := if now >= lastRefill then now - lastRefill else 0.0;
      tokens := Min(tokens + elapsed * refillPerSecond, capacity);
      lastRefill := now;
      if tokens >= 1.0 {
        tokens := tokens - 1.0;
        granted := true;
      } else {
        granted := false;
      }
    }
  }

  // ----- traces

  /** A validated bucket, full at `created`, called at non-decreasing instants. */
  ghost predicate Trace(b: Bucket, times: seq<Instant>) {
    && b == Fresh(b.capacity, b.refillPerSecond, b.lastRefill)
    && b.capacity > 0.0 && b.refillPerSecond >= 0.0
    && (forall i | 0 <= i < |times| :: b.lastRefill <= times[i])
    && (forall i, j | 0 <= i <= j < |times| :: times[i] <= times[j])
  }

  function After(b: Bucket, times: seq<Instant>): Bucket {
    if times == [] then b
    else Consume(After(b, times[..|times| - 1]), times[|times| - 1]).0
  }

  /** Call `n` of the trace is granted. */
  predicate Granted(b: Bucket, times: seq<Instant>, n: nat)
    requires n < |times|
  {
    Consume(After(b, times[..n]), times[n]).1
  }

  /** Grants among the calls from `i` up to, not including, `j`. */
  ghost function Grants(b: Bucket, times: seq<Instant>, i: nat, j: nat): nat
    requires j <= |times|
  {
    if j <= i then 0 else Grants(b, times, i, j - 1) + (if Granted(b, times, j - 1) then 1 else 0)
  }

  /** What may have been granted since call `k`, by the time of call `n`. */
  function Allowance(b: Bucket, times: seq<Instant>, k: nat, n: nat): real
    requires k < |times| && n < |times|
  {
    b.capacity + b.refillPerSecond * (times[n] - times[k])
  }

  // ----- refill arithmetic

  lemma RefillIs(rate: real, elapsed: real)
    ensures Refill(rate, elapsed) == rate * elapsed
  {
  }

  lemma RefillAdds(rate: real, x: real, y: real)
    ensures Refill(rate, x + y) == Refill(rate, x) + Refill(rate, y)
  {
  }

  lemma RefillGrows(rate: real, x: real)
    requires rate >= 0.0 && x >= 0.0
    ensures Refill(rate, x) >= 0.0
  {
  }

  lemma RefillNone(rate: real)
    ensures Refill(rate, 0.0) == 0.0
  {
  }

  lemma PeriodRefills(rate: real, elapsed: real)
    requires rate > 0.0 && elapsed >= 1.0 / rate
    ensures Refill(rate, elapsed) >= 1.0
  {
    assert rate * (1.0 / rate) == 1.0;
    assert rate * (elapsed - 1.0 / rate) >= 0.0;
  }

  // ----- levels

  lemma AfterShape(b: Bucket, times: seq<Instant>, n: nat)
    requires Trace(b, times) && n <= |times|
    ensures var a := After(b, times[..n]);
      && a.capacity == b.capacity && a.refillPerSecond == b.refillPerSecond
      && a.lastRefill == (if n == 0 then b.lastRefill else times[n - 1])
    decreases n
  {
    if n > 0 {
      AfterShape(b, times, n - 1);
      assert times[..n][..n - 1] == times[..n - 1];
    }
  }

  /** The tokens that call `n` finds. */
  function Level(b: Bucket, times: seq<Instant>, n: nat): real
    requires n < |times|
  {
    Available(After(b, times[..n]), times[n])
  }

  lemma LevelStep(b: Bucket, times: seq<Instant>, n: nat)
    requires Trace(b, times) && n + 1 < |times|
    ensures Level(b, times, n + 1) ==
      Min(Level(b, times, n) - (if Granted(b, times, n) then 1.0 else 0.0)
          + Refill(b.refillPerSecond, times[n + 1] - times[n]), b.capacity)
  {
    hide Refill;
    AfterShape(b, times, n);
    AfterShape(b, times, n + 1);
    assert times[..n + 1][..n] == times[..n];
  }

  lemma LevelStart(b: Bucket, times: seq<Instant>)
    requires Trace(b, times) && 0 < |times|
    ensures Level(b, times, 0) == b.capacity
  {
    hide Refill;
    assert times[..0] == [];
    RefillGrows(b.refillPerSecond, times[0] - b.lastRefill);
  }

  lemma AllowanceStep(b: Bucket, times: seq<Instant>, k: nat, n: nat)
    requires k < |times| && n + 1 < |times|
    ensures Allowance(b, times, k, n + 1)
         == Allowance(b, times, k, n) + Refill(b.refillPerSecond, times[n + 1] - times[n])
  {
    hide Refill;
    AllowanceRefills(b, times, k, n);
    AllowanceRefills(b, times, k, n + 1);
    RefillAdds(b.refillPerSecond, times[n] - times[k], times[n + 1] - times[n]);
    assert times[n + 1] - times[k] == (times[n] - times[k]) + (times[n + 1] - times[n]);
  }

  lemma AllowanceRefills(b: Bucket, times: seq<Instant>, k: nat, n: nat)
    requires k < |times| && n < |times|
    ensures Allowance(b, times, k, n) == b.capacity + Refill(b.refillPerSecond, times[n] - times[k])
  {
    RefillIs(b.refillPerSecond, times[n] - times[k]);
  }

  lemma AllowanceNow(b: Bucket, times: seq<Instant>, n: nat)
    requires n < |times|
    ensures Allowance(b, times, n, n) == b.capacity
  {
    AllowanceRefills(b, times, n, n);
    RefillNone(b.refillPerSecond);
  }

  lemma GrantsStep(b: Bucket, times: seq<Instant>, k: nat, n: nat)
    requires k <= n < |times|
    ensures Grants(b, times, k, n + 1) == Grants(b, times, k, n) + (if Granted(b, times, n) then 1 else 0)
  {
  }

  lemma {:induction false} LevelMeetsAllowance(b: Bucket, times: seq<Instant>, n: nat) returns (tight: nat)
    requires Trace(b, times) && n < |times|
    ensures tight <= n
    ensures Level(b, times, n) == Allowance(b, times, tight, n) - Grants(b, times, tight, n) as real
    ensures forall k | 0 <= k <= n ::
      Level(b, times, n) <= Allowance(b, times, k, n) - Grants(b, times, k, n) as real
  {
    hide Refill, Level, Allowance, Granted;
    AllowanceNow(b, times, n);
    if n == 0 {
      LevelStart(b, times);
      tight := 0;
    } else {
      var before := LevelMeetsAllowance(b, times, n - 1);
      LevelStep(b, times, n - 1);
      forall k | 0 <= k <= n
        ensures Level(b, times, n) <= Allowance(b, times, k, n) - Grants(b, times, k, n) as real {
        if k < n {
          AllowanceStep(b, times, k, n - 1);
          GrantsStep(b, times, k, n - 1);
        }
      }
      AllowanceStep(b, times, before, n - 1);
      GrantsStep(b, times, before, n - 1);
      tight := if Level(b, times, n) == b.capacity then n else before;
    }
  }

  lemma RefusedByAllowance(b: Bucket, times: seq<Instant>, n: nat)
    requires Trace(b, times) && n < |times|
    ensures !Granted(b, times, n) <==>
      exists k :: 0 <= k <= n && (Grants(b, times, k, n) + 1) as real > Allowance(b, times, k, n)
  {
    hide Refill, Allowance;
    var tight := LevelMeetsAllowance(b, times, n);
    if !Granted(b, times, n) {
      assert (Grants(b, times, tight, n) + 1) as real > Allowance(b, times, tight, n);
    }
  }

  lemma {:induction false} GrantsWithinAllowance(b: Bucket, times: seq<Instant>, i: nat, j: nat)
    requires Trace(b, times) && i <= j < |times|
    ensures Grants(b, times, i, j + 1) as real <= Allowance(b, times, i, j)
    decreases j
  {
    hide Refill, Allowance, Granted;
    if Granted(b, times, j) {
      RefusedByAllowance(b, times, j);
      assert !((Grants(b, times, i, j) + 1) as real > Allowance(b, times, i, j));
    } else if i < j {
      GrantsWithinAllowance(b, times, i, j - 1);
      AllowanceStep(b, times, i, j - 1);
      RefillGrows(b.refillPerSecond, times[j] - times[j - 1]);
    } else {
      AllowanceNow(b, times, j);
    }
  }

  // ----- what the bucket promises

  lemma AllowanceIs(b: Bucket, times: seq<Instant>, k: nat, n: nat)
    requires k < |times| && n < |times|
    ensures Allowance(b, times, k, n) == b.capacity + b.refillPerSecond * (times[n] - times[k])
  {
  }

  /** The tokens a call finds are the least, over all calls up to it, of what the
      capacity and the refill since then leave after the grants since then. */
  lemma LevelIsTightest(b: Bucket, times: seq<Instant>, n: nat) returns (tight: nat)
    requires Trace(b, times) && n < |times|
    ensures tight <= n
    ensures Level(b, times, n)
      == b.capacity + b.refillPerSecond * (times[n] - times[tight]) - Grants(b, times, tight, n) as real
    ensures forall k | 0 <= k <= n ::
      Level(b, times, n)
        <= b.capacity + b.refillPerSecond * (times[n] - times[k]) - Grants(b, times, k, n) as real
  {
    hide Level, Grants, Allowance, Trace;
    tight := LevelMeetsAllowance(b, times, n);
    AllowanceIs(b, times, tight, n);
    forall k | 0 <= k <= n
      ensures Level(b, times, n)
        <= b.capacity + b.refillPerSecond * (times[n] - times[k]) - Grants(b, times, k, n) as real {
      AllowanceIs(b, times, k, n);
    }
  }

  /** A call is refused exactly when, counted from some call up to it, one more
      grant would exceed the capacity plus the refill of the time between. */
  lemma RefusedExactly(b: Bucket, times: seq<Instant>, n: nat)
    requires Trace(b, times) && n < |times|
    ensures !Granted(b, times, n) <==>
      exists k :: 0 <= k <= n
        && (Grants(b, times, k, n) + 1) as real > b.capacity + b.refillPerSecond * (times[n] - times[k])
  {
    hide Granted, Grants, Allowance, Trace;
    RefusedByAllowance(b, times, n);
    forall k | 0 <= k <= n
      ensures (Grants(b, times, k, n) + 1) as real > Allowance(b, times, k, n)
        <==> (Grants(b, times, k, n) + 1) as real > b.capacity + b.refillPerSecond * (times[n] - times[k]) {
      AllowanceIs(b, times, k, n);
    }
  }

  /** Hence no interval grants more than the capacity plus its refill. */
  lemma IntervalBound(b: Bucket, times: seq<Instant>, i: nat, j: nat)
    requires Trace(b, times) && i <= j < |times|
    ensures Grants(b, times, i, j + 1) as real <= b.capacity + b.refillPerSecond * (times[j] - times[i])
  {
    hide Grants, Allowance, Trace;
    GrantsWithinAllowance(b, times, i, j);
    AllowanceIs(b, times, i, j);
  }

  // ----- refused calls

  /** The calls of the trace that the mask keeps. */
  function Keep(times: seq<Instant>, mask: seq<bool>): seq<Instant>
    requires |mask| == |times|
  {
    if times == [] then []
    else
      var n := |times| - 1;
      Keep(times[..n], mask[..n]) + (if mask[n] then [times[n]] else [])
  }

  /** The second bucket is the first one, refilled less recently. */
  ghost predicate Lagging(b: Bucket, lagging: Bucket) {
    && b.capacity == lagging.capacity && b.refillPerSecond == lagging.refillPerSecond
    && lagging.lastRefill <= b.lastRefill
    && b.tokens == Min(lagging.tokens + Refill(b.refillPerSecond, b.lastRefill - lagging.lastRefill), b.capacity)
  }

  lemma LaggingFindsTheSame(b: Bucket, lagging: Bucket, now: Instant)
    requires Lagging(b, lagging) && b.refillPerSecond >= 0.0 && b.lastRefill <= now
    ensures Available(b, now) == Available(lagging, now)
    ensures Lagging(b.(tokens := Available(b, now), lastRefill := now), lagging)
  {
    hide Refill;
    var gap, step := b.lastRefill - lagging.lastRefill, now - b.lastRefill;
    RefillAdds(b.refillPerSecond, gap, step);
    RefillGrows(b.refillPerSecond, step);
    assert now - lagging.lastRefill == gap + step;
  }

  /** Deleting any refused calls changes no other answer. */
  lemma {:induction false} RefusedCallsAreFree(b: Bucket, times: seq<Instant>, mask: seq<bool>, n: nat)
    requires Trace(b, times) && |mask| == |times| && n < |times|
    requires forall i | 0 <= i < |times| && !mask[i] :: !Granted(b, times, i)
    ensures Granted(b, times, n) <==> Consume(After(b, Keep(times[..n], mask[..n])), times[n]).1
  {
    hide Refill, Available;
    KeptLags(b, times, mask, n);
    AfterShape(b, times, n);
    LaggingFindsTheSame(After(b, times[..n]), After(b, Keep(times[..n], mask[..n])), times[n]);
  }

  lemma {:induction false} KeptLags(b: Bucket, times: seq<Instant>, mask: seq<bool>, n: nat)
    requires Trace(b, times) && |mask| == |times| && n <= |times|
    requires forall i | 0 <= i < |times| && !mask[i] :: !Granted(b, times, i)
    ensures Lagging(After(b, times[..n]), After(b, Keep(times[..n], mask[..n])))
  {
    hide Refill, Available;
    if n == 0 {
      RefillNone(b.refillPerSecond);
      assert b.tokens == Min(b.tokens + Refill(b.refillPerSecond, b.lastRefill - b.lastRefill), b.capacity);
    } else {
      var m := n - 1;
      KeptLags(b, times, mask, m);
      AfterShape(b, times, m);
      LaggingFindsTheSame(After(b, times[..m]), After(b, Keep(times[..m], mask[..m])), times[m]);
      assert times[..n][..m] == times[..m] && mask[..n][..m] == mask[..m];
      var kept := Keep(times[..m], mask[..m]);
      if mask[m] {
        assert Keep(times[..n], mask[..n]) == kept + [times[m]];
        assert (kept + [times[m]])[..|kept|] == kept;
        KeptTogether(After(b, times[..m]), After(b, kept), times[m]);
      } else {
        assert Keep(times[..n], mask[..n]) == kept;
        assert !Granted(b, times, m);
      }
    }
  }

  lemma KeptTogether(b: Bucket, lagging: Bucket, now: Instant)
    requires b.capacity == lagging.capacity && b.refillPerSecond == lagging.refillPerSecond
    requires Available(b, now) == Available(lagging, now)
    ensures Lagging(Consume(b, now).0, Consume(lagging, now).0)
  {
    RefillNone(b.refillPerSecond);
    assert Available(b, now) <= b.capacity;
  }

  /** One refill period after a refusal, with nothing granted in between, a call
      succeeds, provided the bucket can hold a token at all. */
  lemma WaitingOnePeriodSucceeds(b: Bucket, times: seq<Instant>, i: nat, j: nat)
    requires Trace(b, times) && i < j < |times|
    requires b.capacity >= 1.0 && b.refillPerSecond > 0.0
    requires forall m | i <= m < j :: !Granted(b, times, m)
    requires times[j] - times[i] >= 1.0 / b.refillPerSecond
    ensures Granted(b, times, j)
  {
    hide Refill, Granted, Allowance;
    RefusedByAllowance(b, times, j);
    forall k | 0 <= k <= j ensures (Grants(b, times, k, j) + 1) as real <= Allowance(b, times, k, j) {
      if k <= i {
        NoGrants(b, times, k, i, j);
        GrantsWithinAllowance(b, times, k, i);
        PeriodRefills(b.refillPerSecond, times[j] - times[i]);
        AllowanceAdds(b, times, k, i, j);
      } else {
        NoGrants(b, times, k, k, j);
        AllowanceNow(b, times, k);
        AllowanceAdds(b, times, k, k, j);
        RefillGrows(b.refillPerSecond, times[j] - times[k]);
      }
    }
  }

  lemma AllowanceAdds(b: Bucket, times: seq<Instant>, k: nat, i: nat, j: nat)
    requires k < |times| && i < |times| && j < |times|
    ensures Allowance(b, times, k, j)
         == Allowance(b, times, k, i) + Refill(b.refillPerSecond, times[j] - times[i])
  {
    hide Refill;
    AllowanceRefills(b, times, k, i);
    AllowanceRefills(b, times, k, j);
    RefillAdds(b.refillPerSecond, times[i] - times[k], times[j] - times[i]);
    assert times[j] - times[k] == (times[i] - times[k]) + (times[j] - times[i]);
  }

  lemma {:induction false} NoGrants(b: Bucket, times: seq<Instant>, k: nat, i: nat, j: nat)
    requires k <= i <= j <= |times|
    requires forall m | i <= m < j :: !Granted(b, times, m)
    ensures Grants(b, times, k, j) == Grants(b, times, k, i)
    ensures i < |times| && i < j ==> Grants(b, times, k, i + 1) == Grants(b, times, k, i)
    decreases j
  {
    if i < j {
      NoGrants(b, times, k, i, j - 1);
    }
  }
}
