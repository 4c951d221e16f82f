/** `RateLimiter` of src/core/scraper/rate_limiter.rs. The wall clock is an input
    in milliseconds since the Unix epoch, and each `wait` returns how long it
    sleeps instead of sleeping. The model reads the same clock for the minute
    counter and for the 100 ms spacing. */
module RateLimiter {
  import opened Wrappers
  import opened Numbers

  const MIN_SPACING_MS: nat := 100

  datatype RateLimiter = RateLimiter(limit: nat, currentMinute: nat, counter: nat, lastRequest: Option<nat>)

  /** `(secs / 60) as u32`: the cast keeps the low 32 bits. */
  function MinuteOf(nowMs: nat): (r: nat)
    ensures r <= U32_MAX
  {
    (nowMs / 1000 / 60) % (U32_MAX + 1)
  }

  /** What every limiter satisfies: fields fit their `u32`s, and the counter is
      below the maximum, so `counter += 1` cannot overflow. */
  predicate Valid(rl: RateLimiter) {
    rl.limit <= U32_MAX && rl.currentMinute <= U32_MAX && rl.counter < U32_MAX
  }

  function New(limit: nat, nowMs: nat): (r: RateLimiter)
    requires limit <= U32_MAX
    ensures Valid(r) && r.counter == 0 && r.lastRequest.None? && r.limit == limit
    ensures r.currentMinute == MinuteOf(nowMs)
  {
    RateLimiter(limit, MinuteOf(nowMs), 0, None)
  }

  function SetLimit(rl: RateLimiter, limit: nat): (r: RateLimiter)
    requires Valid(rl) && limit <= U32_MAX
    ensures Valid(r) && r.limit == limit
    ensures r.currentMinute == rl.currentMinute && r.counter == rl.counter && r.lastRequest == rl.lastRequest
  {
    rl.(limit := limit)
  }

  /** The outcome of one `wait`: the state after it and the milliseconds slept. */
  datatype WaitResult = WaitResult(after: RateLimiter, sleepMs: nat)

  /** `wait` called at `nowMs`. A new minute resets the counter, which is then
      incremented. At the limit it sleeps to second 1 of the next minute and starts
      that minute's count at 1; otherwise it keeps 100 ms since the last request.
      `Instant::elapsed` does not go below zero. */
  function Wait(rl: RateLimiter, nowMs: nat): (r: WaitResult)
    requires Valid(rl)
    ensures Valid(r.after)
    ensures r.after.limit == rl.limit
    ensures r.after.lastRequest == Some(nowMs + r.sleepMs)
    ensures r.after.counter >= 1
  {
    var minute := MinuteOf(nowMs);
    var counter := (if minute != rl.currentMinute then 0 else rl.counter) + 1;
    if counter >= rl.limit then
      var seconds := (nowMs / 1000) % 60;
      var sleepMs := (61 - seconds) * 1000;
      WaitResult(RateLimiter(rl.limit, MinuteOf(nowMs + sleepMs), 1, Some(nowMs + sleepMs)), sleepMs)
    else
      var sleepMs := match rl.lastRequest
        case Some(last) =>
          var elapsed := if nowMs >= last then nowMs - last else 0;
          if elapsed < MIN_SPACING_MS then MIN_SPACING_MS - elapsed else 0
        case None => 0;
      WaitResult(RateLimiter(rl.limit, minute, counter, Some(nowMs + sleepMs)), sleepMs)
  }

  /** The count within a minute: a change of minute restarts it, and below the
      limit it goes up by one with no long wait. */
  lemma WaitCounts(rl: RateLimiter, nowMs: nat)
    requires Valid(rl)
    ensures var counter := (if MinuteOf(nowMs) != rl.currentMinute then 0 else rl.counter) + 1;
      var r := Wait(rl, nowMs);
      && (counter < rl.limit ==> r.after.counter == counter && r.after.currentMinute == MinuteOf(nowMs)
                                 && r.sleepMs < MIN_SPACING_MS + 1)
      && (counter >= rl.limit ==> r.after.counter == 1 && 2000 <= r.sleepMs <= 61000)
  {
  }

  /** The long wait ends in the next minute, one second past its start. */
  lemma LongWaitEndsNextMinute(rl: RateLimiter, nowMs: nat)
    requires Valid(rl)
    requires (if MinuteOf(nowMs) != rl.currentMinute then 0 else rl.counter) + 1 >= rl.limit
    ensures var r := Wait(rl, nowMs);
      r.after.currentMinute == (MinuteOf(nowMs) + 1) % (U32_MAX + 1)
      && (nowMs + r.sleepMs) / 1000 % 60 == 1
  {
    var secs := nowMs / 1000;
    var s := secs % 60;
    var sleepMs := (61 - s) * 1000;
    var after := nowMs + sleepMs;
    assert nowMs == secs * 1000 + nowMs % 1000;
    assert after == (secs + 61 - s) * 1000 + nowMs % 1000;
    assert after / 1000 == secs + 61 - s;
    assert secs == (secs / 60) * 60 + s;
    assert secs + 61 - s == (secs / 60 + 1) * 60 + 1;
    assert (secs + 61 - s) / 60 == secs / 60 + 1;
    ModSucc(secs / 60, U32_MAX + 1);
  }

  lemma ModSucc(a: nat, m: nat)
    requires m > 0
    ensures (a + 1) % m == (a % m + 1) % m
  {
    var q := a / m;
    var r := a % m;
    if r + 1 < m {
      ModOfDecomposition(a + 1, m, q, r + 1);
      ModOfDecomposition(r + 1, m, 0, r + 1);
    } else {
      assert (q + 1) * m == q * m + m;
      ModOfDecomposition(a + 1, m, q + 1, 0);
      ModOfDecomposition(r + 1, m, 1, 0);
    }
  }

  lemma ModOfDecomposition(x: int, m: int, q: int, r: int)
    requires 0 <= r < m && x == q * m + r
    ensures x % m == r
  {
    var q' := x / m;
    var r' := x % m;
    assert (q - q') * m == r' - r;
    MulBounds(q - q', m);
  }

  lemma MulBounds(k: int, m: int)
    requires m > 0
    ensures k >= 1 ==> k * m >= m
    ensures k <= -1 ==> k * m <= -m
  {
    if k >= 1 {
      MulAtLeast(k, m);
    } else if k <= -1 {
      MulAtLeast(-k, m);
      assert k * m == -((-k) * m);
    }
  }

  lemma {:induction false} MulAtLeast(k: int, m: int)
    requires k >= 1 && m > 0
    ensures k * m >= m
    decreases k
  {
    if k > 1 {
      MulAtLeast(k - 1, m);
      assert k * m == (k - 1) * m + m;
    }
  }

  /** Only a previous request less than 100 ms ago makes the short wait sleep, and
      then for exactly the rest of the 100 ms; the first call never sleeps short. */
  lemma ShortWait(rl: RateLimiter, nowMs: nat)
    requires Valid(rl)
    requires (if MinuteOf(nowMs) != rl.currentMinute then 0 else rl.counter) + 1 < rl.limit
    ensures rl.lastRequest.None? ==> Wait(rl, nowMs).sleepMs == 0
    ensures rl.lastRequest.Some? && rl.lastRequest.value <= nowMs ==>
      Wait(rl, nowMs).sleepMs == if nowMs - rl.lastRequest.value < MIN_SPACING_MS
                                 then MIN_SPACING_MS - (nowMs - rl.lastRequest.value) else 0
  {
  }

  /** With limit L, the L-th call within one minute already takes the long wait. */
  lemma LimitReachedOnLthCall(rl: RateLimiter, nowMs: nat)
    requires Valid(rl) && rl.limit >= 1
    requires MinuteOf(nowMs) == rl.currentMinute && rl.counter == rl.limit - 1
    ensures Wait(rl, nowMs).sleepMs >= 2000
  {
  }
}
