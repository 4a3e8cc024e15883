/** internal/ratelimit: the token bucket, its clock in nanoseconds and its amounts as reals. */
module RateLimit {
  import opened Base

  datatype Bucket = Bucket(tokens: real, capacity: real, rate: real, last: int)

  /** One Wait(n): the clock on entry, how much later than asked Sleep returns, and what
      the float-to-int64 conversion yields when the quotient does not fit. */
  datatype Call = Call(n: int, now: int, oversleep: nat, overflow: int)

  function NewBucket(bytesPerSec: int, now: int): Bucket {
    if bytesPerSec <= 0 then Bucket(0.0, 0.0, 0.0, 0)
    else Bucket(bytesPerSec as real, bytesPerSec as real, bytesPerSec as real / 1000000000.0, now)
  }

  function Times(x: real, r: real): real { x * r }

  function Over(a: real, r: real): real
    requires r != 0.0
  {
    a / r
  }

  predicate Valid(b: Bucket) {
    0.0 <= b.tokens <= b.capacity && (b.capacity > 0.0 ==> b.rate > 0.0)
  }

  function Earned(b: Bucket, now: int): real {
    b.tokens + Times((now - b.last) as real, b.rate)
  }

  function Refilled(b: Bucket, now: int): real {
    if Earned(b, now) > b.capacity then b.capacity else Earned(b, now)
  }

  predicate Acts(b: Bucket, c: Call) { c.n > 0 && b.capacity != 0.0 }

  predicate Sleeps(b: Bucket, c: Call) { Acts(b, c) && Refilled(b, c.now) < c.n as real }

  /** deficit / rateNs, before the conversion to a Duration. */
  function Quotient(b: Bucket, c: Call): real
    requires b.rate > 0.0
  {
    Over(c.n as real - Refilled(b, c.now), b.rate)
  }

  predicate Fits(b: Bucket, c: Call)
    requires Valid(b)
  {
    Sleeps(b, c) ==> Quotient(b, c) < INT64 as real
  }

  /** How long Sleep is asked to pause; a negative duration does not pause at all. */
  function Pause(b: Bucket, c: Call): int
    requires b.rate > 0.0
  {
    if Quotient(b, c) < INT64 as real then Quotient(b, c).Floor else if c.overflow > 0 then c.overflow else 0
  }

  /** When the call returns. */
  function Return(b: Bucket, c: Call): int
    requires Valid(b)
  {
    if Sleeps(b, c) then c.now + Pause(b, c) + c.oversleep else c.now
  }

  function After(b: Bucket, c: Call): Bucket
    requires Valid(b)
  {
    if !Acts(b, c) then b
    else if Sleeps(b, c) then b.(tokens := 0.0, last := Return(b, c))
    else b.(tokens := Refilled(b, c.now) - c.n as real, last := c.now)
  }

  /** What a call does, in the terms of the token bucket alone: the bucket earns rate per
      nanosecond up to its capacity; a request it can pay is paid and returns at once; any
      other empties it and pauses for the time the rest takes to earn, rounded down to whole
      nanoseconds, as long as that time is a time.Duration. */
  ghost predicate Obeys(tokens: real, capacity: real, rate: real, last: int, c: Call, tokens': real, last': int, done: int) {
    if c.n <= 0 || capacity == 0.0 then tokens' == tokens && last' == last && done == c.now
    else
      var held := OnHand(tokens, capacity, rate, last, c.now);
      if c.n as real <= held then tokens' == held - c.n as real && last' == c.now && done == c.now
      else
        && tokens' == 0.0 && last' == done && c.now + c.oversleep <= done
        && (c.n as real - held < Times(INT64 as real, rate) ==>
              var p := (done - c.now - c.oversleep) as real;
              Times(p, rate) <= c.n as real - held < Times(p + 1.0, rate))
  }

  /** What was held and what was earned since, up to the capacity. */
  function OnHand(tokens: real, capacity: real, rate: real, last: int, now: int): (held: real)
    ensures held <= capacity && held <= tokens + (now - last) as real * rate
    ensures held == capacity || held == tokens + (now - last) as real * rate
  {
    var earned := tokens + Times((now - last) as real, rate);
    if earned < capacity then earned else capacity
  }

  class Limiter {
    var tokens: real
    var capacity: real
    var rateNs: real
    var last: int

    ghost function View(): Bucket
      reads this
    {
      Bucket(tokens, capacity, rateNs, last)
    }

    constructor (bytesPerSec: int, now: int)
      ensures View() == NewBucket(bytesPerSec, now) && Valid(View())
    {
      if bytesPerSec <= 0 {
        tokens, capacity, rateNs, last := 0.0, 0.0, 0.0, 0;
      } else {
        var cap := bytesPerSec as real;
        tokens, capacity, rateNs, last := cap, cap, cap / 1000000000.0, now;
      }
    }

    /** Wait(n); the clock readings and the sleep are the call's parameters. */
    method Wait(c: Call) returns (done: int)
      requires Valid(View()) && (capacity > 0.0 ==> last <= c.now)
      modifies this
      ensures View() == After(old(View()), c) && Valid(View())
      ensures done == Return(old(View()), c)
      ensures capacity == old(capacity) && rateNs == old(rateNs)
      ensures Obeys(old(tokens), capacity, rateNs, old(last), c, tokens, last, done)
    {
      hide Times, Over, Obeys;
      AfterIsValid(View(), c);
      WaitLaw(View(), c);
      if Sleeps(View(), c) {
        PauseFloors(View(), c);
      }
      done := c.now;
      if c.n <= 0 || capacity == 0.0 {
        return;
      }
      var elapsed := (c.now - last) as real;
      last := c.now;
      tokens := tokens + Times(elapsed, rateNs);
      if tokens > capacity {
        tokens := capacity;
      }
      var need := c.n as real;
      if tokens >= need {
        tokens := tokens - need;
        return;
      }
      var deficit := need - tokens;
      tokens := 0.0;
      var quotient := Over(deficit, rateNs);
      var waitNs := if quotient < INT64 as real then quotient.Floor else c.overflow;
      done := c.now + (if waitNs > 0 then waitNs else 0) + c.oversleep;
      last := done;
    }
  }

  // ---- One call ------------------------------------------------------------

  lemma TimesAdds(x: real, y: real, r: real)
    ensures Times(x + y, r) == Times(x, r) + Times(y, r)
    ensures Times(0.0, r) == 0.0 && Times(1.0, r) == r
  {
  }

  lemma TimesIsMonotone(x: real, y: real, r: real)
    requires r > 0.0
    ensures x <= y <==> Times(x, r) <= Times(y, r)
  {
    assert (y - x) * r == y * r - x * r;
  }

  lemma OverTimes(a: real, r: real)
    requires a > 0.0 && r > 0.0
    ensures Over(a, r) > 0.0 && Times(Over(a, r), r) == a
  {
  }

  lemma EarnedGrows(b: Bucket, now: int)
    requires Valid(b) && b.capacity > 0.0 && b.last <= now
    ensures Earned(b, now) >= b.tokens
  {
    hide Times;
    TimesIsMonotone(0.0, (now - b.last) as real, b.rate);
    TimesAdds(0.0, 0.0, b.rate);
  }

  lemma PauseFloors(b: Bucket, c: Call)
    requires Valid(b) && Sleeps(b, c)
    ensures Quotient(b, c) > 0.0 && Pause(b, c) >= 0
    ensures Fits(b, c) ==> (Pause(b, c) as real <= Quotient(b, c) < Pause(b, c) as real + 1.0)
  {
    hide Times, Over;
    OverTimes(c.n as real - Refilled(b, c.now), b.rate);
  }

  lemma AfterIsValid(b: Bucket, c: Call)
    requires Valid(b) && (b.capacity > 0.0 ==> b.last <= c.now)
    ensures Valid(After(b, c)) && c.now <= Return(b, c)
    ensures b.capacity > 0.0 ==> b.last <= After(b, c).last <= Return(b, c)
    ensures After(b, c).rate == b.rate && After(b, c).capacity == b.capacity
  {
    hide Times, Over, Quotient;
    if Acts(b, c) {
      EarnedGrows(b, c.now);
      if Sleeps(b, c) {
        PauseFloors(b, c);
      }
    }
  }

  lemma OverBelow(a: real, q: real, r: real)
    requires r > 0.0 && a > 0.0
    ensures Over(a, r) < q <==> a < Times(q, r)
  {
    hide Times, Over;
    OverTimes(a, r);
    TimesIsMonotone(q, Over(a, r), r);
  }

  lemma WaitLaw(b: Bucket, c: Call)
    requires Valid(b) && (b.capacity > 0.0 ==> b.last <= c.now)
    ensures Obeys(b.tokens, b.capacity, b.rate, b.last, c, After(b, c).tokens, After(b, c).last, Return(b, c))
  {
    hide Times, Over, Quotient;
    if Sleeps(b, c) {
      PauseFloors(b, c);
      SleepLaw(b, c, Refilled(b, c.now));
    }
  }

  lemma SleepLaw(b: Bucket, c: Call, held: real)
    requires Valid(b) && Sleeps(b, c) && held == Refilled(b, c.now)
    ensures c.n as real - held < Times(INT64 as real, b.rate) ==>
      var p := Pause(b, c) as real; Times(p, b.rate) <= c.n as real - held < Times(p + 1.0, b.rate)
  {
    hide Times, Over, Refilled;
    var deficit, p := c.n as real - held, Pause(b, c) as real;
    PauseFloors(b, c);
    OverBelow(deficit, INT64 as real, b.rate);
    OverBelow(deficit, p, b.rate);
    OverBelow(deficit, p + 1.0, b.rate);
  }

  /** What a sleeping call takes beyond what its asked pause will earn. */
  function Unpaid(b: Bucket, c: Call): real
    requires Valid(b)
  {
    if Sleeps(b, c) then c.n as real - Refilled(b, c.now) - Times(Pause(b, c) as real, b.rate) else 0.0
  }

  function Size(c: Call): real { if c.n > 0 then c.n as real else 0.0 }

  /** Quota lost: tokens above the capacity, and time slept beyond what was asked. */
  function Lost(b: Bucket, c: Call): real
    requires Valid(b)
  {
    if !Acts(b, c) then 0.0
    else Earned(b, c.now) - Refilled(b, c.now) + if Sleeps(b, c) then Times(c.oversleep as real, b.rate) else 0.0
  }

  /** Bytes granted, held and lost balance the time passed and what is unpaid. */
  lemma CallBalances(b: Bucket, c: Call)
    requires Valid(b) && b.last <= c.now && b.capacity > 0.0
    ensures Size(c) + After(b, c).tokens + Lost(b, c)
         == b.tokens + Times((After(b, c).last - b.last) as real, b.rate) + Unpaid(b, c)
    ensures Lost(b, c) >= 0.0
  {
    hide Times, Over, Quotient, Pause;
    TimesAdds(0.0, 0.0, b.rate);
    if Sleeps(b, c) {
      var a, d, e := (c.now - b.last) as real, Pause(b, c) as real, c.oversleep as real;
      assert (After(b, c).last - b.last) as real == (a + d) + e;
      TimesAdds(a, d, b.rate);
      TimesAdds(a + d, e, b.rate);
      TimesIsMonotone(0.0, e, b.rate);
    }
  }

  lemma OverDifference(d: real, p: real, r: real)
    requires r > 0.0 && d > 0.0
    ensures d - Times(p, r) < r <==> Over(d, r) - p < 1.0
    ensures Over(d, r) >= p ==> d >= Times(p, r)
  {
    hide Times, Over;
    OverTimes(d, r);
    TimesAdds(Over(d, r) - p, p, r);
    TimesIsMonotone(1.0, Over(d, r) - p, r);
    TimesIsMonotone(p, Over(d, r), r);
    assert Over(d, r) - p + p == Over(d, r);
  }

  /** Truncation leaves less than a nanosecond's quota unpaid exactly when the quotient fits an int64. */
  lemma UnpaidIsSmallIffFits(b: Bucket, c: Call)
    requires Valid(b) && b.capacity > 0.0 && -INT64 <= c.overflow < INT64
    ensures Unpaid(b, c) < b.rate <==> Fits(b, c)
    ensures !Sleeps(b, c) ==> Unpaid(b, c) == 0.0
    ensures Fits(b, c) ==> Unpaid(b, c) >= 0.0
  {
    hide Times, Over;
    if Sleeps(b, c) {
      PauseFloors(b, c);
      OverDifference(c.n as real - Refilled(b, c.now), Pause(b, c) as real, b.rate);
    }
  }

  // ---- Every sequence of calls that do not overlap -------------------------

  /** The bucket, and the time at which the last call returned. */
  datatype State = State(bucket: Bucket, clock: int)

  ghost predicate Next(s: State, c: Call, s': State) {
    Valid(s.bucket) && -INT64 <= c.overflow < INT64
    && c.now >= s.clock && s' == State(After(s.bucket, c), Return(s.bucket, c))
  }

  /** A limiter made at `start` and its calls, each begun after the one before returned. */
  ghost predicate IsRun(bytesPerSec: int, start: int, states: seq<State>, calls: seq<Call>) {
    && |states| == |calls| + 1 && states[0] == State(NewBucket(bytesPerSec, start), start)
    && forall i :: 0 <= i < |calls| ==> Next(states[i], calls[i], states[i + 1])
  }

  ghost predicate Inv(bytesPerSec: int, start: int, s: State) {
    && Valid(s.bucket) && start <= s.bucket.last <= s.clock
    && s.bucket.capacity == NewBucket(bytesPerSec, start).capacity
    && s.bucket.rate == NewBucket(bytesPerSec, start).rate
  }

  /** Tokens stay between nothing and the capacity, and time moves forward. */
  lemma {:induction false} TokensStayInRange(bytesPerSec: int, start: int, states: seq<State>, calls: seq<Call>, i: nat)
    requires bytesPerSec > 0 && IsRun(bytesPerSec, start, states, calls) && i < |states|
    ensures Inv(bytesPerSec, start, states[i]) && states[i].bucket.capacity == bytesPerSec as real
    ensures states[i].bucket.rate == bytesPerSec as real / 1000000000.0 > 0.0 && states[i].bucket.last <= states[i].clock
    ensures i > 0 ==> states[i - 1].clock <= states[i].clock
  {
    if i > 0 {
      TokensStayInRange(bytesPerSec, start, states, calls, i - 1);
      assert Next(states[i - 1], calls[i - 1], states[i]);
      AfterIsValid(states[i - 1].bucket, calls[i - 1]);
    }
  }

  /** Bytes granted by calls, among the first k, that have returned by time t. */
  ghost function Granted(states: seq<State>, calls: seq<Call>, k: nat, t: int): real
    requires |states| == |calls| + 1 && k <= |calls|
  {
    if k == 0 then 0.0
    else Granted(states, calls, k - 1, t) + if states[k].clock <= t then Size(calls[k - 1]) else 0.0
  }

  /** How many of those calls slept. */
  ghost function Slept(states: seq<State>, calls: seq<Call>, k: nat, t: int): nat
    requires |states| == |calls| + 1 && k <= |calls|
  {
    if k == 0 then 0
    else Slept(states, calls, k - 1, t)
         + if states[k].clock <= t && Sleeps(states[k - 1].bucket, calls[k - 1]) then 1 else 0
  }

  ghost predicate AllFit(bytesPerSec: int, start: int, states: seq<State>, calls: seq<Call>, k: nat)
    requires IsRun(bytesPerSec, start, states, calls) && k <= |calls|
  {
    forall i :: 0 <= i < k ==> Next(states[i], calls[i], states[i + 1]) && Fits(states[i].bucket, calls[i])
  }

  /** Strictly within the bound once a call has slept. */
  ghost predicate Within(granted: real, cap: real, rate: real, time: real, sleeps: nat, held: real) {
    var bound := cap + Times(time, rate) + Times(sleeps as real, rate) - held;
    granted <= bound && (sleeps > 0 ==> granted < bound)
  }

  /** The bound at a moment t by which all k calls have returned. */
  ghost predicate Bounded(bytesPerSec: int, start: int, states: seq<State>, calls: seq<Call>, k: nat, t: int)
    requires |states| == |calls| + 1 && k <= |calls|
  {
    var b, sleeps := states[k].bucket, Slept(states, calls, k, t);
    Within(Granted(states, calls, k, t), bytesPerSec as real, b.rate, (b.last - start) as real, sleeps, b.tokens)
  }

  lemma StepBalances(bytesPerSec: int, start: int, states: seq<State>, calls: seq<Call>, k: nat)
    requires bytesPerSec > 0 && IsRun(bytesPerSec, start, states, calls) && 0 < k <= |calls|
    requires AllFit(bytesPerSec, start, states, calls, k)
    ensures Valid(states[k - 1].bucket)
    ensures var b, c, b' := states[k - 1].bucket, calls[k - 1], states[k].bucket;
      && b.rate > 0.0 && b'.rate == b.rate && Lost(b, c) >= 0.0
      && Size(c) + b'.tokens + Lost(b, c) == b.tokens + Times((b'.last - b.last) as real, b.rate) + Unpaid(b, c)
      && if Sleeps(b, c) then Unpaid(b, c) < b.rate else Unpaid(b, c) == 0.0
  {
    var b, c := states[k - 1].bucket, calls[k - 1];
    assert Next(states[k - 1], calls[k - 1], states[k - 1 + 1]) && Fits(b, c);
    TokensStayInRange(bytesPerSec, start, states, calls, k - 1);
    hide *;
    AfterIsValid(b, c);
    CallBalances(b, c);
    UnpaidIsSmallIffFits(b, c);
  }

  lemma BoundStep(bytesPerSec: int, start: int, states: seq<State>, calls: seq<Call>, k: nat, t: int)
    requires bytesPerSec > 0 && IsRun(bytesPerSec, start, states, calls) && 0 < k <= |calls| && states[k].clock <= t
    requires AllFit(bytesPerSec, start, states, calls, k) && Bounded(bytesPerSec, start, states, calls, k - 1, t)
    ensures Bounded(bytesPerSec, start, states, calls, k, t)
  {
    hide After, Return, Refilled, Earned, Quotient, Pause, Fits, Lost, Unpaid, Sleeps, NewBucket, Size, AllFit, Next;
    var b, c, b' := states[k - 1].bucket, calls[k - 1], states[k].bucket;
    StepBalances(bytesPerSec, start, states, calls, k);
    BoundArithmetic(bytesPerSec as real, b.rate, Granted(states, calls, k - 1, t), Size(c),
      (b.last - start) as real, (b'.last - b.last) as real, Slept(states, calls, k - 1, t), Sleeps(b, c),
      b.tokens, b'.tokens, Lost(b, c), Unpaid(b, c));
  }

  lemma BoundArithmetic(cap: real, rate: real, granted: real, size: real, before: real, passed: real,
                        sleeps: nat, slept: bool, had: real, has: real, lost: real, unpaid: real)
    requires Within(granted, cap, rate, before, sleeps, had)
    requires size + has + lost == had + Times(passed, rate) + unpaid && lost >= 0.0
    requires rate > 0.0 && if slept then unpaid < rate else unpaid == 0.0
    ensures Within(granted + size, cap, rate, before + passed, sleeps + if slept then 1 else 0, has)
  {
    hide Times;
    TimesAdds(before, passed, rate);
    TimesAdds(sleeps as real, 1.0, rate);
    assert (sleeps + 1) as real == sleeps as real + 1.0;
  }

  lemma {:induction false} BoundHolds(bytesPerSec: int, start: int, states: seq<State>, calls: seq<Call>, k: nat, t: int)
    requires bytesPerSec > 0 && IsRun(bytesPerSec, start, states, calls) && k <= |calls| && states[k].clock <= t
    requires AllFit(bytesPerSec, start, states, calls, k)
    ensures Bounded(bytesPerSec, start, states, calls, k, t)
  {
    if k > 0 {
      TokensStayInRange(bytesPerSec, start, states, calls, k);
      BoundHolds(bytesPerSec, start, states, calls, k - 1, t);
      BoundStep(bytesPerSec, start, states, calls, k, t);
    }
  }

  /** Bytes granted by any time t are at most the capacity plus the rate times the time
      passed, plus less than a nanosecond's quota for each call that slept. */
  lemma {:induction false} GrantedAtMostQuota(bytesPerSec: int, start: int, states: seq<State>, calls: seq<Call>, k: nat, t: int)
    requires bytesPerSec > 0 && IsRun(bytesPerSec, start, states, calls) && k <= |calls| && start <= t
    requires AllFit(bytesPerSec, start, states, calls, k)
    ensures Within(Granted(states, calls, k, t), bytesPerSec as real, bytesPerSec as real / 1000000000.0,
                   (t - start) as real, Slept(states, calls, k, t), 0.0)
  {
    hide After, Return, NewBucket, Next, Sleeps, Size, Times;
    if states[k].clock <= t {
      BoundHolds(bytesPerSec, start, states, calls, k, t);
      TokensStayInRange(bytesPerSec, start, states, calls, k);
      TimesIsMonotone((states[k].bucket.last - start) as real, (t - start) as real, states[k].bucket.rate);
    } else {
      assert k > 0;
      GrantedAtMostQuota(bytesPerSec, start, states, calls, k - 1, t);
    }
  }

  /** A limiter that has been idle for a second grants any request up to its capacity at once. */
  lemma IdleGrantsAtOnce(bytesPerSec: int, start: int, states: seq<State>, calls: seq<Call>, i: nat)
    requires bytesPerSec > 0 && IsRun(bytesPerSec, start, states, calls) && i < |calls|
    requires calls[i].now >= states[i].clock + 1_000_000_000 && calls[i].n <= bytesPerSec
    ensures states[i + 1].clock == calls[i].now
    ensures calls[i].n > 0 ==> states[i + 1].bucket.tokens == (bytesPerSec - calls[i].n) as real
  {
    hide After, Return, NewBucket, OnHand, Times, Valid;
    TokensStayInRange(bytesPerSec, start, states, calls, i);
    var b, c := states[i].bucket, calls[i];
    assert Next(states[i], calls[i], states[i + 1]);
    WaitLaw(b, c);
    SecondFills(b, c.now, bytesPerSec);
  }

  lemma SecondFills(b: Bucket, now: int, bytesPerSec: int)
    requires Valid(b) && bytesPerSec > 0 && b.capacity == bytesPerSec as real && b.rate == bytesPerSec as real / 1000000000.0
    requires now - b.last >= 1_000_000_000
    ensures OnHand(b.tokens, b.capacity, b.rate, b.last, now) == bytesPerSec as real
  {
    SecondsQuota(bytesPerSec);
    hide Times;
    TimesIsMonotone(1000000000.0, (now - b.last) as real, b.rate);
  }

  lemma SecondsQuota(bytesPerSec: int)
    ensures Times(1000000000.0, bytesPerSec as real / 1000000000.0) == bytesPerSec as real
  {
  }

  /** A request the bucket cannot pay returns at its entry time only if what is missing earns
      in under a nanosecond and the sleep is not late; one it can pay always does. */
  lemma ReturnsAtOnceIff(b: Bucket, c: Call)
    requires Valid(b) && b.capacity > 0.0 && b.last <= c.now && c.n > 0
    ensures var held := OnHand(b.tokens, b.capacity, b.rate, b.last, c.now);
      c.n as real - held < Times(INT64 as real, b.rate) ==>
        (Return(b, c) == c.now <==> c.n as real <= held || (c.n as real - held < b.rate && c.oversleep == 0))
  {
    hide Return, After, Times, OnHand;
    WaitLaw(b, c);
    var held := OnHand(b.tokens, b.capacity, b.rate, b.last, c.now);
    if c.n as real > held && c.n as real - held < Times(INT64 as real, b.rate) {
      NoPause(c.n as real - held, Return(b, c) - c.now - c.oversleep, b.rate);
    }
  }

  lemma NoPause(deficit: real, p: int, rate: real)
    requires rate > 0.0 && p >= 0 && Times(p as real, rate) <= deficit < Times(p as real + 1.0, rate)
    ensures p == 0 <==> deficit < rate
  {
    hide Times;
    TimesAdds(0.0, 0.0, rate);
    if p > 0 {
      TimesIsMonotone(1.0, p as real, rate);
    }
  }

  /** Past that size the bound fails: at 1 byte per second, a call for 2^63 - 1 bytes whose
      converted duration is negative returns at once. */
  lemma HugeRequestIsNotThrottled() returns (states: seq<State>, calls: seq<Call>)
    ensures IsRun(1, 0, states, calls) && |calls| == 1 && calls[0].n == INT64 - 1 && states[1].clock == 0
    ensures Granted(states, calls, 1, 0) == (INT64 - 1) as real
  {
    var c := Call(INT64 - 1, 0, 0, -INT64);
    var b := NewBucket(1, 0);
    calls := [c];
    HugeQuotient(b, c);
    states := [State(b, 0), State(After(b, c), Return(b, c))];
    assert Granted(states, calls, 0, 0) == 0.0;
  }

  lemma HugeQuotient(b: Bucket, c: Call)
    requires b == NewBucket(1, 0) && c == Call(INT64 - 1, 0, 0, -INT64)
    ensures Valid(b) && Sleeps(b, c) && Return(b, c) == 0
  {
    hide Times, Over;
    var d := c.n as real - 1.0;
    TimesAdds(0.0, 0.0, b.rate);
    assert Refilled(b, 0) == 1.0;
    OverTimes(d, b.rate);
    TimesIsMonotone(INT64 as real, Over(d, b.rate), b.rate);
    HugeProduct(d, b.rate);
  }

  lemma HugeProduct(d: real, rate: real)
    requires d == (INT64 - 2) as real && rate == 1.0 / 1000000000.0
    ensures Times(INT64 as real, rate) <= d
  {
  }
}
