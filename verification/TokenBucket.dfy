/** The lazily refilled token bucket of flowcontrol/tokenbucket/limiter.go.

    Times and durations are integers counting nanoseconds. The functions of the first half say what one
    call does to the bucket; the class of module `BucketObject` updates its fields in place and is proved
    against them. The theorems are about whole runs: every call holds the bucket's mutex, so a run is a sequence
    of atomic calls under a clock that never goes back.
 */
module TokenBucket {
  import opened Arithmetic

  /** The fields of a bucket that no take changes. */
  datatype Config = Config(start: int, interval: int, capacity: int, quantum: int) {
    predicate Valid() {
      0 < interval && 0 < capacity && 0 < quantum
    }
  }

  /** `available` is the number of tokens at tick `tick`; it is negative while somebody waits. */
  datatype State = State(available: int, tick: int)

  const INFINITY_DURATION: int := 0x7fff_ffff_ffff_ffff

  function TickAt(c: Config, now: int): int
    requires c.Valid()
  {
    TruncDiv(now - c.start, c.interval)
  }

  function Adjust(c: Config, s: State, tick: int): State {
    if s.available >= c.capacity then
      s.(tick := tick)
    else
      State(Min(c.capacity, s.available + (tick - s.tick) * c.quantum), tick)
  }

  /** The tick at which a bucket with `available` tokens at `tick` has paid its debt. */
  function EndTick(c: Config, available: int, tick: int): int
    requires c.Valid()
  {
    tick + TruncDiv(-available + c.quantum - 1, c.quantum)
  }

  function TimeOfTick(c: Config, tick: int): int {
    c.start + tick * c.interval
  }

  datatype TakeResult = TakeResult(state: State, wait: int, ok: bool)

  function Take(c: Config, s: State, now: int, count: int, maxWait: int): TakeResult
    requires c.Valid()
  {
    if count <= 0 then
      TakeResult(s, 0, true)
    else
      var adjusted := Adjust(c, s, TickAt(c, now));
      var available := adjusted.available - count;
      if available >= 0 then
        TakeResult(adjusted.(available := available), 0, true)
      else
        var wait := TimeOfTick(c, EndTick(c, available, adjusted.tick)) - now;
        if wait > maxWait then
          TakeResult(adjusted, 0, false)
        else
          TakeResult(adjusted.(available := available), wait, true)
  }

  function TakeAvailable(c: Config, s: State, now: int, count: int): (State, int)
    requires c.Valid()
  {
    if count <= 0 then
      (s, 0)
    else
      var adjusted := Adjust(c, s, TickAt(c, now));
      if adjusted.available <= 0 then
        (adjusted, 0)
      else
        var taken := Min(count, adjusted.available);
        (adjusted.(available := adjusted.available - taken), taken)
  }

  // ---------- Runs ----------

  /** One call and the time at which it holds the mutex. `Available` reads the clock before it locks, so
      the time it refills for may lie before that of calls that were served while it waited. */
  datatype Call =
    | TakeCall(now: int, count: int, maxWait: int)
    | TakeAvailableCall(now: int, count: int)
    | AvailableCall(now: int, readAt: int)

  /** Tokens that left the bucket, and the time at which their taker stops waiting for them. */
  datatype Grant = Grant(count: int, deadline: int)

  /** The new state, and the one grant the call makes, if it makes one. */
  function Step(c: Config, s: State, call: Call): (State, seq<Grant>)
    requires c.Valid()
  {
    match call
    case TakeCall(now, count, maxWait) =>
      var r := Take(c, s, now, count, maxWait);
      (r.state, if count > 0 && r.ok then [Grant(count, now + r.wait)] else [])
    case TakeAvailableCall(now, count) =>
      var (s', taken) := TakeAvailable(c, s, now, count);
      (s', if taken > 0 then [Grant(taken, now)] else [])
    case AvailableCall(_, readAt) =>
      (Adjust(c, s, TickAt(c, readAt)), [])
  }

  function Run(c: Config, s: State, calls: seq<Call>): seq<Grant>
    requires c.Valid()
    decreases |calls|
  {
    if calls == [] then [] else
    var (s', granted) := Step(c, s, calls[0]);
    granted + Run(c, s', calls[1..])
  }

  /** The clock stands at `from` and never goes back. */
  predicate InOrder(calls: seq<Call>, from: int) {
    calls == [] ||
    (from <= calls[0].now
     && (calls[0].AvailableCall? ==> calls[0].readAt <= calls[0].now)
     && InOrder(calls[1..], calls[0].now))
  }

  function Full(c: Config): State {
    State(c.capacity, 0)
  }

  // ---------- Ticks ----------

  lemma TickMonotone(c: Config, t: int, u: int)
    requires c.Valid() && t <= u
    ensures TickAt(c, t) <= TickAt(c, u)
  {
    var a, b := t - c.start, u - c.start;
    if 0 <= a {
      DivMonotone(a, b, c.interval);
    } else if b < 0 {
      DivMonotone(-b, -a, c.interval);
    } else {
      DivBounds(-a, c.interval);
      DivBounds(b, c.interval);
    }
  }

  /** From the start of the bucket on, a tick has come exactly when its time has. */
  lemma TickReached(c: Config, now: int, k: int)
    requires c.Valid() && c.start <= now
    ensures k <= TickAt(c, now) <==> TimeOfTick(c, k) <= now
  {
    var e := TickAt(c, now);
    DivBounds(now - c.start, c.interval);
    if k <= e { MulMonotone(k, e, c.interval); } else { MulMonotone(e + 1, k, c.interval); }
  }

  /** Before the start it is the other way round: ticks are numbered by the last one still to come. */
  lemma TickToCome(c: Config, now: int, k: int)
    requires c.Valid() && now <= c.start
    ensures TickAt(c, now) <= k <==> now <= TimeOfTick(c, k)
  {
    var e := -TickAt(c, now);
    DivBounds(c.start - now, c.interval);
    assert k * c.interval == -(-k * c.interval);
    if -k <= e { MulMonotone(-k, e, c.interval); } else { MulMonotone(e + 1, -k, c.interval); }
  }

  /** The tick that the ceiling division finds is the first with enough refills for the debt. */
  lemma EndTickExact(c: Config, available: int, tick: int, k: int)
    requires c.Valid() && available < 0
    ensures tick < EndTick(c, available, tick)
    ensures EndTick(c, available, tick) <= k <==> 0 <= available + (k - tick) * c.quantum
  {
    var q := c.quantum;
    var n := -available + q - 1;
    var d := n / q;
    DivBounds(n, q);
    assert (d + 1) * q == d * q + q;
    if d <= k - tick {
      MulMonotone(d, k - tick, q);
    } else {
      MulMonotone(k - tick, d - 1, q);
      assert (d - 1) * q == d * q - q;
    }
  }

  // ---------- Refills ----------

  /** Refilling for tick `k` first never matters to a refill for a later tick `m`, even when `k` lies before
      the tick the bucket was last refilled for. */
  lemma AdjustCompose(c: Config, s: State, k: int, m: int)
    requires c.Valid() && k <= m && s.tick <= m
    ensures Adjust(c, Adjust(c, s, k), m) == Adjust(c, s, m)
  {
    if s.available < c.capacity {
      var q := c.quantum;
      assert (k - s.tick) * q + (m - k) * q == (m - s.tick) * q;
      MulMonotone(k - s.tick, m - s.tick, q);
    }
  }

  /** A bucket that adds the quantum on every tick and clamps each time. */
  function EagerTicks(c: Config, available: int, n: nat): int
    decreases n
  {
    if n == 0 then available
    else EagerTicks(c, if available >= c.capacity then available else Min(c.capacity, available + c.quantum), n - 1)
  }

  lemma OneTick(c: Config, s: State)
    requires c.Valid()
    ensures var s' := Adjust(c, s, s.tick + 1);
            s'.tick == s.tick + 1 && s'.available == EagerTicks(c, s.available, 1)
  {
    assert (s.tick + 1 - s.tick) * c.quantum == c.quantum;
  }

  /** One lazy refill over `n` ticks is `n` eager ones. */
  lemma {:induction false} LazyIsEager(c: Config, s: State, n: nat)
    requires c.Valid()
    ensures Adjust(c, s, s.tick + n).available == EagerTicks(c, s.available, n)
    decreases n
  {
    if n > 0 {
      var s' := Adjust(c, s, s.tick + 1);
      OneTick(c, s);
      AdjustCompose(c, s, s.tick + 1, s.tick + n);
      LazyIsEager(c, s', n - 1);
    } else {
      assert (s.tick + 0 - s.tick) * c.quantum == 0;
    }
  }

  /** The run of the eager bucket: its tokens are always those of the clock's tick, and a read or a refused
      call leaves it as it is. */
  function EagerRun(c: Config, available: int, tick: int, calls: seq<Call>): seq<Grant>
    requires c.Valid()
    decreases |calls|
  {
    if calls == [] then [] else
    var call, rest := calls[0], calls[1..];
    var k := TickAt(c, call.now);
    var a := if k <= tick then available else EagerTicks(c, available, k - tick);
    match call
    case TakeCall(now, count, maxWait) =>
      var due := if a >= count then now else TimeOfTick(c, EndTick(c, a - count, k));
      if count <= 0 || (a < count && due - now > maxWait) then EagerRun(c, a, k, rest)
      else [Grant(count, due)] + EagerRun(c, a - count, k, rest)
    case TakeAvailableCall(now, count) =>
      if count <= 0 || a <= 0 then EagerRun(c, a, k, rest)
      else [Grant(Min(count, a), now)] + EagerRun(c, a - Min(count, a), k, rest)
    case AvailableCall(_, _) =>
      EagerRun(c, a, k, rest)
  }

  /** `s` was last refilled no later than the clock `from`. */
  predicate Past(c: Config, s: State, from: int)
    requires c.Valid()
  {
    s.tick <= TickAt(c, from)
  }

  /** The tokens of `s` once it is refilled for the clock. */
  function Settled(c: Config, s: State, now: int): State
    requires c.Valid()
  {
    Adjust(c, s, TickAt(c, now))
  }

  /** What one call does, told on settled states only. */
  lemma StepSettled(c: Config, s: State, from: int, call: Call)
    requires c.Valid() && Past(c, s, from) && InOrder([call], from)
    ensures var (s', granted) := Step(c, s, call);
            Past(c, s', call.now)
            && Settled(c, s, call.now) == Adjust(c, Settled(c, s, from), TickAt(c, call.now))
            && (granted == [] ==> Settled(c, s', call.now) == Settled(c, s, call.now))
            && (granted != [] ==>
              |granted| == 1 && granted[0].count > 0 && s' == Settled(c, s', call.now)
              && s' == Settled(c, s, call.now).(available := Settled(c, s, call.now).available - granted[0].count))
  {
    var now := call.now;
    var (s', granted) := Step(c, s, call);
    TickMonotone(c, from, now);
    AdjustCompose(c, s, TickAt(c, from), TickAt(c, now));
    if call.AvailableCall? {
      TickMonotone(c, call.readAt, now);
      AdjustCompose(c, s, TickAt(c, call.readAt), TickAt(c, now));
    } else {
      AdjustCompose(c, s, TickAt(c, now), TickAt(c, now));
    }
  }

  /** A read refills for the time it has read, even where that lies before the last refill, takes nothing, and matters
      to nobody after it. */
  lemma StaleReadIsHarmless(c: Config, s: State, now: int, readAt: int)
    requires c.Valid() && Past(c, s, now) && readAt <= now
    ensures var (s', granted) := Step(c, s, AvailableCall(now, readAt));
            s'.tick == TickAt(c, readAt) && granted == [] && Settled(c, s', now) == Settled(c, s, now)
  {
    TickMonotone(c, readAt, now);
    AdjustCompose(c, s, TickAt(c, readAt), TickAt(c, now));
  }

  /** A call of the lazy bucket is a call of the eager one, whose tokens are those of the settled state. */
  lemma StepIsEager(c: Config, s: State, from: int, call: Call, rest: seq<Call>)
    requires c.Valid() && Past(c, s, from) && InOrder([call], from)
    ensures var (s', granted) := Step(c, s, call);
            EagerRun(c, Settled(c, s, from).available, TickAt(c, from), [call] + rest) ==
            granted + EagerRun(c, Settled(c, s', call.now).available, TickAt(c, call.now), rest)
  {
    var (s', granted) := Step(c, s, call);
    StepSettled(c, s, from, call);
    TickMonotone(c, from, call.now);
    LazyIsEager(c, Settled(c, s, from), TickAt(c, call.now) - TickAt(c, from));
    assert ([call] + rest)[0] == call && ([call] + rest)[1..] == rest;
  }

  /** The lazy bucket refines the eager one: over every run both make the same grants with the same
      deadlines. Reads of the availability, stale ones included, have no part in it. */
  lemma {:induction false} LazyRefinesEager(c: Config, s: State, from: int, calls: seq<Call>)
    requires c.Valid() && Past(c, s, from) && InOrder(calls, from)
    ensures Run(c, s, calls) == EagerRun(c, Settled(c, s, from).available, TickAt(c, from), calls)
    decreases |calls|
  {
    if calls != [] {
      var call, rest := calls[0], calls[1..];
      var (s', granted) := Step(c, s, call);
      StepSettled(c, s, from, call);
      StepIsEager(c, s, from, call, rest);
      LazyRefinesEager(c, s', call.now, rest);
      assert [call] + rest == calls;
    }
  }

  /** The calls that took tokens: no reads, no refused takes, no non-positive counts. */
  function Effective(c: Config, s: State, calls: seq<Call>): seq<Call>
    requires c.Valid()
    decreases |calls|
  {
    if calls == [] then [] else
    var (s', granted) := Step(c, s, calls[0]);
    (if granted == [] then [] else [calls[0]]) + Effective(c, s', calls[1..])
  }

  /** Deleting every call that took nothing changes no grant and no deadline of the others. */
  lemma IdleCallsDoNotMatter(c: Config, s: State, from: int, calls: seq<Call>)
    requires c.Valid() && Past(c, s, from) && InOrder(calls, from)
    ensures Run(c, s, Effective(c, s, calls)) == Run(c, s, calls)
  {
    EffectiveRun(c, s, s, from, calls);
  }

  /** A call that takes tokens sees nothing of the bucket but its settled state. */
  lemma StepSeesSettled(c: Config, s: State, t: State, call: Call)
    requires c.Valid() && Settled(c, s, call.now) == Settled(c, t, call.now)
    requires Step(c, s, call).1 != []
    ensures Step(c, t, call) == Step(c, s, call)
  {
  }

  lemma RunCons(c: Config, s: State, call: Call, rest: seq<Call>)
    requires c.Valid()
    ensures var (s', granted) := Step(c, s, call);
            Run(c, s, [call] + rest) == granted + Run(c, s', rest)
            && Effective(c, s, [call] + rest) == (if granted == [] then [] else [call]) + Effective(c, s', rest)
  {
    assert ([call] + rest)[1..] == rest;
  }

  lemma {:induction false} EffectiveRun(c: Config, s: State, t: State, from: int, calls: seq<Call>)
    requires c.Valid() && Past(c, s, from) && Past(c, t, from) && InOrder(calls, from)
    requires Settled(c, s, from) == Settled(c, t, from)
    ensures Run(c, t, Effective(c, s, calls)) == Run(c, s, calls)
    decreases |calls|
  {
    if calls != [] {
      var call, rest := calls[0], calls[1..];
      var (s', granted) := Step(c, s, call);
      StepSettled(c, s, from, call);
      SettledLater(c, t, from, call.now);
      if granted == [] {
        EffectiveRun(c, s', t, call.now, rest);
      } else {
        EffectiveRun(c, s', s', call.now, rest);
        StepSeesSettled(c, s, t, call);
      }
      EffectiveFirst(c, s, t, call, rest);
      assert [call] + rest == calls;
    }
  }

  lemma EffectiveFirst(c: Config, s: State, t: State, call: Call, rest: seq<Call>)
    requires c.Valid()
    requires var (s', granted) := Step(c, s, call);
             if granted == [] then Run(c, t, Effective(c, s', rest)) == Run(c, s', rest)
             else Step(c, t, call) == Step(c, s, call) && Run(c, s', Effective(c, s', rest)) == Run(c, s', rest)
    ensures Run(c, t, Effective(c, s, [call] + rest)) == Run(c, s, [call] + rest)
  {
    var (s', granted) := Step(c, s, call);
    RunCons(c, s, call, rest);
    if granted == [] {
      assert [] + Effective(c, s', rest) == Effective(c, s', rest);
    } else {
      RunCons(c, t, call, Effective(c, s', rest));
    }
  }

  lemma SettledLater(c: Config, s: State, from: int, now: int)
    requires c.Valid() && Past(c, s, from) && from <= now
    ensures Past(c, s, now) && Settled(c, s, now) == Adjust(c, Settled(c, s, from), TickAt(c, now))
  {
    TickMonotone(c, from, now);
    AdjustCompose(c, s, TickAt(c, from), TickAt(c, now));
  }

  // ---------- Waits ----------

  /** The bucket right after a take of `count` tokens, granted or not. */
  function Debited(c: Config, s: State, now: int, count: int): State
    requires c.Valid()
  {
    var settled := Settled(c, s, now);
    settled.(available := settled.available - count)
  }

  /** Left alone, the bucket has no debt at time `t`. */
  predicate PaidBy(c: Config, s: State, t: int)
    requires c.Valid()
  {
    Settled(c, s, t).available >= 0
  }

  /** A take of tokens that are not there waits until the first tick at which the debt is paid. */
  lemma DebtPaidAt(c: Config, s: State, now: int, count: int, t: int)
    requires c.Valid() && c.start <= now <= t && 0 < count
    requires Debited(c, s, now, count).available < 0
    ensures var debited := Debited(c, s, now, count);
            var end := TimeOfTick(c, EndTick(c, debited.available, debited.tick));
            now < end && (PaidBy(c, debited, t) <==> end <= t)
  {
    var debited := Debited(c, s, now, count);
    var end := EndTick(c, debited.available, debited.tick);
    EndTickExact(c, debited.available, debited.tick, TickAt(c, t));
    TickReached(c, t, end);
    TickReached(c, now, end);
  }

  /** The wait of a granted take is the least one after which the debt is gone; a debt always waits. */
  lemma WaitIsExact(c: Config, s: State, now: int, count: int, maxWait: int)
    requires c.Valid() && c.start <= now && 0 < count
    requires Take(c, s, now, count, maxWait).ok
    ensures var r := Take(c, s, now, count, maxWait);
            r.state == Debited(c, s, now, count)
            && (r.wait > 0 <==> r.state.available < 0) && 0 <= r.wait
            && forall t :: now <= t ==> (PaidBy(c, r.state, t) <==> now + r.wait <= t)
  {
    var r := Take(c, s, now, count, maxWait);
    if r.state.available < 0 { DebtPaidAt(c, s, now, count, now); }
    forall t | now <= t ensures PaidBy(c, r.state, t) <==> now + r.wait <= t {
      if r.state.available < 0 {
        DebtPaidAt(c, s, now, count, t);
      } else {
        TickMonotone(c, now, t);
        MulMonotone(0, TickAt(c, t) - r.state.tick, c.quantum);
      }
    }
  }

  /** Told in ticks: availability is negative at every tick from the take's own up to, and not including, the
      tick of `now + wait`, and non-negative from that tick on. */
  lemma WaitEndsAtTick(c: Config, s: State, now: int, count: int, maxWait: int, k: int)
    requires c.Valid() && c.start <= now && 0 < count
    requires Take(c, s, now, count, maxWait).ok && TickAt(c, now) <= k
    ensures var r := Take(c, s, now, count, maxWait);
            Adjust(c, r.state, k).available >= 0 <==> TickAt(c, now + r.wait) <= k
  {
    var r := Take(c, s, now, count, maxWait);
    if r.state.available < 0 {
      var end := EndTick(c, r.state.available, r.state.tick);
      EndTickExact(c, r.state.available, r.state.tick, k);
      DebtPaidAt(c, s, now, count, now);
      DivUnique(end * c.interval, c.interval, end) by {
        TickReached(c, now, 0);
        TickReached(c, c.start, 0);
        assert 0 <= TickAt(c, now) < end by {
          EndTickExact(c, r.state.available, r.state.tick, end);
          DivBounds(now - c.start, c.interval);
        }
        MulMonotone(0, end, c.interval);
        assert (end + 1) * c.interval == end * c.interval + c.interval;
      }
    } else {
      MulMonotone(0, k - r.state.tick, c.quantum);
    }
  }

  /** A take is refused exactly when no wait of at most `maxWait` pays the debt it would leave. */
  lemma RefusedIffTooLong(c: Config, s: State, now: int, count: int, maxWait: int)
    requires c.Valid() && c.start <= now && 0 < count
    ensures Take(c, s, now, count, maxWait).ok <==>
            Debited(c, s, now, count).available >= 0
            || exists t :: now <= t <= now + maxWait && PaidBy(c, Debited(c, s, now, count), t)
  {
    var debited := Debited(c, s, now, count);
    if debited.available < 0 {
      var end := TimeOfTick(c, EndTick(c, debited.available, debited.tick));
      DebtPaidAt(c, s, now, count, now);
      DebtPaidAt(c, s, now, count, end);
      forall t | now <= t <= now + maxWait && PaidBy(c, debited, t) ensures end <= t {
        DebtPaidAt(c, s, now, count, t);
      }
    }
  }

  /** A take is all or nothing. A refused one takes no tokens and has no wait; one without a count is granted and does
      not even refill; only what is granted waits, and for no longer than it is ready to. */
  lemma TakeAllOrNothing(c: Config, s: State, now: int, count: int, maxWait: int)
    requires c.Valid()
    ensures var r := Take(c, s, now, count, maxWait);
            (count <= 0 ==> r.ok && r.wait == 0 && r.state == s)
            && (!r.ok ==> r.wait == 0 && r.state == Settled(c, s, now) && Settled(c, r.state, now) == r.state)
            && (0 < r.wait ==> r.ok && 0 < count && r.wait <= maxWait)
            && (r.ok && 0 < count ==> r.state == Debited(c, s, now, count))
  {
    assert (TickAt(c, now) - TickAt(c, now)) * c.quantum == 0;
  }

  /** A take of what is there leaves no debt and gets as much as it can; where there is nothing, it gets none. */
  lemma TakeAvailableGetsMost(c: Config, s: State, now: int, count: int)
    requires c.Valid()
    ensures var (s', taken) := TakeAvailable(c, s, now, count);
            var there := Settled(c, s, now).available;
            (count <= 0 ==> taken == 0 && s' == s)
            && (0 < count && there <= 0 ==> taken == 0)
            && (0 < count && 0 < there ==> 0 < taken <= count && taken <= there && (taken == count || taken == there))
            && (0 < count ==> s'.available + taken == there && s'.tick == TickAt(c, now))
  {
  }

  /** `Take` passes the longest duration there is, 2^63 - 1 nanoseconds, as its limit, so it is never refused as long
      as the end of the wait can be told as a duration since the start of the bucket. */
  lemma TakeNeverRefused(c: Config, s: State, now: int, count: int)
    requires c.Valid() && c.start <= now
    requires var debited := Debited(c, s, now, count);
             EndTick(c, debited.available, debited.tick) * c.interval <= 0x7fff_ffff_ffff_ffff
    ensures Take(c, s, now, count, INFINITY_DURATION).ok
  {
  }

  // ---------- Deadlines ----------

  /** `deadline` has passed, or it is no later than the time at which the present debt is paid. */
  predicate NotAfterDebt(c: Config, settled: State, now: int, deadline: int)
    requires c.Valid()
  {
    deadline <= now
    || (settled.available < 0 && deadline <= TimeOfTick(c, EndTick(c, settled.available, settled.tick)))
  }

  lemma NotAfterDebtLater(c: Config, settled: State, now: int, later: int, deadline: int)
    requires c.Valid() && c.start <= now <= later && settled.tick == TickAt(c, now)
    requires NotAfterDebt(c, settled, now, deadline)
    ensures NotAfterDebt(c, Adjust(c, settled, TickAt(c, later)), later, deadline)
  {
    if later < deadline {
      var k := TickAt(c, later);
      var end := EndTick(c, settled.available, settled.tick);
      TickReached(c, later, end);
      EndTickExact(c, settled.available, settled.tick, k);
      EndTickSteady(c, settled.available, settled.tick, k);
    }
  }

  lemma EndTickSteady(c: Config, available: int, tick: int, k: int)
    requires c.Valid() && available < 0 && available + (k - tick) * c.quantum < 0
    ensures EndTick(c, available + (k - tick) * c.quantum, k) == EndTick(c, available, tick)
  {
    var later := available + (k - tick) * c.quantum;
    var a, b := EndTick(c, available, tick), EndTick(c, later, k);
    EndTickExact(c, available, tick, a);
    EndTickExact(c, available, tick, b);
    EndTickExact(c, later, k, a);
    EndTickExact(c, later, k, b);
    assert (k - tick) * c.quantum + (a - k) * c.quantum == (a - tick) * c.quantum;
    assert (k - tick) * c.quantum + (b - k) * c.quantum == (b - tick) * c.quantum;
  }

  lemma EndTickMonotone(c: Config, a: int, b: int, tick: int)
    requires c.Valid() && a <= b < 0
    ensures TimeOfTick(c, EndTick(c, b, tick)) <= TimeOfTick(c, EndTick(c, a, tick))
  {
    var end := EndTick(c, a, tick);
    EndTickExact(c, a, tick, end);
    EndTickExact(c, b, tick, end);
    MulMonotone(EndTick(c, b, tick), end, c.interval);
  }

  lemma {:induction false} NoEarlierDeadline(c: Config, s: State, from: int, calls: seq<Call>, deadline: int)
    requires c.Valid() && c.start <= from && Past(c, s, from) && InOrder(calls, from)
    requires NotAfterDebt(c, Settled(c, s, from), from, deadline)
    ensures forall i :: 0 <= i < |Run(c, s, calls)| ==> deadline <= Run(c, s, calls)[i].deadline
    decreases |calls|
  {
    if calls != [] {
      var call, rest := calls[0], calls[1..];
      var (s', granted) := Step(c, s, call);
      StepSettled(c, s, from, call);
      NotAfterDebtLater(c, Settled(c, s, from), from, call.now, deadline);
      var settled := Settled(c, s, call.now);
      if granted != [] && call.TakeCall? && s'.available < 0 {
        if settled.available < 0 { EndTickMonotone(c, s'.available, settled.available, settled.tick); }
        DebtPaidAt(c, s, call.now, call.count, call.now);
      }
      NoEarlierDeadline(c, s', call.now, rest, deadline);
    }
  }

  /** Deadlines are first in, first out: over every run no later grant is due before an earlier one. */
  lemma {:induction false} DeadlinesAreFifo(c: Config, s: State, from: int, calls: seq<Call>)
    requires c.Valid() && c.start <= from && Past(c, s, from) && InOrder(calls, from)
    ensures forall i, j :: 0 <= i < j < |Run(c, s, calls)| ==>
              Run(c, s, calls)[i].deadline <= Run(c, s, calls)[j].deadline
    decreases |calls|
  {
    if calls != [] {
      var call, rest := calls[0], calls[1..];
      var (s', granted) := Step(c, s, call);
      StepSettled(c, s, from, call);
      DeadlinesAreFifo(c, s', call.now, rest);
      if granted != [] {
        NoEarlierDeadline(c, s', call.now, rest, granted[0].deadline);
      }
    }
  }

  // ---------- Rate ----------

  /** The tokens whose wait has ended by tick `last`. */
  function DueBy(c: Config, grants: seq<Grant>, last: int): int
    requires c.Valid()
  {
    if grants == [] then 0 else
    (if TickAt(c, grants[0].deadline) <= last then grants[0].count else 0) + DueBy(c, grants[1..], last)
  }

  /** A take's wait ends at a tick boundary, at which the balance is no longer negative. */
  lemma GrantBalance(c: Config, s: State, call: Call, last: int)
    requires c.Valid() && c.start <= call.now
    requires !call.AvailableCall? && Step(c, s, call).1 != []
    ensures var (s', granted) := Step(c, s, call);
            TickAt(c, call.now) <= TickAt(c, granted[0].deadline)
            && (TickAt(c, granted[0].deadline) <= last <==>
                TickAt(c, call.now) <= last
                && (s'.available >= 0 || 0 <= s'.available + (last - s'.tick) * c.quantum))
  {
    var (s', granted) := Step(c, s, call);
    if call.TakeCall? {
      WaitIsExact(c, s, call.now, call.count, call.maxWait);
      TickMonotone(c, call.now, granted[0].deadline);
      if TickAt(c, call.now) <= last {
        WaitEndsAtTick(c, s, call.now, call.count, call.maxWait, last);
      }
    }
  }

  /** What `balance` tokens at tick `k` allow to be handed over by tick `last`. */
  function Allowance(c: Config, balance: int, k: int, last: int): int {
    if last < k then 0 else Max(0, balance + (last - k) * c.quantum)
  }

  /** Refilling up to tick `k'` allows no more than there was before. */
  lemma AllowanceLater(c: Config, settled: State, k': int, last: int)
    requires c.Valid() && settled.tick <= k'
    ensures Allowance(c, Adjust(c, settled, k').available, k', last)
         <= Allowance(c, settled.available, settled.tick, last)
  {
    var k := settled.tick;
    assert (k' - k) * c.quantum + (last - k') * c.quantum == (last - k) * c.quantum;
    MulMonotone(0, k' - k, c.quantum);
    if k <= last { MulMonotone(0, last - k, c.quantum); }
  }

  /** A grant that is due by tick `last` uses up as much of the allowance as it took. */
  lemma AllowanceTaken(c: Config, s: State, call: Call, last: int)
    requires c.Valid() && c.start <= call.now
    requires Step(c, s, call).1 != []
    ensures var (s', granted) := Step(c, s, call);
            |granted| == 1
            && (if TickAt(c, granted[0].deadline) <= last then granted[0].count else 0)
             + Allowance(c, s'.available, s'.tick, last)
            <= Allowance(c, Settled(c, s, call.now).available, s'.tick, last)
  {
    GrantBalance(c, s, call, last);
    var s' := Step(c, s, call).0;
    if s'.tick <= last { MulMonotone(0, last - s'.tick, c.quantum); }
  }

  lemma DueByCons(c: Config, granted: seq<Grant>, run: seq<Grant>, last: int)
    requires c.Valid() && |granted| <= 1
    ensures DueBy(c, granted + run, last)
         == DueBy(c, run, last)
          + if granted != [] && TickAt(c, granted[0].deadline) <= last then granted[0].count else 0
  {
    if granted == [] { assert granted + run == run; } else { assert (granted + run)[1..] == run; }
  }

  /** From any point of a run on, the tokens due by tick `last` are bounded by the balance and the refills. */
  lemma {:induction false} DueByBalance(c: Config, s: State, from: int, calls: seq<Call>, last: int)
    requires c.Valid() && c.start <= from && Past(c, s, from) && InOrder(calls, from)
    ensures DueBy(c, Run(c, s, calls), last)
         <= Allowance(c, Settled(c, s, from).available, TickAt(c, from), last)
    decreases |calls|
  {
    if calls != [] {
      var call, rest := calls[0], calls[1..];
      var (s', granted) := Step(c, s, call);
      StepSettled(c, s, from, call);
      TickMonotone(c, from, call.now);
      DueByBalance(c, s', call.now, rest, last);
      AllowanceLater(c, Settled(c, s, from), TickAt(c, call.now), last);
      if granted != [] { AllowanceTaken(c, s, call, last); }
      DueByCons(c, granted, Run(c, s', rest), last);
    }
  }

  /** The rate bound over whole runs: a bucket that started full has handed over at most its capacity and the
      refills of `last` ticks by tick `last`. */
  lemma RateBound(c: Config, calls: seq<Call>, last: nat)
    requires c.Valid() && InOrder(calls, c.start)
    ensures DueBy(c, Run(c, Full(c), calls), last) <= c.capacity + last * c.quantum
  {
    DueByBalance(c, Full(c), c.start, calls, last);
    MulMonotone(0, last, c.quantum);
  }

  /** The tokens whose wait ended in the window of ticks `first..last`. */
  function DueWithin(c: Config, grants: seq<Grant>, first: int, last: int): int
    requires c.Valid()
  {
    if grants == [] then 0 else
    (if first <= TickAt(c, grants[0].deadline) <= last then grants[0].count else 0)
    + DueWithin(c, grants[1..], first, last)
  }

  /** No take is ready to wait for longer than `m`. */
  predicate TakesWithin(calls: seq<Call>, m: int) {
    forall i :: 0 <= i < |calls| && calls[i].TakeCall? ==> calls[i].maxWait <= m
  }

  /** A take that is not ready to wait is granted at once or not at all. */
  lemma GrantedAtOnce(c: Config, s: State, call: Call)
    requires c.Valid() && c.start <= call.now && TakesWithin([call], 0)
    ensures forall g :: g in Step(c, s, call).1 ==> g.deadline == call.now
  {
    if call.TakeCall? && 0 < call.count && Take(c, s, call.now, call.count, call.maxWait).ok {
      assert [call][0] == call;
      WaitIsExact(c, s, call.now, call.count, call.maxWait);
    }
  }

  lemma DueWithinCons(c: Config, granted: seq<Grant>, run: seq<Grant>, first: int, last: int)
    requires c.Valid() && |granted| <= 1
    ensures DueWithin(c, granted + run, first, last)
         == DueWithin(c, run, first, last)
          + if granted != [] && first <= TickAt(c, granted[0].deadline) <= last then granted[0].count else 0
  {
    if granted == [] { assert granted + run == run; } else { assert (granted + run)[1..] == run; }
  }

  function WindowAllowance(c: Config, balance: int, k: int, first: int, last: int): int {
    if k < first then c.capacity + (last - first) * c.quantum else Allowance(c, balance, k, last)
  }

  lemma WindowAllowanceBound(c: Config, balance: int, k: int, first: int, last: int)
    requires c.Valid() && balance <= c.capacity && first <= last
    ensures WindowAllowance(c, balance, k, first, last) <= c.capacity + (last - first) * c.quantum
  {
    MulMonotone(0, last - first, c.quantum);
    if first <= k <= last { MulMonotone(last - k, last - first, c.quantum); }
  }

  /** Without takes that are ready to wait every window of ticks is bounded, whatever state the run begins in. */
  lemma WindowBound(c: Config, s: State, from: int, calls: seq<Call>, first: int, last: int)
    requires c.Valid() && c.start <= from && Past(c, s, from) && InOrder(calls, from)
    requires TakesWithin(calls, 0) && s.available <= c.capacity && first <= last
    ensures DueWithin(c, Run(c, s, calls), first, last) <= c.capacity + (last - first) * c.quantum
  {
    DueWithinBalance(c, s, from, calls, first, last);
    WindowAllowanceBound(c, Settled(c, s, from).available, TickAt(c, from), first, last);
  }

  lemma {:induction false} DueWithinBalance(c: Config, s: State, from: int, calls: seq<Call>, first: int, last: int)
    requires c.Valid() && c.start <= from && Past(c, s, from) && InOrder(calls, from)
    requires TakesWithin(calls, 0) && s.available <= c.capacity && first <= last
    ensures DueWithin(c, Run(c, s, calls), first, last)
         <= WindowAllowance(c, Settled(c, s, from).available, TickAt(c, from), first, last)
    decreases |calls|
  {
    if calls == [] {
      MulMonotone(0, last - first, c.quantum);
    } else {
      var call, rest := calls[0], calls[1..];
      var (s', granted) := Step(c, s, call);
      var k' := TickAt(c, call.now);
      StepSettled(c, s, from, call);
      TickMonotone(c, from, call.now);
      DueWithinBalance(c, s', call.now, rest, first, last);
      DueWithinCons(c, granted, Run(c, s', rest), first, last);
      AllowanceLater(c, Settled(c, s, from), k', last);
      WindowAllowanceBound(c, Settled(c, s, call.now).available, k', first, last);
      GrantedAtOnce(c, s, call);
      if granted != [] { AllowanceTaken(c, s, call, last); }
    }
  }

  /** The window bound for every run of a bucket that started full, when no take is ready to wait beyond `m`. */
  ghost predicate WindowsBounded(c: Config, m: int)
    requires c.Valid()
  {
    forall calls, first, last :: InOrder(calls, c.start) && TakesWithin(calls, m) && first <= last ==>
      DueWithin(c, Run(c, Full(c), calls), first, last) <= c.capacity + (last - first) * c.quantum
  }

  /** The window bound holds if and only if no take is ready to wait at all. */
  lemma WindowsBoundedIff(c: Config, m: int)
    requires c.Valid()
    ensures WindowsBounded(c, m) <==> m <= 0
  {
    if m <= 0 {
      forall calls, first, last | InOrder(calls, c.start) && TakesWithin(calls, m) && first <= last
        ensures DueWithin(c, Run(c, Full(c), calls), first, last) <= c.capacity + (last - first) * c.quantum
      {
        WindowBound(c, Full(c), c.start, calls, first, last);
      }
    } else {
      LastMomentTake(c, m);
    }
  }

  /** A take right before the first tick, for one quantum more than there is: it waits for a nanosecond, and all
      it takes falls due in one tick. */
  lemma LastMomentTake(c: Config, m: int)
    requires c.Valid() && 0 < m
    ensures !WindowsBounded(c, m)
  {
    var now, count := c.start + c.interval - 1, c.capacity + c.quantum;
    var calls := [TakeCall(now, count, m)];
    DivUnique(c.interval - 1, c.interval, 0);
    DivUnique(c.interval, c.interval, 1);
    DivUnique(c.quantum + c.quantum - 1, c.quantum, 1);
    assert TickAt(c, now) == 0 && EndTick(c, -c.quantum, 0) == 1;
    assert TimeOfTick(c, 1) == now + 1;
    var (s', granted) := Step(c, Full(c), calls[0]);
    assert granted == [Grant(count, now + 1)];
    RunCons(c, Full(c), calls[0], []);
    assert calls == [calls[0]] + [] && granted + Run(c, s', []) == granted;
    assert TickAt(c, now + 1) == 1;
    assert DueWithin(c, granted, 1, 1) == count + DueWithin(c, [], 1, 1);
    assert InOrder(calls, c.start) && TakesWithin(calls, m);
    assert DueWithin(c, Run(c, Full(c), calls), 1, 1) > c.capacity + (1 - 1) * c.quantum;
  }
}
