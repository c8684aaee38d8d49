/** The bucket object of flowcontrol/tokenbucket/limiter.go. Reading the clock is a parameter of each call. */
module BucketObject {
  import opened Arithmetic
  import TB = TokenBucket
  import RateSearch

  class Bucket {
    var startTime: int
    var capacity: int
    var quantum: int
    var fillInterval: int
    var availableTokens: int
    var latestTick: int

    ghost predicate Valid()
      reads this
    {
      Config().Valid()
    }

    ghost function Config(): TB.Config
      reads this
    {
      TB.Config(startTime, fillInterval, capacity, quantum)
    }

    ghost function State(): TB.State
      reads this
    {
      TB.State(availableTokens, latestTick)
    }

    /** The original panics unless the three numbers are positive. */
    constructor (fillInterval: int, capacity: int, quantum: int, now: int)
      requires 0 < fillInterval && 0 < capacity && 0 < quantum
      ensures Valid() && Config() == TB.Config(now, fillInterval, capacity, quantum)
      ensures State() == TB.Full(Config()) && availableTokens == capacity && latestTick == 0
    {
      this.startTime := now;
      this.latestTick := 0;
      this.fillInterval := fillInterval;
      this.capacity := capacity;
      this.quantum := quantum;
      this.availableTokens := capacity;
    }

    method CurrentTick(now: int) returns (tick: int)
      requires Valid()
      ensures tick == TB.TickAt(Config(), now)
    {
      var elapsed := now - startTime;
      tick := if elapsed >= 0 then elapsed / fillInterval else -(-elapsed / fillInterval);
    }

    method AdjustAvailableTokens(tick: int)
      requires Valid()
      modifies this`availableTokens, this`latestTick
      ensures State() == TB.Adjust(Config(), old(State()), tick)
    {
      var lastTick := latestTick;
      latestTick := tick;
      if availableTokens >= capacity {
        return;
      }
      availableTokens := availableTokens + (tick - lastTick) * quantum;
      if availableTokens > capacity {
        availableTokens := capacity;
      }
    }

    /** The internal take, with the time as an argument. */
    method TakeAt(now: int, count: int, maxWait: int) returns (wait: int, ok: bool)
      requires Valid()
      modifies this`availableTokens, this`latestTick
      ensures TB.TakeResult(State(), wait, ok) == TB.Take(Config(), old(State()), now, count, maxWait)
      ensures count <= 0 ==> ok && wait == 0 && State() == old(State())
      ensures !ok ==> wait == 0 && State() == TB.Settled(Config(), old(State()), now)
      ensures 0 < wait ==> ok && wait <= maxWait
    {
      TB.TakeAllOrNothing(Config(), State(), now, count, maxWait);
      if count <= 0 {
        return 0, true;
      }
      var tick := CurrentTick(now);
      AdjustAvailableTokens(tick);
      var avail := availableTokens - count;
      if avail >= 0 {
        availableTokens := avail;
        return 0, true;
      }
      var endTick := tick + (-avail + quantum - 1) / quantum;
      var endTime := startTime + endTick * fillInterval;
      var waitTime := endTime - now;
      if waitTime > maxWait {
        return 0, false;
      }
      availableTokens := avail;
      return waitTime, true;
    }

    /** Commits to the tokens and says how long to wait for them. */
    method Take(now: int, count: int) returns (wait: int)
      requires Valid()
      modifies this`availableTokens, this`latestTick
      ensures var r := TB.Take(Config(), old(State()), now, count, 0x7fff_ffff_ffff_ffff);
              State() == r.state && wait == r.wait
    {
      var ok;
      wait, ok := TakeAt(now, count, TB.INFINITY_DURATION);
    }

    method TakeMaxDuration(now: int, count: int, maxWait: int) returns (wait: int, ok: bool)
      requires Valid()
      modifies this`availableTokens, this`latestTick
      ensures TB.TakeResult(State(), wait, ok) == TB.Take(Config(), old(State()), now, count, maxWait)
      ensures count <= 0 ==> ok && wait == 0 && State() == old(State())
      ensures !ok ==> wait == 0 && State() == TB.Settled(Config(), old(State()), now)
      ensures 0 < wait ==> ok && wait <= maxWait
    {
      wait, ok := TakeAt(now, count, maxWait);
    }

    method TakeAvailable(now: int, count: int) returns (taken: int)
      requires Valid()
      modifies this`availableTokens, this`latestTick
      ensures (State(), taken) == TB.TakeAvailable(Config(), old(State()), now, count)
      ensures taken == if count <= 0 || TB.Settled(Config(), old(State()), now).available <= 0 then 0
                       else Min(count, TB.Settled(Config(), old(State()), now).available)
    {
      TB.TakeAvailableGetsMost(Config(), State(), now, count);
      if count <= 0 {
        return 0;
      }
      var tick := CurrentTick(now);
      AdjustAvailableTokens(tick);
      if availableTokens <= 0 {
        return 0;
      }
      taken := count;
      if taken > availableTokens {
        taken := availableTokens;
      }
      availableTokens := availableTokens - taken;
    }

    method TakeOneAvailable(now: int) returns (ok: bool)
      requires Valid()
      modifies this`availableTokens, this`latestTick
      ensures (State(), if ok then 1 else 0) == TB.TakeAvailable(Config(), old(State()), now, 1)
      ensures ok <==> 0 < TB.Settled(Config(), old(State()), now).available
    {
      var taken := TakeAvailable(now, 1);
      ok := taken == 1;
    }

    method Available(now: int) returns (available: int)
      requires Valid()
      modifies this`availableTokens, this`latestTick
      ensures State() == TB.Adjust(Config(), old(State()), TB.TickAt(Config(), now))
      ensures available == State().available
    {
      var tick := CurrentTick(now);
      AdjustAvailableTokens(tick);
      available := availableTokens;
    }

    /** `wild` is what the machine makes of a float that is no 64-bit integer. */
    method SetRate(rate: real, wild: int) returns (ok: bool)
      requires Valid()
      modifies this`fillInterval, this`quantum
      ensures RateSearch.Outcome(ok, fillInterval, quantum)
           == RateSearch.Search(rate, wild, 1, old(fillInterval), old(quantum))
      ensures Valid()
    {
      var q := 1;
      while q < RateSearch.QUANTUM_LIMIT
        invariant 0 < q && Valid()
        invariant RateSearch.Search(rate, wild, q, fillInterval, quantum)
               == RateSearch.Search(rate, wild, 1, old(fillInterval), old(quantum))
        decreases RateSearch.QUANTUM_LIMIT - q
      {
        var interval := RateSearch.Candidate(rate, wild, q);
        if interval > 0 {
          fillInterval := interval;
          quantum := q;
          if RateSearch.Accepted(rate, quantum, fillInterval) {
            return true;
          }
        }
        q := RateSearch.NextQuantum(q);
      }
      return false;
    }
  }

  /** One call on a bucket object, and the grant it makes. */
  method ServeCall(bucket: Bucket, call: TB.Call) returns (granted: seq<TB.Grant>)
    requires bucket.Valid()
    modifies bucket`availableTokens, bucket`latestTick
    ensures (bucket.State(), granted) == TB.Step(bucket.Config(), old(bucket.State()), call)
  {
    granted := [];
    match call
    case TakeCall(now, count, maxWait) =>
      var wait, ok := bucket.TakeMaxDuration(now, count, maxWait);
      if count > 0 && ok { granted := [TB.Grant(count, now + wait)]; }
    case TakeAvailableCall(now, count) =>
      var taken := bucket.TakeAvailable(now, count);
      if taken > 0 { granted := [TB.Grant(taken, now)]; }
    case AvailableCall(_, readAt) =>
      var _ := bucket.Available(readAt);
  }

  /** A run of calls on a bucket object makes the grants of `Run`, to which the theorems apply. */
  method Serve(bucket: Bucket, calls: seq<TB.Call>) returns (grants: seq<TB.Grant>)
    requires bucket.Valid()
    modifies bucket`availableTokens, bucket`latestTick
    ensures grants == TB.Run(bucket.Config(), old(bucket.State()), calls)
  {
    grants := [];
    for i := 0 to |calls|
      invariant bucket.Valid()
      invariant grants + TB.Run(bucket.Config(), bucket.State(), calls[i..])
             == TB.Run(bucket.Config(), old(bucket.State()), calls)
    {
      assert calls[i..] == [calls[i]] + calls[i + 1..];
      TB.RunCons(bucket.Config(), bucket.State(), calls[i], calls[i + 1..]);
      var granted := ServeCall(bucket, calls[i]);
      grants := grants + granted;
    }
  }
}
