/** The search for a quantum in `SetRate` of flowcontrol/tokenbucket/limiter.go, in exact arithmetic. */
module RateSearch {
  import opened Arithmetic

  const QUANTUM_LIMIT: int := 0x4_0000_0000_0000
  const NANOS_PER_SECOND: real := 1000000000.0
  const RATE_MARGIN: real := 0.01

  function NextQuantum(q: int): int
    requires 0 < q
  {
    var q1 := q * 11 / 10;
    if q1 == q then q1 + 1 else q1
  }

  /** The sequence of quanta grows by a tenth, rounded down, or by one if that is nothing, and so at most doubles;
      below 2^50 its product with eleven is still a 64-bit integer. */
  lemma NextQuantumGrows(q: int)
    requires 0 < q < 0x4_0000_0000_0000
    ensures q < NextQuantum(q) <= 2 * q && q * 11 < 0x8000_0000_0000_0000
    ensures if q < 10 then NextQuantum(q) == q + 1 else 10 * NextQuantum(q) <= 11 * q < 10 * NextQuantum(q) + 10
  {
  }

  /** Conversion of a float to a 64-bit duration: it truncates toward zero. What it gives for a number out of
      range depends on the machine, and is the parameter `wild`. */
  function ToDuration(x: real, wild: int): int {
    if -(INT64_LIMIT as real) - 1.0 < x < INT64_LIMIT as real then
      if x >= 0.0 then x.Floor else -((-x).Floor)
    else
      wild
  }

  /** The exact fill interval, in nanoseconds, that gives `rate` with quantum `q`. */
  function ExactInterval(rate: real, q: int): real
    requires rate != 0.0
  {
    NANOS_PER_SECOND * (q as real) / rate
  }

  /** The fill interval that is tried with quantum `q`. A rate of zero asks for an infinite one. */
  function Candidate(rate: real, wild: int, q: int): int {
    if rate == 0.0 then wild else ToDuration(ExactInterval(rate, q), wild)
  }

  function Rate(q: int, interval: int): real
    requires interval != 0
  {
    NANOS_PER_SECOND * (q as real) / (interval as real)
  }

  function Abs(x: real): real {
    if x < 0.0 then -x else x
  }

  /** Nothing is within a margin of a rate of zero. */
  predicate Accepted(rate: real, q: int, interval: int)
    requires interval != 0
  {
    rate != 0.0 && Abs(Rate(q, interval) - rate) / rate <= RATE_MARGIN
  }

  /** Whether the search succeeded, and the two fields it leaves behind either way. */
  datatype Outcome = Outcome(ok: bool, interval: int, quantum: int)

  /** The rest of the search from candidate `q` on, with the fields as they are when it gets there. */
  function Search(rate: real, wild: int, q: int, interval: int, quantum: int): Outcome
    requires 0 < q
    decreases QUANTUM_LIMIT - q
  {
    if q >= QUANTUM_LIMIT then
      Outcome(false, interval, quantum)
    else
      var candidate := Candidate(rate, wild, q);
      if candidate <= 0 then
        Search(rate, wild, NextQuantum(q), interval, quantum)
      else if Accepted(rate, q, candidate) then
        Outcome(true, candidate, q)
      else
        Search(rate, wild, NextQuantum(q), candidate, q)
  }

  // ---------- Arithmetic ----------

  lemma RealMulOrder(a: real, b: real, c: real)
    requires 0.0 < c
    ensures a * c <= b * c <==> a <= b
    ensures a * c < b * c <==> a < b
  {
  }

  /** `a / b` against `c`, told by the product. */
  lemma QuotientOrder(a: real, b: real, c: real)
    requires 0.0 < b
    ensures a / b <= c <==> a <= c * b
    ensures a / b < c <==> a < c * b
    ensures a / b >= c <==> a >= c * b
  {
    assert a / b * b == a;
    RealMulOrder(a / b, c, b);
  }

  /** A positive interval of at least the exact one rounded down is accepted exactly when the exact one is
      within a hundredth of it. */
  lemma AcceptedIff(rate: real, q: int, n: int)
    requires 0.0 < rate && 0 < q && 0 < n
    requires n as real <= ExactInterval(rate, q)
    ensures rate <= Rate(q, n)
    ensures Accepted(rate, q, n) <==> Rate(q, n) <= 1.01 * rate
    ensures Accepted(rate, q, n) <==> ExactInterval(rate, q) <= 1.01 * (n as real)
  {
    var p, m := NANOS_PER_SECOND * (q as real), n as real;
    QuotientOrder(p, rate, m);
    QuotientOrder(p, m, rate);
    assert rate * m == m * rate;
    QuotientOrder(p / m - rate, rate, RATE_MARGIN);
    QuotientOrder(p, m, 1.01 * rate);
    QuotientOrder(p, rate, 1.01 * m);
    assert 1.01 * rate * m == 1.01 * m * rate;
  }

  /** With an exact interval of a hundred nanoseconds or more, rounding down costs at most one percent. */
  lemma AcceptedWhenLong(rate: real, q: int)
    requires 0.0 < rate && 0 < q && 100.0 <= ExactInterval(rate, q)
    ensures Accepted(rate, q, ExactInterval(rate, q).Floor)
  {
    var x := ExactInterval(rate, q);
    AcceptedIff(rate, q, x.Floor);
  }

  lemma IntervalScales(rate: real, q: int, r: int)
    requires 0.0 < rate && 0 < q <= r
    ensures 0.0 < ExactInterval(rate, q) <= ExactInterval(rate, r)
    ensures r <= 2 * q ==> ExactInterval(rate, r) <= 2.0 * ExactInterval(rate, q)
  {
    var x, y := ExactInterval(rate, q), ExactInterval(rate, r);
    var p, s := NANOS_PER_SECOND * (q as real), NANOS_PER_SECOND * (r as real);
    assert x * rate == p && y * rate == s;
    RealMulOrder(0.0, x, rate);
    RealMulOrder(x, y, rate);
    if r <= 2 * q {
      assert 2.0 * x * rate == 2.0 * (x * rate);
      assert s <= 2.0 * p;
      RealMulOrder(y, 2.0 * x, rate);
    }
  }

  // ---------- Results ----------

  /** What a successful search installs is within the margin, and never slower than what was asked for. */
  ghost predicate Accurate(rate: real, o: Outcome) {
    0 < o.quantum < 0x4_0000_0000_0000 && 0 < o.interval < 0x8000_0000_0000_0000
    && rate <= Rate(o.quantum, o.interval) <= 1.01 * rate
  }

  /** The rate can be told as an interval for a quantum of one token. */
  predicate InRange(rate: real) {
    0.0 < rate && 1000000000.0 / rate < 0x8000_0000_0000_0000 as real
  }

  /** Every rate above a token in 2^63 nanoseconds: a success is accurate, and there is one unless the rate
      exceeds 10^7 times ten elevenths of 2^50. */
  lemma SearchIsAccurate(rate: real, wild: int, interval: int, quantum: int)
    requires InRange(rate)
    ensures var o := Search(rate, wild, 1, interval, quantum);
            (o.ok ==> Accurate(rate, o))
            && (11.0 * rate <= 100000000.0 * (0x4_0000_0000_0000 as real) ==> o.ok)
  {
    SearchFrom(rate, wild, 1, interval, quantum);
  }

  lemma {:induction false} SearchFrom(rate: real, wild: int, q: int, interval: int, quantum: int)
    requires 0.0 < rate && 0 < q && ExactInterval(rate, q) < INT64_LIMIT as real
    requires q >= QUANTUM_LIMIT ==> 100000000.0 * (QUANTUM_LIMIT as real) < 11.0 * rate
    ensures var o := Search(rate, wild, q, interval, quantum);
            (o.ok ==> Accurate(rate, o))
            && (11.0 * rate <= 100000000.0 * (QUANTUM_LIMIT as real) ==> o.ok)
    decreases QUANTUM_LIMIT - q
  {
    if q < QUANTUM_LIMIT {
      var x := ExactInterval(rate, q);
      var n, r := ToDuration(x, wild), NextQuantum(q);
      IntervalScales(rate, q, q);
      NextQuantumGrows(q);
      if 0 < n { AcceptedIff(rate, q, n); }
      if n <= 0 || !Accepted(rate, q, n) {
        if 100.0 <= x { AcceptedWhenLong(rate, q); }
        IntervalScales(rate, q, r);
        if r >= QUANTUM_LIMIT { ShortIntervalMeansFast(rate, q); }
        SearchFrom(rate, wild, r, if n <= 0 then interval else n, if n <= 0 then quantum else q);
      }
    }
  }

  lemma ShortIntervalMeansFast(rate: real, q: int)
    requires 0.0 < rate && 0 < q && ExactInterval(rate, q) < 100.0
    ensures 10000000.0 * (q as real) < rate
  {
    QuotientOrder(NANOS_PER_SECOND * (q as real), rate, 100.0);
  }

  /** At most one nanotoken in 2^63 nanoseconds cannot be told as an interval; on a machine whose conversion
      gives no positive number then, the search fails and leaves the bucket as it was. */
  lemma {:induction false} TooSlowFails(rate: real, wild: int, q: int, interval: int, quantum: int)
    requires 0.0 < rate && 0 < q && wild <= 0 && INT64_LIMIT as real <= ExactInterval(rate, q)
    ensures Search(rate, wild, q, interval, quantum) == Outcome(false, interval, quantum)
    decreases QUANTUM_LIMIT - q
  {
    if q < QUANTUM_LIMIT {
      NextQuantumGrows(q);
      IntervalScales(rate, q, NextQuantum(q));
      TooSlowFails(rate, wild, NextQuantum(q), interval, quantum);
    }
  }

  /** A rate of 2^50 tokens per nanosecond or more fails too. */
  lemma {:induction false} TooFastFails(rate: real, wild: int, q: int, interval: int, quantum: int)
    requires 1000000000.0 * (0x4_0000_0000_0000 as real) <= rate && 0 < q
    ensures Search(rate, wild, q, interval, quantum) == Outcome(false, interval, quantum)
    decreases QUANTUM_LIMIT - q
  {
    if q < QUANTUM_LIMIT {
      NextQuantumGrows(q);
      BelowOne(rate, q);
      TooFastFails(rate, wild, NextQuantum(q), interval, quantum);
    }
  }

  lemma BelowOne(rate: real, q: int)
    requires 0.0 < rate && 0 < q && NANOS_PER_SECOND * (q as real) < rate
    ensures 0.0 < ExactInterval(rate, q) < 1.0
  {
    IntervalScales(rate, q, q);
    QuotientOrder(NANOS_PER_SECOND * (q as real), rate, 1.0);
  }

  lemma NegativeInterval(rate: real, q: int)
    requires rate < 0.0 && 0 < q
    ensures ExactInterval(rate, q) < 0.0
  {
    assert ExactInterval(rate, q) * rate == NANOS_PER_SECOND * (q as real);
  }

  /** `last` is a quantum that the search from `q` on comes to try, if nothing is accepted before. */
  predicate Tried(q: int, last: int)
    requires 0 < q
    decreases last - q
  {
    q == last || (q < last && Tried(NextQuantum(q), last))
  }

  lemma {:induction false} LastQuantum(q: int) returns (last: int)
    requires 0 < q < QUANTUM_LIMIT
    ensures q <= last < QUANTUM_LIMIT <= NextQuantum(last) && Tried(q, last)
    decreases QUANTUM_LIMIT - q
  {
    NextQuantumGrows(q);
    last := q;
    if NextQuantum(q) < QUANTUM_LIMIT {
      last := LastQuantum(NextQuantum(q));
    }
  }

  /** From some quantum on the interval of a negative rate is below the 64-bit numbers. */
  predicate BelowInt64(rate: real, q: int)
    requires rate != 0.0
  {
    ExactInterval(rate, q) <= -(INT64_LIMIT as real) - 1.0
  }

  lemma BelowStays(rate: real, q: int, r: int)
    requires rate < 0.0 && 0 < q <= r && BelowInt64(rate, q)
    ensures BelowInt64(rate, r)
  {
    var p, s := NANOS_PER_SECOND * (q as real), NANOS_PER_SECOND * (r as real);
    assert p / rate * rate == p && s / rate * rate == s;
    RealMulOrder(s / rate, p / rate, -rate);
    assert s / rate * -rate == -s && p / rate * -rate == -p;
  }

  /** Any positive interval is accepted for a negative rate. */
  lemma NegativeAccepts(rate: real, q: int, n: int)
    requires rate < 0.0 && n != 0
    ensures Accepted(rate, q, n)
  {
    var d := Abs(Rate(q, n) - rate);
    assert d / rate * rate == d;
    RealMulOrder(0.0, d / rate, -rate);
    assert d / rate * -rate == -d;
  }

  lemma {:induction false} NegativeFrom(rate: real, wild: int, q: int, last: int, interval: int, quantum: int)
    requires rate < 0.0 && 0 < q && Tried(q, last) && last < QUANTUM_LIMIT <= NextQuantum(last)
    ensures var o := Search(rate, wild, q, interval, quantum);
            (o.ok <==> 0 < wild && BelowInt64(rate, last)) && (!o.ok ==> o == Outcome(false, interval, quantum))
    decreases QUANTUM_LIMIT - q
  {
    NextQuantumGrows(q);
    NegativeInterval(rate, q);
    TriedGrows(q, last);
    if BelowInt64(rate, q) {
      BelowStays(rate, q, last);
      if wild > 0 { NegativeAccepts(rate, q, wild); }
    }
    if q < last { NegativeFrom(rate, wild, NextQuantum(q), last, interval, quantum); }
  }

  /** A negative rate fails and leaves the bucket as it was, unless its interval with the last quantum is no 64-bit
      number and the conversion makes a positive one of it, which then is taken. */
  lemma NegativeIff(rate: real, wild: int, interval: int, quantum: int) returns (last: int)
    requires rate < 0.0
    ensures Tried(1, last) && last < QUANTUM_LIMIT <= NextQuantum(last)
    ensures var o := Search(rate, wild, 1, interval, quantum);
            (o.ok <==> 0 < wild && BelowInt64(rate, last)) && (!o.ok ==> o == Outcome(false, interval, quantum))
  {
    last := LastQuantum(1);
    NegativeFrom(rate, wild, 1, last, interval, quantum);
  }

  lemma LongEnoughIff(rate: real, q: int)
    requires 0.0 < rate && 0 < q
    ensures 0.0 < ExactInterval(rate, q)
    ensures rate <= NANOS_PER_SECOND * (q as real) <==> 1 <= ExactInterval(rate, q).Floor
  {
    IntervalScales(rate, q, q);
    QuotientOrder(NANOS_PER_SECOND * (q as real), rate, 1.0);
  }

  /** The fields that a failed search for a rate in range leaves. */
  function LeftBy(rate: real, last: int, interval: int, quantum: int): Outcome
    requires 0.0 < rate
  {
    if rate > NANOS_PER_SECOND * (last as real) then Outcome(false, interval, quantum)
    else Outcome(false, ExactInterval(rate, last).Floor, last)
  }

  /** A candidate that is not accepted has a short interval, so that the next one is in range as well. */
  lemma NextInRange(rate: real, wild: int, q: int)
    requires 0.0 < rate && 0 < q < QUANTUM_LIMIT && ExactInterval(rate, q) < INT64_LIMIT as real
    requires var n := ExactInterval(rate, q).Floor; n <= 0 || !Accepted(rate, q, n)
    ensures Candidate(rate, wild, q) == ExactInterval(rate, q).Floor
    ensures ExactInterval(rate, NextQuantum(q)) < INT64_LIMIT as real
  {
    NextQuantumGrows(q);
    if 100.0 <= ExactInterval(rate, q) { AcceptedWhenLong(rate, q); }
    IntervalScales(rate, q, NextQuantum(q));
  }

  lemma {:induction false} FailureFrom(rate: real, wild: int, q: int, last: int, interval: int, quantum: int)
    requires 0.0 < rate && 0 < q && ExactInterval(rate, q) < INT64_LIMIT as real
    requires Tried(q, last) && last < QUANTUM_LIMIT <= NextQuantum(last)
    requires !Search(rate, wild, q, interval, quantum).ok
    ensures Search(rate, wild, q, interval, quantum) == LeftBy(rate, last, interval, quantum)
    decreases QUANTUM_LIMIT - q
  {
    LongEnoughIff(rate, q);
    NextQuantumGrows(q);
    var n := ExactInterval(rate, q).Floor;
    assert Candidate(rate, wild, q) == n;
    NextInRange(rate, wild, q);
    if q < last {
      FailureFrom(rate, wild, NextQuantum(q), last, if n <= 0 then interval else n, if n <= 0 then quantum else q);
      if rate > NANOS_PER_SECOND * (last as real) { FasterThan(rate, q, last); }
    }
  }

  lemma FasterThan(rate: real, q: int, last: int)
    requires q <= last && rate > NANOS_PER_SECOND * (last as real)
    ensures rate > NANOS_PER_SECOND * (q as real)
  {
  }

  lemma {:induction false} ZeroFrom(wild: int, q: int, last: int, interval: int, quantum: int)
    requires 0 < q && Tried(q, last) && last < QUANTUM_LIMIT <= NextQuantum(last)
    ensures Search(0.0, wild, q, interval, quantum)
         == if wild <= 0 then Outcome(false, interval, quantum) else Outcome(false, wild, last)
    decreases QUANTUM_LIMIT - q
  {
    NextQuantumGrows(q);
    if q < last {
      ZeroFrom(wild, NextQuantum(q), last, if wild <= 0 then interval else wild, if wild <= 0 then quantum else q);
    }
  }

  /** A rate that is too slow for a 64-bit interval stays so, and only the conversion gives candidates. */
  lemma {:induction false} TooSlowFrom(rate: real, wild: int, q: int, last: int, interval: int, quantum: int)
    requires 0.0 < rate && 0 < q && INT64_LIMIT as real <= ExactInterval(rate, q)
    requires Tried(q, last) && last < QUANTUM_LIMIT <= NextQuantum(last)
    ensures var o := Search(rate, wild, q, interval, quantum);
            !o.ok ==> o == if wild <= 0 then Outcome(false, interval, quantum) else Outcome(false, wild, last)
    decreases QUANTUM_LIMIT - q
  {
    NextQuantumGrows(q);
    if q < last {
      IntervalScales(rate, q, NextQuantum(q));
      TooSlowFrom(rate, wild, NextQuantum(q), last, if wild <= 0 then interval else wild,
                  if wild <= 0 then quantum else q);
    }
  }

  /** What a search that fails leaves behind, for every rate: the fields as they were if the rate is negative, exceeds
      10^9 times the last quantum, or is zero or too slow and the conversion gives nothing positive; otherwise the
      last quantum with its interval. */
  lemma FailureLeaves(rate: real, wild: int, interval: int, quantum: int) returns (last: int)
    ensures Tried(1, last) && last < QUANTUM_LIMIT <= NextQuantum(last)
    ensures var o := Search(rate, wild, 1, interval, quantum);
            !o.ok ==>
              o == if InRange(rate) then LeftBy(rate, last, interval, quantum)
                   else if rate < 0.0 || wild <= 0 then Outcome(false, interval, quantum)
                   else Outcome(false, wild, last)
    ensures InRange(rate) && rate <= NANOS_PER_SECOND * (last as real) ==> 1 <= ExactInterval(rate, last).Floor
  {
    last := LastQuantum(1);
    if InRange(rate) {
      if !Search(rate, wild, 1, interval, quantum).ok { FailureFrom(rate, wild, 1, last, interval, quantum); }
      LongEnoughIff(rate, last);
    } else if rate == 0.0 {
      ZeroFrom(wild, 1, last, interval, quantum);
    } else if rate < 0.0 {
      NegativeFrom(rate, wild, 1, last, interval, quantum);
    } else {
      TooSlowFrom(rate, wild, 1, last, interval, quantum);
    }
  }

  /** An interval that rounding down shortens by at most a hundredth of what is left. */
  predicate RoundsWell(x: real) {
    1 <= x.Floor && x <= 1.01 * (x.Floor as real)
  }

  /** A quantum of the search whose interval rounds well. */
  predicate Fits(rate: real, q: int)
    requires rate != 0.0
  {
    q < QUANTUM_LIMIT && RoundsWell(ExactInterval(rate, q))
  }

  ghost predicate SomeFits(rate: real, q: int)
    requires rate != 0.0 && 0 < q
  {
    exists p :: Tried(q, p) && Fits(rate, p)
  }

  lemma SomeFitsStep(rate: real, q: int)
    requires rate != 0.0 && 0 < q < QUANTUM_LIMIT
    ensures SomeFits(rate, q) <==> Fits(rate, q) || SomeFits(rate, NextQuantum(q))
  {
    NextQuantumGrows(q);
    if Fits(rate, q) { assert Tried(q, q); }
    if p :| Tried(NextQuantum(q), p) && Fits(rate, p) {
      TriedGrows(NextQuantum(q), p);
      assert Tried(q, p);
    }
  }

  lemma NoneFits(rate: real, q: int)
    requires rate != 0.0 && QUANTUM_LIMIT <= q
    ensures !SomeFits(rate, q)
  {
    forall p | Tried(q, p) ensures QUANTUM_LIMIT <= p {
      TriedGrows(q, p);
    }
  }

  lemma {:induction false} SucceedsFrom(rate: real, wild: int, q: int, interval: int, quantum: int)
    requires 0.0 < rate && 0 < q && ExactInterval(rate, q) < INT64_LIMIT as real
    ensures Search(rate, wild, q, interval, quantum).ok <==> SomeFits(rate, q)
    decreases QUANTUM_LIMIT - q
  {
    if q < QUANTUM_LIMIT {
      var n := ExactInterval(rate, q).Floor;
      LongEnoughIff(rate, q);
      NextQuantumGrows(q);
      SomeFitsStep(rate, q);
      assert Candidate(rate, wild, q) == n;
      if 1 <= n { AcceptedIff(rate, q, n); }
      if n <= 0 || !Accepted(rate, q, n) {
        NextInRange(rate, wild, q);
        SucceedsFrom(rate, wild, NextQuantum(q), if n <= 0 then interval else n, if n <= 0 then quantum else q);
      }
    } else {
      NoneFits(rate, q);
    }
  }

  /** The search for a rate in range succeeds if and only if some quantum it can try has an interval that can be
      rounded down. */
  lemma SucceedsIff(rate: real, wild: int, interval: int, quantum: int)
    requires InRange(rate)
    ensures Search(rate, wild, 1, interval, quantum).ok <==>
            exists q :: Tried(1, q) && q < 0x4_0000_0000_0000 && RoundsWell(ExactInterval(rate, q))
  {
    SucceedsFrom(rate, wild, 1, interval, quantum);
  }

  /** `first` is the first quantum from `q` on whose interval can be rounded down. */
  ghost predicate FirstFit(rate: real, q: int, first: int)
    requires rate != 0.0 && 0 < q
  {
    Tried(q, first) && Fits(rate, first) && forall p :: Tried(q, p) && p < first ==> !Fits(rate, p)
  }

  lemma FirstFitHere(rate: real, q: int)
    requires rate != 0.0 && 0 < q && Fits(rate, q)
    ensures FirstFit(rate, q, q)
  {
    forall p | Tried(q, p) ensures q <= p { TriedGrows(q, p); }
  }

  lemma FirstFitLater(rate: real, q: int, first: int)
    requires rate != 0.0 && 0 < q < QUANTUM_LIMIT && !Fits(rate, q) && FirstFit(rate, NextQuantum(q), first)
    ensures FirstFit(rate, q, first)
  {
    NextQuantumGrows(q);
    TriedGrows(NextQuantum(q), first);
  }

  lemma {:induction false} FirstFrom(rate: real, wild: int, q: int, interval: int, quantum: int)
    requires 0.0 < rate && 0 < q && ExactInterval(rate, q) < INT64_LIMIT as real
    requires Search(rate, wild, q, interval, quantum).ok
    ensures var o := Search(rate, wild, q, interval, quantum);
            0 < o.quantum && FirstFit(rate, q, o.quantum) && o.interval == ExactInterval(rate, o.quantum).Floor
    decreases QUANTUM_LIMIT - q
  {
    var n := ExactInterval(rate, q).Floor;
    LongEnoughIff(rate, q);
    NextQuantumGrows(q);
    assert Candidate(rate, wild, q) == n;
    if 1 <= n { AcceptedIff(rate, q, n); }
    if n <= 0 || !Accepted(rate, q, n) {
      NextInRange(rate, wild, q);
      FirstFrom(rate, wild, NextQuantum(q), if n <= 0 then interval else n, if n <= 0 then quantum else q);
      FirstFitLater(rate, q, Search(rate, wild, q, interval, quantum).quantum);
    } else {
      FirstFitHere(rate, q);
    }
  }

  /** A search that succeeds for a rate in range installs the first quantum it can try whose interval can be rounded
      down, and that interval. */
  lemma FirstIsInstalled(rate: real, wild: int, interval: int, quantum: int)
    requires InRange(rate) && Search(rate, wild, 1, interval, quantum).ok
    ensures var o := Search(rate, wild, 1, interval, quantum);
            FirstFit(rate, 1, o.quantum) && o.interval == ExactInterval(rate, o.quantum).Floor
  {
    FirstFrom(rate, wild, 1, interval, quantum);
  }

  /** The search does fail for rates in range: the exact interval of the last quantum is 1.04 nanoseconds here, and
      that is what it leaves in the bucket, rounded down. */
  lemma FailureInstalls(wild: int, interval: int, quantum: int) returns (rate: real, last: int)
    ensures InRange(rate) && 0x4_0000_0000_0000 <= 2 * last
    ensures Search(rate, wild, 1, interval, quantum) == Outcome(false, 1, last)
  {
    last := LastQuantum(1);
    NextQuantumGrows(last);
    var p := NANOS_PER_SECOND * (last as real);
    rate := p / 1.04;
    assert rate * 1.04 == p;
    assert ExactInterval(rate, last) == 1.04 by { QuotientOrder(p, rate, 1.04); }
    QuotientOrder(NANOS_PER_SECOND, rate, 2.0);
    forall q | Tried(1, q) && q < QUANTUM_LIMIT ensures !RoundsWell(ExactInterval(rate, q)) {
      TriedBelow(1, q, last);
      if q < last { BelowOne(rate, q); }
    }
    SucceedsIff(rate, wild, interval, quantum);
    LongEnoughIff(rate, last);
    FailureFrom(rate, wild, 1, last, interval, quantum);
  }

  /** Every quantum of the search but the last is at most ten elevenths of the last, up to rounding. */
  lemma {:induction false} TriedBelow(q: int, p: int, last: int)
    requires 0 < q && Tried(q, p) && Tried(q, last) && p < QUANTUM_LIMIT <= NextQuantum(last) && last < QUANTUM_LIMIT
    ensures p <= last && (p < last ==> 11 * p <= 10 * last + 10)
    decreases QUANTUM_LIMIT - q
  {
    NextQuantumGrows(q);
    if q < p && q < last {
      TriedBelow(NextQuantum(q), p, last);
    } else if q < last {
      TriedGrows(NextQuantum(q), last);
    }
  }

  lemma {:induction false} TriedGrows(q: int, last: int)
    requires 0 < q && Tried(q, last)
    ensures q <= last
  {
  }
}
