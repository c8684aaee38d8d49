/** The registry of rate limiters by request key in http/middleware/flowlimit/flowlimit.go. A request looks its
    key up under one lock and adds a limiter under another, so requests interleave between the two. */
module LimiterRegistry {
  import opened Options

  /** `limiters` maps keys to the numbers of their limiters and `pending` has the key of every request that
      found none and has not added one yet. `created` counts limiters; `duplicates` those that were added
      although their key had one. */
  datatype Snapshot = Snapshot(limiters: map<string, nat>, count: int, maxSize: int,
                         pending: map<nat, string>, created: nat, duplicates: nat)

  /** A step of one request, or a change of the size limit. Which limiters count as expired is arbitrary. */
  datatype Step =
    | LookUp(request: nat, id: string)
    | Add(request: nat, expired: set<string>)
    | SetMaxSize(max: int)

  function Initial(maxSize: int): Snapshot {
    Snapshot(map[], 0, maxSize, map[], 0, 0)
  }

  /** The eviction, which only happens when the count has come to the limit. */
  function Evict(s: Snapshot, expired: set<string>): Snapshot {
    if s.count >= s.maxSize then
      s.(limiters := s.limiters - expired, count := s.count - |s.limiters.Keys * expired|)
    else
      s
  }

  function Insert(s: Snapshot, id: string): Snapshot {
    s.(limiters := s.limiters[id := s.created], count := s.count + 1, created := s.created + 1,
       duplicates := s.duplicates + if id in s.limiters then 1 else 0)
  }

  function Apply(s: Snapshot, step: Step): Snapshot {
    match step
    case LookUp(request, id) =>
      if request in s.pending || id in s.limiters then s else s.(pending := s.pending[request := id])
    case Add(request, expired) =>
      if request !in s.pending then s
      else Insert(Evict(s, expired), s.pending[request]).(pending := s.pending - {request})
    case SetMaxSize(max) => s.(maxSize := max)
  }

  function Run(s: Snapshot, steps: seq<Step>): Snapshot
    decreases |steps|
  {
    if steps == [] then s else Run(Apply(s, steps[0]), steps[1..])
  }

  // ---------- Conservation ----------

  ghost predicate Balanced(s: Snapshot) {
    s.count == |s.limiters| + s.duplicates
  }

  lemma InsertSize(m: map<string, nat>, k: string, v: nat)
    ensures |m[k := v]| == |m| + if k in m then 0 else 1
  {
    assert m[k := v].Keys == m.Keys + {k};
  }

  lemma RemoveSize(m: map<string, nat>, gone: set<string>)
    ensures |m - gone| == |m| - |m.Keys * gone|
  {
    assert (m - gone).Keys == m.Keys - gone;
    assert m.Keys == (m.Keys - gone) + (m.Keys * gone);
  }

  lemma ApplyBalanced(s: Snapshot, step: Step)
    requires Balanced(s)
    ensures Balanced(Apply(s, step)) && s.duplicates <= Apply(s, step).duplicates
  {
    if step.Add? && step.request in s.pending {
      var evicted := Evict(s, step.expired);
      RemoveSize(s.limiters, step.expired);
      InsertSize(evicted.limiters, s.pending[step.request], evicted.created);
    }
  }

  /** Over every interleaving of any number of requests the count is the number of limiters in the map and the
      number of limiters that replaced another one; so it never falls behind, and what it is ahead stays. */
  lemma {:induction false} CountConserved(s: Snapshot, steps: seq<Step>)
    requires Balanced(s)
    ensures Balanced(Run(s, steps)) && s.duplicates <= Run(s, steps).duplicates
    decreases |steps|
  {
    if steps != [] {
      ApplyBalanced(s, steps[0]);
      CountConserved(Apply(s, steps[0]), steps[1..]);
    }
  }

  /** A run that starts empty: the count is exact if and only if no add replaced a limiter. */
  lemma CountExactIff(maxSize: int, steps: seq<Step>)
    ensures var s := Run(Initial(maxSize), steps);
            |s.limiters| <= s.count && (s.count == |s.limiters| <==> s.duplicates == 0)
  {
    CountConserved(Initial(maxSize), steps);
  }

  /** What an add leaves: the new limiter beside all others, or beside those that have not expired if and only if the
      count had come to the limit. */
  lemma AddEvictsIff(s: Snapshot, request: nat, expired: set<string>)
    requires request in s.pending
    ensures var id, s' := s.pending[request], Apply(s, Add(request, expired));
            s'.limiters == (if s.count >= s.maxSize then s.limiters - expired else s.limiters)[id := s.created]
            && s'.count == s.count + 1 - (if s.count >= s.maxSize then |s.limiters.Keys * expired| else 0)
            && s'.maxSize == s.maxSize && s'.created == s.created + 1 && s'.pending == s.pending - {request}
  {
  }

  lemma KeysAfter(m: map<string, nat>, gone: set<string>, k: string, v: nat)
    ensures m[k := v].Keys == m.Keys + {k} && (m - gone)[k := v].Keys == m.Keys - gone + {k}
  {
  }

  /** Told on the keys. */
  lemma AddKeys(s: Snapshot, request: nat, expired: set<string>)
    requires request in s.pending
    ensures var id, keys := s.pending[request], Apply(s, Add(request, expired)).limiters.Keys;
            if s.count >= s.maxSize then keys == s.limiters.Keys - expired + {id} else keys == s.limiters.Keys + {id}
  {
    AddEvictsIff(s, request, expired);
    KeysAfter(s.limiters, expired, s.pending[request], s.created);
  }

  /** Once the replaced limiters alone come to the limit, every add evicts, however few limiters there are. */
  lemma DriftForcesEviction(s: Snapshot, steps: seq<Step>, request: nat, expired: set<string>)
    requires Balanced(s) && Run(s, steps).maxSize <= s.duplicates && request in Run(s, steps).pending
    ensures var s' := Run(s, steps);
            Apply(s', Add(request, expired)).limiters.Keys == s'.limiters.Keys - expired + {s'.pending[request]}
  {
    CountConserved(s, steps);
    AddKeys(Run(s, steps), request, expired);
  }

  // ---------- Races ----------

  /** The step finds no limiter for a key that another request is about to add one for. */
  predicate Races(s: Snapshot, step: Step) {
    step.LookUp? && step.request !in s.pending && step.id !in s.limiters && step.id in s.pending.Values
  }

  predicate RaceFree(s: Snapshot, steps: seq<Step>)
    decreases |steps|
  {
    steps == [] || (!Races(s, steps[0]) && RaceFree(Apply(s, steps[0]), steps[1..]))
  }

  /** Pending keys have no limiter and are pending once. */
  ghost predicate Separate(s: Snapshot) {
    && (forall r :: r in s.pending ==> s.pending[r] !in s.limiters)
    && (forall r, q :: r in s.pending && q in s.pending && r != q ==> s.pending[r] != s.pending[q])
  }

  lemma ApplySeparate(s: Snapshot, step: Step)
    requires Separate(s) && !Races(s, step)
    ensures Separate(Apply(s, step)) && Apply(s, step).duplicates == s.duplicates
  {
    if step.LookUp? && step.id !in s.limiters {
      assert forall r :: r in s.pending ==> s.pending[r] in s.pending.Values;
    }
  }

  lemma {:induction false} RaceFreeRun(s: Snapshot, steps: seq<Step>)
    requires Separate(s) && RaceFree(s, steps)
    ensures Run(s, steps).duplicates == s.duplicates
    decreases |steps|
  {
    if steps != [] {
      ApplySeparate(s, steps[0]);
      RaceFreeRun(Apply(s, steps[0]), steps[1..]);
    }
  }

  /** Without two requests racing for one key the count is the number of limiters. */
  lemma RaceFreeCountExact(maxSize: int, steps: seq<Step>)
    requires RaceFree(Initial(maxSize), steps)
    ensures var s := Run(Initial(maxSize), steps); s.count == |s.limiters|
  {
    RaceFreeRun(Initial(maxSize), steps);
    CountExactIff(maxSize, steps);
  }

  /** So an add evicts if and only if the map itself has come to the limit. */
  lemma RaceFreeEvictsIff(maxSize: int, steps: seq<Step>, request: nat, expired: set<string>)
    requires RaceFree(Initial(maxSize), steps) && request in Run(Initial(maxSize), steps).pending
    ensures var s := Run(Initial(maxSize), steps);
            var id, keys := s.pending[request], Apply(s, Add(request, expired)).limiters.Keys;
            keys == (if |s.limiters| >= s.maxSize then s.limiters.Keys - expired else s.limiters.Keys) + {id}
  {
    RaceFreeCountExact(maxSize, steps);
    AddKeys(Run(Initial(maxSize), steps), request, expired);
  }

  /** A race leaves the count one ahead, and the first of the two limiters out of the map. */
  lemma RaceDrifts(s: Snapshot, id: string, q: nat, r: nat) returns (raced: Snapshot)
    requires Balanced(s) && id !in s.limiters && q != r && q !in s.pending && r !in s.pending
    requires s.count + 1 < s.maxSize
    ensures raced == Run(s, [LookUp(q, id), LookUp(r, id), Add(q, {}), Add(r, {})])
    ensures raced.duplicates == s.duplicates + 1 && raced.count == |raced.limiters| + s.duplicates + 1
    ensures raced.limiters == s.limiters[id := s.created + 1] && raced.created == s.created + 2
  {
    var steps := [LookUp(q, id), LookUp(r, id), Add(q, {}), Add(r, {})];
    raced := Run(s, steps);
    CountConserved(s, steps);
    RunFour(s, steps[0], steps[1], steps[2], steps[3]);
    BothAdd(s.(pending := s.pending[q := id][r := id]), id, q, r);
  }

  lemma BothAdd(s: Snapshot, id: string, q: nat, r: nat)
    requires id !in s.limiters && q != r && s.count + 1 < s.maxSize
    requires q in s.pending && s.pending[q] == id && r in s.pending && s.pending[r] == id
    ensures var s' := Apply(Apply(s, Add(q, {})), Add(r, {}));
            s'.duplicates == s.duplicates + 1 && s'.created == s.created + 2
            && s'.limiters == s.limiters[id := s.created + 1]
  {
    var first := Apply(s, Add(q, {}));
    AddWithRoom(s, q);
    AddWithRoom(first, r);
    assert s.limiters[id := s.created][id := s.created + 1] == s.limiters[id := s.created + 1];
  }

  lemma AddWithRoom(s: Snapshot, request: nat)
    requires request in s.pending && s.count < s.maxSize
    ensures Apply(s, Add(request, {})) == Insert(s, s.pending[request]).(pending := s.pending - {request})
  {
  }

  lemma RunFour(s: Snapshot, a: Step, b: Step, c: Step, d: Step)
    ensures Run(s, [a, b, c, d]) == Apply(Apply(Apply(Apply(s, a), b), c), d)
  {
    var steps := [a, b, c, d];
    assert steps[1..] == [b, c, d] && [b, c, d][1..] == [c, d] && [c, d][1..] == [d] && [d][1..] == [];
    var s2 := Apply(Apply(s, a), b);
    assert Run(s, steps) == Run(s2, [c, d]);
    assert Run(s2, [c, d]) == Run(Apply(Apply(s2, c), d), []);
  }

  // ---------- The object ----------

  /** What is gone once only the keys `rest` are left to look at. */
  function Gone(keys: set<string>, rest: set<string>, expired: set<string>): set<string> {
    (keys - rest) * expired
  }

  lemma GoneStep(m: map<string, nat>, rest: set<string>, expired: set<string>, k: string)
    requires rest <= m.Keys && k in rest
    ensures var gone, gone' := Gone(m.Keys, rest, expired), Gone(m.Keys, rest - {k}, expired);
            if k in expired then |gone'| == |gone| + 1 && m - gone' == m - gone - {k} else gone' == gone
  {
    var gone, gone' := Gone(m.Keys, rest, expired), Gone(m.Keys, rest - {k}, expired);
    if k in expired { assert gone' == gone + {k} && k !in gone; } else { assert gone' == gone; }
  }

  lemma GoneEnds(m: map<string, nat>, expired: set<string>)
    ensures Gone(m.Keys, m.Keys, expired) == {} && m - {} == m
    ensures Gone(m.Keys, {}, expired) == m.Keys * expired && m - (m.Keys * expired) == m - expired
  {
  }

  class Limiter {
    var limiters: map<string, nat>
    var count: int
    var maxSize: int
    var created: nat
    ghost var pending: map<nat, string>
    ghost var duplicates: nat

    ghost function State(): Snapshot
      reads this
    {
      Snapshot(limiters, count, maxSize, pending, created, duplicates)
    }

    constructor (maxSize: int)
      ensures State() == Initial(maxSize) && limiters == map[] && count == 0 && this.maxSize == maxSize
    {
      limiters, count, created := map[], 0, 0;
      this.maxSize := maxSize;
      pending, duplicates := map[], 0;
    }

    method ChangeMaxSize(max: int)
      modifies this`maxSize
      ensures State() == Apply(old(State()), SetMaxSize(max))
      ensures maxSize == max && limiters == old(limiters) && count == old(count)
    {
      maxSize := max;
    }

    method RemoveExpired(expired: set<string>) returns (removed: int)
      modifies this`limiters, this`count
      ensures limiters == old(limiters) - expired
      ensures removed == |old(limiters).Keys * expired| && count == old(count) - removed
    {
      removed := 0;
      var rest := limiters.Keys;
      ghost var before := limiters;
      GoneEnds(before, expired);
      while rest != {}
        invariant rest <= before.Keys && limiters == before - Gone(before.Keys, rest, expired)
        invariant removed == |Gone(before.Keys, rest, expired)| && count == old(count) - removed
        decreases |rest|
      {
        var k :| k in rest;
        GoneStep(before, rest, expired, k);
        if k in expired {
          limiters := limiters - {k};
          count := count - 1;
          removed := removed + 1;
        }
        rest := rest - {k};
      }
    }

    /** The first part of a request: the limiter of the key, if there is one. */
    method Find(ghost request: nat, id: string) returns (limiter: Option<nat>)
      requires request !in pending
      modifies this`pending
      ensures State() == Apply(old(State()), LookUp(request, id))
      ensures limiter == if id in limiters then Some(limiters[id]) else None
      ensures pending == if id in limiters then old(pending) else old(pending)[request := id]
    {
      if id in limiters {
        limiter := Some(limiters[id]);
      } else {
        limiter := None;
        pending := pending[request := id];
      }
    }

    /** The second part, of a request that found none. */
    method AddLimiter(ghost request: nat, id: string, expired: set<string>) returns (limiter: nat)
      requires request in pending && pending[request] == id
      modifies this
      ensures State() == Apply(old(State()), Add(request, expired))
      ensures limiters == (if old(count) >= old(maxSize) then old(limiters) - expired else old(limiters))[id := limiter]
      ensures id in limiters && limiters[id] == limiter == old(created)
    {
      if count >= maxSize {
        var _ := RemoveExpired(expired);
      }
      if id in limiters {
        duplicates := duplicates + 1;
      }
      limiter := created;
      created := created + 1;
      limiters := limiters[id := limiter];
      count := count + 1;
      pending := pending - {request};
    }
  }
}
