/** Page-wise reading of a list with the base pager of pager/pager.go. */
module Pager {
  import opened Arithmetic
  import TB = TokenBucket
  import RateSearch
  import opened BucketObject

  /** A rate of one token per second is found at once: one token every 10^9 nanoseconds. */
  lemma OnePerSecond(wild: int, interval: int, quantum: int)
    ensures RateSearch.Search(1.0, wild, 1, interval, quantum) == RateSearch.Outcome(true, 1_000_000_000, 1)
  {
    assert RateSearch.ExactInterval(1.0, 1) == 1000000000.0;
    assert RateSearch.Rate(1, 1_000_000_000) == 1.0;
  }

  class BasePager {
    var pageSize: int
    var pageNumber: int
    var hasNext: bool
    const tb: Bucket

    /** The bucket is full with its one token, and gets another every second. */
    constructor (now: int, wild: int)
      ensures pageSize == 20 && pageNumber == 1 && hasNext && fresh(tb)
      ensures tb.Valid() && tb.Config() == TB.Config(now, 1_000_000_000, 1, 1) && tb.State() == TB.Full(tb.Config())
    {
      var bucket := new Bucket(1, 1, 1, now);
      OnePerSecond(wild, 1, 1);
      var _ := bucket.SetRate(1.0, wild);
      pageSize, pageNumber, hasNext, tb := 20, 1, true, bucket;
    }

    /** Takes a token and says how long to sleep for it, and whether there is another page. */
    method Next(now: int) returns (more: bool, wait: int, ghost granted: seq<TB.Grant>)
      requires tb.Valid()
      modifies tb`availableTokens, tb`latestTick
      ensures more == hasNext
      ensures (tb.State(), granted) == TB.Step(tb.Config(), old(tb.State()), PageCall(now))
      ensures granted != [] ==> granted == [TB.Grant(1, now + wait)]
    {
      granted := TB.Step(tb.Config(), tb.State(), PageCall(now)).1;
      wait := tb.Take(now, 1);
      more := hasNext;
    }

    method SetPageSize(ps: int)
      modifies this`pageSize
      ensures pageSize == ps
    {
      pageSize := ps;
    }

    function Offset(): int
      reads this
    {
      pageSize * (pageNumber - 1)
    }

    /** A page that is not full is the last one. */
    method CheckHasNext(length: nat)
      modifies this`hasNext, this`pageNumber
      ensures hasNext == (old(hasNext) && pageSize <= length)
      ensures pageNumber == old(pageNumber) + if length < pageSize then 0 else 1
    {
      if length < pageSize {
        hasNext := false;
      } else {
        pageNumber := pageNumber + 1;
      }
    }
  }

  function PageCall(now: int): TB.Call {
    TB.TakeCall(now, 1, TB.INFINITY_DURATION)
  }

  /** The calls of a loop that asks for the next page at the given times. */
  function PageCalls(times: seq<int>): seq<TB.Call> {
    seq(|times|, i requires 0 <= i < |times| => PageCall(times[i]))
  }

  /** What a scan finds at an offset. */
  function Page<T>(items: seq<T>, offset: nat, size: nat): seq<T> {
    if offset <= |items| then items[offset..Min(offset + size, |items|)] else []
  }

  /** The first `n` times of a clock. */
  function Times(clock: nat -> int, n: nat): seq<int> {
    seq(n, i requires 0 <= i < n => clock(i))
  }

  /** The bucket was `full`, and has made `grants` to takes of one token at the first `n` times of the clock. */
  ghost predicate Granted(pager: BasePager, full: TB.State, clock: nat -> int, n: nat, grants: seq<TB.Grant>)
    requires pager.tb.Valid()
    reads pager.tb
  {
    var calls := PageCalls(Times(clock, n));
    grants == TB.Run(pager.tb.Config(), full, calls) && pager.tb.State() == After(pager.tb.Config(), full, calls)
  }

  method AskNext(pager: BasePager, clock: nat -> int, n: nat, ghost full: TB.State, ghost grants: seq<TB.Grant>)
    returns (more: bool, wait: int, ghost granted: seq<TB.Grant>)
    requires pager.tb.Valid() && Granted(pager, full, clock, n, grants)
    modifies pager.tb`availableTokens, pager.tb`latestTick
    ensures more == pager.hasNext && pager.tb.Valid()
    ensures pager.tb.Config() == old(pager.tb.Config())
    ensures Granted(pager, full, clock, n + 1, grants + granted)
    ensures granted != [] ==> granted == [TB.Grant(1, clock(n) + wait)]
  {
    RunSnoc(pager.tb.Config(), full, Times(clock, n), clock(n));
    assert Times(clock, n + 1) == Times(clock, n) + [clock(n)];
    more, wait, granted := pager.Next(clock(n));
  }

  /** The items of the first `pages` pages have been visited, and the last of these was not full exactly when the
      pager has no next one. */
  ghost predicate PagesRead<T>(pager: BasePager, items: seq<T>, visited: seq<T>, pages: nat)
    requires 0 < pager.pageSize
    reads pager
  {
    if pager.hasNext then
      pager.pageNumber == pages + 1 && pager.pageSize * pages <= |items| && visited == items[..pager.pageSize * pages]
    else
      visited == items && pages == |items| / pager.pageSize + 1
  }

  /** The next page has the items that follow the first `pages` pages; it is full exactly if there are enough. */
  lemma PageFollows<T>(items: seq<T>, size: nat, pages: nat)
    requires 0 < size && size * pages <= |items|
    ensures size * pages + size == size * (pages + 1)
    ensures items[..size * pages] + Page(items, size * pages, size) == items[..Min(size * (pages + 1), |items|)]
    ensures |Page(items, size * pages, size)| < size <==> |items| < size * (pages + 1)
  {
  }

  lemma LastPage(total: nat, size: nat, pages: nat)
    requires 0 < size && size * pages <= total < size * pages + size
    ensures total / size == pages
  {
    DivUnique(total, size, pages);
  }

  /** Scans and visits the next page. */
  method ReadPage<T>(pager: BasePager, items: seq<T>, visited: seq<T>, ghost pages: nat) returns (more: seq<T>)
    requires 0 < pager.pageSize && pager.hasNext && PagesRead(pager, items, visited, pages)
    modifies pager`hasNext, pager`pageNumber
    ensures PagesRead(pager, items, visited + more, pages + 1)
    ensures |visited + more| <= |items| && (pager.hasNext ==> 0 < |more|)
  {
    PageFollows(items, pager.pageSize, pages);
    more := Page(items, pager.Offset(), pager.pageSize);
    pager.CheckHasNext(|more|);
    if !pager.hasNext {
      LastPage(|items|, pager.pageSize, pages);
    }
  }

  /** The loop that the pager is made for visits every item once and in order, and scans one page more than
      there are full ones. `clock` has the times at which it asks for the next page; what the bucket grants is
      what it grants to takes of one token at these times. */
  method ReadAll<T>(pager: BasePager, items: seq<T>, clock: nat -> int)
    returns (visited: seq<T>, pages: nat, ghost grants: seq<TB.Grant>)
    requires pager.hasNext && pager.pageNumber == 1 && 0 < pager.pageSize && pager.tb.Valid()
    modifies pager`hasNext, pager`pageNumber, pager.tb`availableTokens, pager.tb`latestTick
    ensures visited == items && pages == |items| / pager.pageSize + 1
    ensures !pager.hasNext && pager.tb.Valid()
    ensures grants == TB.Run(pager.tb.Config(), old(pager.tb.State()), PageCalls(Times(clock, pages + 1)))
  {
    visited, pages, grants := [], 0, [];
    ghost var full := pager.tb.State();
    var more, wait;
    ghost var granted;
    more, wait, granted := AskNext(pager, clock, 0, full, grants);
    grants := grants + granted;
    while more
      invariant pager.pageSize == old(pager.pageSize) && more == pager.hasNext && pager.tb.Valid()
      invariant Granted(pager, full, clock, pages + 1, grants)
      invariant PagesRead(pager, items, visited, pages)
      decreases more, |items| - |visited|
    {
      var page := ReadPage(pager, items, visited, pages);
      visited, pages := visited + page, pages + 1;
      more, wait, granted := AskNext(pager, clock, pages, full, grants);
      grants := grants + granted;
    }
  }

  /** The state of a bucket after a run. */
  function After(c: TB.Config, s: TB.State, calls: seq<TB.Call>): TB.State
    requires c.Valid()
    decreases |calls|
  {
    if calls == [] then s else After(c, TB.Step(c, s, calls[0]).0, calls[1..])
  }

  lemma {:induction false} RunSnoc(c: TB.Config, s: TB.State, times: seq<int>, now: int)
    requires c.Valid()
    ensures var (s', granted) := TB.Step(c, After(c, s, PageCalls(times)), PageCall(now));
            TB.Run(c, s, PageCalls(times + [now])) == TB.Run(c, s, PageCalls(times)) + granted
            && After(c, s, PageCalls(times + [now])) == s'
    decreases |times|
  {
    var calls := PageCalls(times + [now]);
    if times == [] {
      assert calls == [PageCall(now)] && calls[1..] == [] && PageCalls(times) == [];
      assert TB.Run(c, s, calls) == TB.Step(c, s, PageCall(now)).1 + [];
    } else {
      RunSnoc(c, TB.Step(c, s, PageCall(times[0])).0, times[1..], now);
      assert calls[0] == PageCall(times[0]) && calls[1..] == PageCalls(times[1..] + [now]);
      assert PageCalls(times)[1..] == PageCalls(times[1..]);
    }
  }

  predicate NeverBack(times: seq<int>, from: int) {
    times == [] || (from <= times[0] && NeverBack(times[1..], times[0]))
  }

  /** A pager made at `start` lets at most one page through, and one more for every full second since, as long as
      the clock does not go back. */
  lemma PagesAreLimited(start: int, times: seq<int>, last: nat)
    requires NeverBack(times, start)
    ensures var c := TB.Config(start, 1_000_000_000, 1, 1);
            TB.DueBy(c, TB.Run(c, TB.Full(c), PageCalls(times)), last) <= 1 + last
  {
    CallsInOrder(start, times);
    TB.RateBound(TB.Config(start, 1_000_000_000, 1, 1), PageCalls(times), last);
  }

  lemma {:induction false} CallsInOrder(start: int, times: seq<int>)
    requires NeverBack(times, start)
    ensures TB.InOrder(PageCalls(times), start)
    decreases |times|
  {
    if times != [] {
      CallsInOrder(times[0], times[1..]);
      assert PageCalls(times)[1..] == PageCalls(times[1..]);
    }
  }
}
