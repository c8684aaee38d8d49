/** Interval-based rotation: the names of file/interval.rotator.go and their use in file/rotator.go. */
module IntervalLogs {
  import opened Arithmetic
  import opened Options
  import opened Decimal

  const INDEX_WIDTH: nat := 20

  /** Where the trailing decimal digits of a name begin. */
  function IndexStart(name: string): (i: nat)
    ensures i <= |name|
  {
    if name == [] || !IsDigit(name[|name| - 1]) then |name| else IndexStart(name[..|name| - 1])
  }

  function LogIndex(name: string): Option<nat> {
    ParseUint(name[IndexStart(name)..])
  }

  /** The name with its index padded with zeros; empty when there is no index. */
  function OrderKey(name: string): string {
    match LogIndex(name)
    case Some(n) => name[..IndexStart(name)] + Pad(Digits(n), INDEX_WIDTH)
    case None => ""
  }

  /** Conversion of an unsigned 64-bit number to a signed one, and one added to it. */
  function Successor(n: nat): int {
    (n + 1 + INT64_LIMIT) % UINT64_LIMIT - INT64_LIMIT
  }

  /** Right below 2^63 it turns negative. */
  lemma SuccessorExact(n: nat)
    requires n < 0x1_0000_0000_0000_0000
    ensures n < 0x7fff_ffff_ffff_ffff ==> Successor(n) == n + 1 && Itoa(Successor(n)) == Digits(n + 1)
    ensures 0x7fff_ffff_ffff_ffff <= n ==> Successor(n) == n + 1 - 0x1_0000_0000_0000_0000
  {
  }

  // ---------- Names ----------

  predicate EndsInDigit(s: string) {
    s != [] && IsDigit(s[|s| - 1])
  }

  lemma {:induction false} IndexStartOf(prefix: string, digits: string)
    requires !EndsInDigit(prefix) && AllDigits(digits)
    ensures IndexStart(prefix + digits) == |prefix|
    decreases digits
  {
    var name := prefix + digits;
    if digits == [] {
      assert name == prefix;
    } else {
      IndexStartOf(prefix, digits[..|digits| - 1]);
      assert name[..|name| - 1] == prefix + digits[..|digits| - 1];
    }
  }

  /** A name has an index exactly if it ends in a number below 2^64: that number. */
  lemma IndexIs(prefix: string, digits: string)
    requires !EndsInDigit(prefix) && AllDigits(digits)
    ensures LogIndex(prefix + digits)
         == if digits != "" && Value(digits) < 0x1_0000_0000_0000_0000 then Some(Value(digits)) else None
  {
    IndexStartOf(prefix, digits);
    assert (prefix + digits)[|prefix|..] == digits;
  }

  /** Reading the index back undoes the printing of it. */
  lemma IndexRoundTrip(prefix: string, n: nat)
    requires !EndsInDigit(prefix) && n < 0x1_0000_0000_0000_0000
    ensures IndexStart(prefix + Digits(n)) == |prefix| && LogIndex(prefix + Digits(n)) == Some(n)
    ensures OrderKey(prefix + Digits(n)) == prefix + Pad(Digits(n), INDEX_WIDTH)
  {
    var name := prefix + Digits(n);
    DigitsRoundTrip(n);
    IndexStartOf(prefix, Digits(n));
    assert name[|prefix|..] == Digits(n) && name[..|prefix|] == prefix;
  }

  lemma PaddedWidth(n: nat)
    requires n < UINT64_LIMIT
    ensures AllDigits(Pad(Digits(n), INDEX_WIDTH)) && |Pad(Digits(n), INDEX_WIDTH)| == INDEX_WIDTH
    ensures Value(Pad(Digits(n), INDEX_WIDTH)) == n
  {
    Pow10Values();
    DigitsRoundTrip(n);
    DigitsFit(n, INDEX_WIDTH);
    PadKeepsValue(Digits(n), INDEX_WIDTH);
  }

  /** For names with one prefix the order of the keys is the order of the indices. */
  lemma OrderIsNumeric(prefix: string, m: nat, n: nat)
    requires !EndsInDigit(prefix) && m < 0x1_0000_0000_0000_0000 && n < 0x1_0000_0000_0000_0000
    ensures Less(OrderKey(prefix + Digits(m)), OrderKey(prefix + Digits(n))) <==> m < n
  {
    IndexRoundTrip(prefix, m);
    IndexRoundTrip(prefix, n);
    PaddedWidth(m);
    PaddedWidth(n);
    LessUnderPrefix(prefix, Pad(Digits(m), INDEX_WIDTH), Pad(Digits(n), INDEX_WIDTH));
    LessIsNumeric(Pad(Digits(m), INDEX_WIDTH), Pad(Digits(n), INDEX_WIDTH));
  }

  /** `name` sorts before every log of the interval with this prefix. */
  predicate Older(name: string, prefix: string) {
    Less(OrderKey(name), prefix)
  }

  lemma OlderSortsFirst(name: string, prefix: string, n: nat)
    requires Older(name, prefix) && !EndsInDigit(prefix) && n < UINT64_LIMIT
    ensures Less(OrderKey(name), OrderKey(prefix + Digits(n)))
  {
    IndexRoundTrip(prefix, n);
    LessThanExtension(OrderKey(name), prefix, Pad(Digits(n), INDEX_WIDTH));
  }

  /** The logs of an interval with an earlier date are older. */
  lemma EarlierDateIsOlder(earlier: string, prefix: string, n: nat)
    requires |earlier| == |prefix| && Less(earlier, prefix) && !EndsInDigit(earlier) && n < UINT64_LIMIT
    ensures Older(earlier + Digits(n), prefix)
  {
    IndexRoundTrip(earlier, n);
    LessByPrefix(earlier, prefix, Pad(Digits(n), INDEX_WIDTH));
  }

  /** So are files whose names end in no index. */
  lemma UnnumberedIsOlder(name: string, prefix: string)
    requires prefix != [] && LogIndex(name) == None
    ensures Older(name, prefix)
  {
  }

  method IntervalLogIndex(filename: string) returns (index: nat, start: nat, ok: bool)
    ensures start == IndexStart(filename)
    ensures if ok then LogIndex(filename) == Some(index) else LogIndex(filename) == None
  {
    var i := |filename| - 1;
    assert filename[..i + 1] == filename;
    while i >= 0
      invariant -1 <= i < |filename|
      invariant IndexStart(filename) == IndexStart(filename[..i + 1])
    {
      if '0' > filename[i] || filename[i] > '9' {
        break;
      }
      assert filename[..i + 1][..i] == filename[..i];
      i := i - 1;
    }
    start := i + 1;
    var parsed := ParseUint(filename[start..]);
    ok := parsed.Some?;
    index := if ok then parsed.value else 0;
  }

  // ---------- Sorting ----------

  ghost predicate SortedLogs(files: seq<string>) {
    forall i, j :: 0 <= i < j < |files| ==> !Less(OrderKey(files[j]), OrderKey(files[i]))
  }

  method InsertionPoint(sorted: seq<string>, name: string) returns (i: nat)
    ensures i <= |sorted|
    ensures i > 0 ==> !Less(OrderKey(name), OrderKey(sorted[i - 1]))
    ensures forall j :: i <= j < |sorted| ==> Less(OrderKey(name), OrderKey(sorted[j]))
  {
    i := |sorted|;
    while i > 0 && Less(OrderKey(name), OrderKey(sorted[i - 1]))
      invariant i <= |sorted|
      invariant forall j :: i <= j < |sorted| ==> Less(OrderKey(name), OrderKey(sorted[j]))
    {
      i := i - 1;
    }
  }

  /** The library sort is unspecified but for its result being sorted; here it inserts one after the other. */
  method SortIntervalLogs(files: seq<string>) returns (sorted: seq<string>)
    ensures multiset(sorted) == multiset(files) && SortedLogs(sorted)
  {
    sorted := [];
    for n := 0 to |files|
      invariant multiset(sorted) == multiset(files[..n]) && SortedLogs(sorted)
    {
      var i := InsertionPoint(sorted, files[n]);
      InsertSorted(sorted, files[n], i);
      InsertKeepsAll(sorted, files[n], i);
      assert files[..n + 1] == files[..n] + [files[n]];
      sorted := Inserted(sorted, files[n], i);
    }
    assert files[..|files|] == files;
  }

  function Inserted(sorted: seq<string>, name: string, i: nat): seq<string>
    requires i <= |sorted|
  {
    sorted[..i] + [name] + sorted[i..]
  }

  lemma InsertKeepsAll(sorted: seq<string>, name: string, i: nat)
    requires i <= |sorted|
    ensures multiset(Inserted(sorted, name, i)) == multiset(sorted + [name])
  {
    assert sorted == sorted[..i] + sorted[i..];
  }

  ghost predicate SortedBy<T(!new)>(before: (T, T) -> bool, s: seq<T>) {
    forall i, j :: 0 <= i < j < |s| ==> !before(s[j], s[i])
  }

  lemma InsertSortedBy<T(!new)>(before: (T, T) -> bool, s: seq<T>, x: T, i: nat)
    requires forall a, b, c :: !before(b, a) && !before(c, b) ==> !before(c, a)
    requires forall a, b :: before(a, b) ==> !before(b, a)
    requires SortedBy(before, s) && i <= |s|
    requires i > 0 ==> !before(x, s[i - 1])
    requires forall j :: i <= j < |s| ==> before(x, s[j])
    ensures SortedBy(before, s[..i] + [x] + s[i..])
  {
    var r := s[..i] + [x] + s[i..];
    forall p, q | 0 <= p < q < |r| ensures !before(r[q], r[p]) {
      assert r[q] == (if q < i then s[q] else if q == i then x else s[q - 1]);
      assert r[p] == (if p < i then s[p] else if p == i then x else s[p - 1]);
      if q == i && p < i - 1 { assert !before(s[i - 1], s[p]); }
    }
  }

  lemma InsertSorted(sorted: seq<string>, name: string, i: nat)
    requires SortedLogs(sorted) && i <= |sorted|
    requires i > 0 ==> !Less(OrderKey(name), OrderKey(sorted[i - 1]))
    requires forall j :: i <= j < |sorted| ==> Less(OrderKey(name), OrderKey(sorted[j]))
    ensures SortedLogs(Inserted(sorted, name, i))
  {
    var before := (a: string, b: string) => Less(OrderKey(a), OrderKey(b));
    forall a, b, c | !before(b, a) && !before(c, b) ensures !before(c, a) {
      LessTransitive(OrderKey(a), OrderKey(b), OrderKey(c));
    }
    forall a, b | before(a, b) ensures !before(b, a) {
      LessAsymmetric(OrderKey(a), OrderKey(b));
    }
    assert SortedBy(before, sorted);
    InsertSortedBy(before, sorted, name, i);
    var r := Inserted(sorted, name, i);
    forall p, q | 0 <= p < q < |r| ensures !Less(OrderKey(r[q]), OrderKey(r[p])) {
      assert !before(r[q], r[p]);
    }
  }
}
