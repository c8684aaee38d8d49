/** Printing and parsing of decimal timestamps in utils/ftime/time.go. */
module Timestamps {
  import opened Arithmetic
  import opened Options
  import opened Decimal

  /** Seconds since 1970 and the nanoseconds within the second. */
  datatype Time = Time(seconds: int, nanos: nat)

  datatype Length = Length10 | Length13 | Length16 | Length19 | Other

  const SECOND: int := 1_000_000_000
  /** The first second of the year 1. */
  const ZERO_SECONDS: int := -62_135_596_800
  /** The first second from which on nanoseconds since 1970 are no 64-bit integer. */
  const UNIX_NANO_END: int := 9_223_372_036

  function UnixNano(t: Time): int {
    t.seconds * SECOND + t.nanos
  }

  /** time.Unix, which carries surplus nanoseconds over to the seconds. */
  function Unix(seconds: int, nanos: int): Time {
    Time(seconds + nanos / SECOND, nanos % SECOND)
  }

  function Timestamp(t: Time, length: Length): int {
    if t == Time(ZERO_SECONDS, 0) then 0
    else match length
      case Length10 => t.seconds
      case Length13 => TruncDiv(UnixNano(t), 1_000_000)
      case Length16 => TruncDiv(UnixNano(t), 1_000)
      case Length19 => UnixNano(t)
      case Other => TruncDiv(UnixNano(t), 1_000_000)
  }

  function LeadingDigits(s: string): (n: nat)
    ensures n <= |s| && AllDigits(s[..n]) && (n < |s| ==> !IsDigit(s[n]))
  {
    if s == [] || !IsDigit(s[0]) then 0
    else
      var n := LeadingDigits(s[1..]);
      assert s[..1 + n] == [s[0]] + s[1..][..n];
      1 + n
  }

  predicate Signed(s: string) {
    s != "" && (s[0] == '-' || s[0] == '+')
  }

  function Unsigned(s: string): string {
    if Signed(s) then s[1..] else s
  }

  /** The number before the first character that is no digit. */
  function Magnitude(s: string): nat {
    Value(Unsigned(s)[..LeadingDigits(Unsigned(s))])
  }

  function WithSign(s: string, n: nat): int {
    if s != "" && s[0] == '-' then 0 - n else n
  }

  predicate InInt64(n: int) {
    -0x8000_0000_0000_0000 <= n < 0x8000_0000_0000_0000
  }

  /** strconv.ParseInt(s, 10, 64): the number it gives back even with an error, and whether it is one. It stops
      at the first digit that is too much, before it sees what follows. */
  function ParseInt(s: string): (int, bool) {
    var n := WithSign(s, Magnitude(s));
    if Magnitude(s) < UINT64_LIMIT && !Numeral(Unsigned(s)) then (0, false)
    else if InInt64(n) then (n, true)
    else (if n < 0 then -INT64_LIMIT else INT64_LIMIT - 1, false)
  }

  const WIDTH: nat := 19

  function Padded(ts: string): string {
    ts + Zeros(if |ts| < WIDTH then WIDTH - |ts| else 0)
  }

  /** An error in the nanoseconds goes unnoticed. */
  function Parsed(ts: string): Option<Time> {
    var padded := Padded(ts);
    var (seconds, ok) := ParseInt(padded[..10]);
    if ok then Some(Unix(seconds, ParseInt(padded[10..]).0)) else None
  }

  lemma OneMoreZero(ts: string, n: nat)
    ensures ts + Zeros(n) + "0" == ts + Zeros(n + 1)
  {
  }

  method ParseTS(ts: string) returns (t: Option<Time>)
    ensures t == Parsed(ts)
  {
    var s := ts;
    while |s| < WIDTH
      invariant s == ts + Zeros(|s| - |ts|)
      invariant |ts| <= |s| && (|s| <= WIDTH || s == ts)
      decreases WIDTH - |s|
    {
      OneMoreZero(ts, |s| - |ts|);
      s := s + "0";
    }
    assert s == Padded(ts);
    var seconds, ok := ParseInt(s[..10]).0, ParseInt(s[..10]).1;
    if !ok {
      return None;
    }
    var nanos := ParseInt(s[10..]).0;
    return Some(Unix(seconds, nanos));
  }

  method ParseTSInt64(ts: int) returns (t: Option<Time>)
    ensures t == Parsed(Itoa(ts))
  {
    t := ParseTS(Itoa(ts));
  }

  // ---------- Round trip ----------

  /** The number of digits of a length, and the nanoseconds of its last digit. */
  function DigitsOf(length: Length): nat {
    match length
    case Length10 => 10
    case Length13 => 13
    case Length16 => 16
    case Length19 => 19
    case Other => 13
  }

  function Unit(length: Length): int {
    match length
    case Length10 => SECOND
    case Length13 => 1_000_000
    case Length16 => 1_000
    case Length19 => 1
    case Other => 1_000_000
  }

  /** The time without what the length does not show. */
  function Truncated(t: Time, length: Length): Time {
    Time(t.seconds, t.nanos - t.nanos % Unit(length))
  }

  lemma TimestampIsQuotient(t: Time, length: Length)
    requires 0 <= t.seconds && t.nanos < SECOND
    ensures var ts := Timestamp(t, length);
            0 <= ts && UnixNano(Truncated(t, length)) == ts * Unit(length)
            && ts * Unit(length) <= UnixNano(t) < (ts + 1) * Unit(length)
  {
    match length
    case Length10 =>
    case Length13 => assert Timestamp(t, length) == 1_000 * t.seconds + t.nanos / 1_000_000;
    case Length16 => assert Timestamp(t, length) == 1_000_000 * t.seconds + t.nanos / 1_000;
    case Length19 =>
    case Other => assert Timestamp(t, length) == 1_000 * t.seconds + t.nanos / 1_000_000;
  }

  /** The zero time, at the first second of the year 1, prints as "0" in every length. */
  lemma ZeroTimeIsZero(length: Length)
    ensures Itoa(Timestamp(Time(-62_135_596_800, 0), length)) == "0"
  {
  }

  /** What a quotient that is rounded toward zero leaves of `n`. */
  predicate TowardZero(n: int, unit: int, q: int) {
    if 0 <= n then q * unit <= n < (q + 1) * unit else (q - 1) * unit < n <= q * unit
  }

  /** Every other time, also one before 1970: whole seconds are rounded down, shorter units toward 1970. */
  lemma TimestampRounds(t: Time, length: Length)
    requires t != Time(-62_135_596_800, 0) && t.nanos < 1_000_000_000
    ensures var ts, n := Timestamp(t, length), t.seconds * 1_000_000_000 + t.nanos;
            match length
            case Length10 => ts * 1_000_000_000 <= n < (ts + 1) * 1_000_000_000
            case Length13 => TowardZero(n, 1_000_000, ts)
            case Length16 => TowardZero(n, 1_000, ts)
            case Length19 => ts == n
            case Other => TowardZero(n, 1_000_000, ts)
  {
  }

  lemma UnitIsPower(length: Length)
    ensures Unit(length) == Pow10(WIDTH - DigitsOf(length))
    ensures Pow10(DigitsOf(length) - 1) * Unit(length) == 1_000_000_000_000_000_000
    ensures Pow10(DigitsOf(length)) * Unit(length) == 10_000_000_000_000_000_000
  {
    Pow10Values();
    Pow10Sum(9, 3);
    Pow10Sum(10, 6);
    Pow10Sum(9, 9);
    Pow10Sum(10, 9);
    Pow10Sum(12, 6);
    Pow10Sum(13, 6);
    Pow10Sum(15, 3);
    Pow10Sum(16, 3);
  }

  lemma ParseDigits(s: string)
    requires Numeral(s) && Value(s) < INT64_LIMIT
    ensures ParseInt(s) == (Value(s), true)
  {
    assert s[..|s|] == s;
  }

  lemma SplitValue(a: string, b: string)
    requires AllDigits(a) && AllDigits(b) && |a| == 10 && |b| == 9
    ensures AllDigits(a + b) && Value(a + b) == Value(a) * SECOND + Value(b)
    ensures Value(a) < 10 * SECOND && Value(b) < SECOND
  {
    ValueConcat(a, b);
    ValueBelow(a);
    ValueBelow(b);
    Pow10Values();
  }

  lemma UnixOfParts(seconds: nat, nanos: nat)
    requires nanos < SECOND
    ensures Unix(seconds, nanos) == Time(seconds, nanos)
  {
  }

  /** Nineteen digits are the nanoseconds since 1970. */
  lemma ParsedNineteen(padded: string)
    requires AllDigits(padded) && |padded| == WIDTH
    ensures ParseInt(padded[..10]).1
    ensures var t := Unix(ParseInt(padded[..10]).0, ParseInt(padded[10..]).0);
            t.nanos < SECOND && UnixNano(t) == Value(padded)
  {
    var a, b := padded[..10], padded[10..];
    assert padded == a + b;
    SplitValue(a, b);
    ParseDigits(a);
    ParseDigits(b);
    UnixOfParts(Value(a), Value(b));
  }

  /** Parsing reads the digits as nanoseconds of a number of nineteen digits. */
  lemma ParsedNanos(n: nat)
    requires |Digits(n)| <= WIDTH
    ensures var t := Parsed(Digits(n));
            t.Some? && t.value.nanos < SECOND && UnixNano(t.value) == n * Pow10(WIDTH - |Digits(n)|)
  {
    var zeros := Zeros(WIDTH - |Digits(n)|);
    DigitsRoundTrip(n);
    ValueOfZeros(WIDTH - |Digits(n)|);
    ValueConcat(Digits(n), zeros);
    ParsedNineteen(Digits(n) + zeros);
  }

  lemma QuotientBounds(q: nat, unit: int, n: int, p: nat)
    requires q * unit <= n < (q + 1) * unit && 0 < unit
    ensures p <= q <==> p * unit <= n
  {
    if p <= q { MulMonotone(p, q, unit); } else { MulMonotone(q + 1, p, unit); }
  }

  /** A timestamp other than zero has all digits of its length from 10^9 seconds on. */
  lemma DigitsAreFullIff(t: Time, length: Length)
    requires 0 <= t.seconds < UNIX_NANO_END && t.nanos < SECOND && Timestamp(t, length) > 0
    ensures |Digits(Timestamp(t, length))| <= DigitsOf(length)
    ensures |Digits(Timestamp(t, length))| == DigitsOf(length) <==> SECOND <= t.seconds
  {
    var ts, k := Timestamp(t, length), DigitsOf(length);
    TimestampIsQuotient(t, length);
    UnitIsPower(length);
    QuotientBounds(ts, Unit(length), UnixNano(t), Pow10(k));
    QuotientBounds(ts, Unit(length), UnixNano(t), Pow10(k - 1));
    assert ts < Pow10(k);
    assert Pow10(k - 1) <= ts <==> SECOND <= t.seconds;
    DigitsFit(ts, k);
    DigitCount(ts, k);
  }

  /** From then on the lengths are what they are called. */
  lemma LengthsAreKept(t: Time)
    requires 1_000_000_000 <= t.seconds < UNIX_NANO_END && t.nanos < 1_000_000_000
    ensures |Itoa(Timestamp(t, Length10))| == 10 && |Itoa(Timestamp(t, Length13))| == 13
    ensures |Itoa(Timestamp(t, Length16))| == 16 && |Itoa(Timestamp(t, Length19))| == 19
    ensures |Itoa(Timestamp(t, Other))| == 13
  {
    DigitsAreFullIff(t, Length10);
    DigitsAreFullIff(t, Length13);
    DigitsAreFullIff(t, Length16);
    DigitsAreFullIff(t, Length19);
    DigitsAreFullIff(t, Other);
  }

  lemma TruncatedNanos(t: Time, length: Length)
    requires 0 <= t.seconds && t.nanos < SECOND
    ensures 0 <= Timestamp(t, length) && Truncated(t, length).nanos < SECOND
    ensures UnixNano(Truncated(t, length)) == Timestamp(t, length) * Pow10(WIDTH - DigitsOf(length))
  {
    TimestampIsQuotient(t, length);
    UnitIsPower(length);
  }

  lemma SameTimeIff(n: nat, d: nat, k: nat, parsed: Time, shown: Time)
    requires d <= k <= WIDTH && parsed.nanos < SECOND && shown.nanos < SECOND
    requires UnixNano(parsed) == n * Pow10(WIDTH - d) && UnixNano(shown) == n * Pow10(WIDTH - k)
    ensures parsed == shown <==> n == 0 || d == k
  {
    PaddingEqualIff(n, d, k);
    SameNanos(parsed, shown);
  }

  /** A number of at most `k` digits, parsed, is the time that it is meant for with `k` digits only if it has them
      all or is zero. */
  lemma ReadsBackIff(n: nat, k: nat, shown: Time, full: bool)
    requires |Digits(n)| <= k <= WIDTH && (n > 0 ==> (|Digits(n)| == k <==> full))
    requires shown.nanos < SECOND && UnixNano(shown) == n * Pow10(WIDTH - k)
    ensures Parsed(Digits(n)) == Some(shown) <==> n == 0 || full
  {
    ParsedNanos(n);
    SameTimeIff(n, |Digits(n)|, k, Parsed(Digits(n)).value, shown);
  }

  /** A time within the range of 64-bit nanoseconds comes back truncated exactly when its timestamp is zero or
      it is no earlier than 10^9 seconds, so that the timestamp has all its digits. */
  lemma RoundTripIff(t: Time, length: Length)
    requires 0 <= t.seconds < UNIX_NANO_END && t.nanos < SECOND
    ensures Parsed(Itoa(Timestamp(t, length))) == Some(Truncated(t, length))
       <==> Timestamp(t, length) == 0 || SECOND <= t.seconds
  {
    TruncatedNanos(t, length);
    var ts := Timestamp(t, length);
    if ts > 0 { DigitsAreFullIff(t, length); } else { assert Digits(0) == "0"; }
    ReadsBackIff(ts, DigitsOf(length), Truncated(t, length), SECOND <= t.seconds);
  }

  lemma NanosOfBillion(t: Time)
    requires t.nanos < SECOND && UnixNano(t) == 1 * Pow10(18)
    ensures t == Time(SECOND, 0)
  {
    Pow10Values();
    Pow10Sum(9, 9);
    SameNanos(t, Time(SECOND, 0));
  }

  /** One second after 1970 comes back as 10^9 seconds: the digit is padded on its other side. */
  lemma EarlyTimestampGrows()
    ensures Parsed(Itoa(Timestamp(Time(1, 0), Length10))) == Some(Time(SECOND, 0))
  {
    assert Timestamp(Time(1, 0), Length10) == 1 && Digits(1) == "1" && |Digits(1)| == 1;
    ParsedNanos(1);
    NanosOfBillion(Parsed(Digits(1)).value);
  }

  lemma SameNanos(a: Time, b: Time)
    requires a.nanos < SECOND && b.nanos < SECOND
    ensures a == b <==> UnixNano(a) == UnixNano(b)
  {
  }

  lemma PaddingEqualIff(n: nat, d: nat, k: nat)
    requires d <= k <= WIDTH
    ensures n * Pow10(WIDTH - d) == n * Pow10(WIDTH - k) <==> n == 0 || d == k
  {
    if 0 < n && d < k {
      Pow10Monotone(WIDTH - k, WIDTH - d - 1);
      Pow10Positive(WIDTH - d - 1);
      MulLess(n, Pow10(WIDTH - k), Pow10(WIDTH - d));
    }
  }

  lemma MulLess(n: nat, a: nat, b: nat)
    requires 0 < n && a < b
    ensures n * a < n * b
  {
  }

  // ---------- Texts that are no numbers ----------

  /** A sign or none, and digits. */
  predicate Integer(s: string) {
    Numeral(Unsigned(s))
  }

  function IntegerValue(s: string): int
    requires Integer(s)
  {
    WithSign(s, Value(Unsigned(s)))
  }

  lemma MagnitudeOfInteger(s: string)
    requires Integer(s)
    ensures WithSign(s, Magnitude(s)) == IntegerValue(s)
  {
    assert Unsigned(s)[..|Unsigned(s)|] == Unsigned(s);
  }

  lemma MagnitudeBelow(s: string)
    ensures Magnitude(s) < Pow10(|s|)
  {
    var digits := Unsigned(s)[..LeadingDigits(Unsigned(s))];
    ValueBelow(digits);
    Pow10Monotone(|digits|, |s|);
  }

  /** Ten characters are too few to be out of range. */
  lemma TenCharacters(s: string)
    requires |s| == 10
    ensures ParseInt(s).1 <==> Integer(s)
    ensures Integer(s) ==> ParseInt(s).0 == IntegerValue(s)
  {
    MagnitudeBelow(s);
    Pow10Values();
    if Integer(s) { MagnitudeOfInteger(s); }
  }

  /** The number that parsing gives back, with an error or without. */
  lemma NumberGiven(s: string)
    ensures ParseInt(s).0 == if Integer(s) && InInt64(IntegerValue(s)) then IntegerValue(s)
                             else if !Integer(s) && Magnitude(s) < UINT64_LIMIT then 0
                             else if s[0] == '-' then -INT64_LIMIT else INT64_LIMIT - 1
  {
    if Integer(s) { MagnitudeOfInteger(s); } else if s == "" { assert Value("") == 0; }
  }

  /** Which texts are accepted: those whose first ten characters, padded if there are fewer, are an integer. What
      follows never matters to that, and if it is no integer, the time is that of the seconds alone, unless its
      digits are already too many. */
  lemma ParsedIff(ts: string)
    ensures var padded := Padded(ts);
            var first, rest := padded[..10], padded[10..];
            (Parsed(ts).Some? <==> Integer(first))
            && (Integer(first) && Integer(rest) && InInt64(IntegerValue(rest)) ==>
                  Parsed(ts) == Some(Unix(IntegerValue(first), IntegerValue(rest))))
            && (Integer(first) && !Integer(rest) && Magnitude(rest) < UINT64_LIMIT ==>
                  Parsed(ts) == Some(Time(IntegerValue(first), 0)))
            && (Integer(first) && (Integer(rest) ==> !InInt64(IntegerValue(rest)))
                && (!Integer(rest) ==> UINT64_LIMIT <= Magnitude(rest)) ==>
                  Parsed(ts) == Some(Unix(IntegerValue(first),
                                          if rest[0] == '-' then -INT64_LIMIT else INT64_LIMIT - 1)))
  {
    var first, rest := Padded(ts)[..10], Padded(ts)[10..];
    TenCharacters(first);
    NumberGiven(rest);
  }

  /** A text of at least ten characters that is no integer is accepted exactly if its first ten characters are one,
      and then either what follows begins with a sign, or the error in it goes unnoticed. */
  lemma MalformedAcceptedIff(ts: string)
    requires 10 <= |ts| && !Integer(ts)
    ensures Parsed(ts).Some? <==> Integer(ts[..10])
    ensures Parsed(ts).Some? ==> Signed(Padded(ts)[10..]) || !ParseInt(Padded(ts)[10..]).1
  {
    ParsedIff(ts);
    var first, rest := Padded(ts)[..10], Padded(ts)[10..];
    assert first == ts[..10];
    assert ts <= Padded(ts) && Padded(ts) == first + rest;
    if Integer(first) && Numeral(rest) { IntegerBegins(ts, first, rest); }
  }

  lemma IntegerBegins(ts: string, first: string, rest: string)
    requires Integer(first) && Numeral(rest) && ts <= first + rest && |first| <= |ts|
    ensures Integer(ts)
  {
    assert Unsigned(first + rest) == Unsigned(first) + rest;
    assert Unsigned(ts) <= Unsigned(first + rest);
  }

  /** A number in scientific notation, which is one in JSON, loses its exponent. */
  lemma ExponentIsLost()
    ensures Parsed("1600000000e3") == Some(Time(1_600_000_000, 0))
  {
    var ts := "1600000000e3";
    var first, rest := Padded(ts)[..10], Padded(ts)[10..];
    assert first == "1600000000" && rest[0] == 'e' && Unsigned(first) == first;
    DigitsOfSixteen(first);
    LettersAreNoInteger(rest);
    ParsedIff(ts);
  }

  lemma LettersAreNoInteger(s: string)
    requires s != "" && s[0] == 'e'
    ensures !Integer(s) && Magnitude(s) == 0
  {
    assert s[..0] == "";
  }

  lemma DigitsOfSixteen(s: string)
    requires s == "1600000000"
    ensures Numeral(s) && Value(s) == 1_600_000_000
  {
    assert s == "16" + Zeros(8);
    ValueConcat("16", Zeros(8));
    ValueOfZeros(8);
    assert "16"[..1] == "1" && "1"[..0] == "";
    assert Value("1") == 1 && Value("16") == 16;
    assert Pow10(8) == 100_000_000;
  }
}
