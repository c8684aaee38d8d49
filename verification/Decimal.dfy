/** Decimal numerals as strconv prints and parses them, and their order as strings. */
module Decimal {
  import opened Options

  const UINT64_LIMIT: nat := 0x1_0000_0000_0000_0000

  predicate IsDigit(ch: char) {
    '0' <= ch <= '9'
  }

  ghost predicate AllDigits(s: string) {
    forall i :: 0 <= i < |s| ==> IsDigit(s[i])
  }

  function DigitChar(d: nat): (ch: char)
    requires d < 10
    ensures IsDigit(ch) && DigitValue(ch) == d
  {
    '0' + d as char
  }

  function DigitValue(ch: char): nat
    requires IsDigit(ch)
  {
    (ch - '0') as nat
  }

  /** strconv.Itoa and strconv.FormatInt in base 10. */
  function Itoa(i: int): string {
    if i < 0 then "-" + Digits(-i) else Digits(i)
  }

  function Digits(n: nat): string {
    if n < 10 then [DigitChar(n)] else Digits(n / 10) + [DigitChar(n % 10)]
  }

  function Value(s: string): nat
    requires AllDigits(s)
  {
    if s == [] then 0 else 10 * Value(s[..|s| - 1]) + DigitValue(s[|s| - 1])
  }

  predicate Numeral(s: string) {
    s != [] && forall i :: 0 <= i < |s| ==> IsDigit(s[i])
  }

  /** strconv.ParseUint(s, 10, 64). */
  function ParseUint(s: string): Option<nat> {
    if Numeral(s) && Value(s) < UINT64_LIMIT then Some(Value(s)) else None
  }

  function Pow10(k: nat): nat {
    if k == 0 then 1 else 10 * Pow10(k - 1)
  }

  function Zeros(k: nat): string {
    seq(k, _ => '0')
  }

  /** fmt.Sprintf with a zero-padded width. */
  function Pad(s: string, width: nat): string {
    Zeros(if |s| < width then width - |s| else 0) + s
  }

  /** Byte order of strings. */
  predicate Less(a: string, b: string) {
    b != [] && (a == [] || a[0] < b[0] || (a[0] == b[0] && Less(a[1..], b[1..])))
  }

  // ---------- Printing and parsing ----------

  lemma {:induction false} DigitsRoundTrip(n: nat)
    ensures Numeral(Digits(n)) && Value(Digits(n)) == n
  {
    if n >= 10 {
      DigitsRoundTrip(n / 10);
      var s := Digits(n);
      assert s[..|s| - 1] == Digits(n / 10);
    } else {
      assert Digits(n)[..0] == [];
    }
  }

  lemma DigitsInjective(m: nat, n: nat)
    requires Digits(m) == Digits(n)
    ensures m == n
  {
    DigitsRoundTrip(m);
    DigitsRoundTrip(n);
  }

  lemma Pow10Positive(k: nat)
    ensures 0 < Pow10(k)
  {
  }

  /** A number has `k` digits exactly when it lies between two powers of ten. */
  lemma {:induction false} DigitCount(n: nat, k: nat)
    requires 0 < n && 0 < k
    ensures |Digits(n)| == k <==> Pow10(k - 1) <= n < Pow10(k)
    decreases n
  {
    Pow10Positive(k - 1);
    if n >= 10 {
      if k > 1 {
        DigitCount(n / 10, k - 1);
      } else {
        DigitsRoundTrip(n / 10);
      }
    } else if k > 1 {
      Pow10Positive(k - 2);
    }
  }

  lemma {:induction false} Pow10Monotone(j: nat, k: nat)
    requires j <= k
    ensures Pow10(j) <= Pow10(k)
  {
    if j < k { Pow10Monotone(j, k - 1); }
  }

  lemma {:induction false} Pow10Sum(j: nat, k: nat)
    ensures Pow10(j + k) == Pow10(j) * Pow10(k)
  {
    if k > 0 {
      Pow10Sum(j, k - 1);
      ShiftDigit(Pow10(j), Pow10(k - 1), 0);
    }
  }

  lemma Pow10Values()
    ensures Pow10(3) == 1_000 && Pow10(6) == 1_000_000 && Pow10(9) == 1_000_000_000
    ensures Pow10(10) == 10_000_000_000 && Pow10(20) == 100_000_000_000_000_000_000
  {
    assert Pow10(2) == 100;
    Pow10Sum(3, 3);
    Pow10Sum(6, 3);
    Pow10Sum(10, 10);
  }

  lemma DigitsFit(n: nat, k: nat)
    requires n < Pow10(k) && 0 < k
    ensures |Digits(n)| <= k
  {
    if 0 < n && k < |Digits(n)| {
      DigitCount(n, |Digits(n)|);
      Pow10Monotone(k, |Digits(n)| - 1);
    }
  }

  lemma {:induction false} ValueConcat(a: string, b: string)
    requires AllDigits(a) && AllDigits(b)
    ensures AllDigits(a + b) && Value(a + b) == Value(a) * Pow10(|b|) + Value(b)
    decreases b
  {
    if b == [] {
      assert a + b == a;
    } else {
      var front := b[..|b| - 1];
      ValueConcat(a, front);
      assert (a + b)[..|a + b| - 1] == a + front;
      ShiftDigit(Value(a), Pow10(|front|), Value(front));
    }
  }

  lemma ShiftDigit(v: nat, p: nat, w: nat)
    ensures 10 * (v * p + w) == v * (10 * p) + 10 * w
  {
  }

  lemma {:induction false} ValueBelow(s: string)
    requires AllDigits(s)
    ensures Value(s) < Pow10(|s|)
    decreases s
  {
    if s != [] { ValueBelow(s[..|s| - 1]); }
  }

  lemma {:induction false} ValueOfZeros(k: nat)
    ensures AllDigits(Zeros(k)) && Value(Zeros(k)) == 0
  {
    if k > 0 {
      ValueOfZeros(k - 1);
      assert Zeros(k)[..k - 1] == Zeros(k - 1);
    }
  }

  lemma PadKeepsValue(s: string, width: nat)
    requires AllDigits(s)
    ensures AllDigits(Pad(s, width)) && Value(Pad(s, width)) == Value(s)
    ensures |s| <= width ==> |Pad(s, width)| == width
  {
    var k := if |s| < width then width - |s| else 0;
    ValueOfZeros(k);
    ValueConcat(Zeros(k), s);
  }

  // ---------- Order ----------

  lemma {:induction false} LessIrreflexive(a: string)
    ensures !Less(a, a)
    decreases a
  {
    if a != [] { LessIrreflexive(a[1..]); }
  }

  lemma {:induction false} LessTransitive(a: string, b: string, c: string)
    requires !Less(b, a) && !Less(c, b)
    ensures !Less(c, a)
    decreases a
  {
    if a != [] && b != [] && c != [] && a[0] == b[0] == c[0] { LessTransitive(a[1..], b[1..], c[1..]); }
  }

  lemma {:induction false} LessAsymmetric(a: string, b: string)
    requires Less(a, b)
    ensures !Less(b, a)
    decreases a
  {
    if a != [] && a[0] == b[0] { LessAsymmetric(a[1..], b[1..]); }
  }

  lemma {:induction false} LessChain(a: string, b: string, c: string)
    requires Less(a, b) && Less(b, c)
    ensures Less(a, c)
    decreases a
  {
    if a != [] && a[0] == b[0] == c[0] { LessChain(a[1..], b[1..], c[1..]); }
  }

  lemma {:induction false} LessThanExtension(a: string, b: string, tail: string)
    requires Less(a, b)
    ensures Less(a, b + tail)
    decreases a
  {
    if a != [] && a[0] == b[0] {
      LessThanExtension(a[1..], b[1..], tail);
      assert (b + tail)[1..] == b[1..] + tail;
    }
  }

  /** Strings that differ within the shorter one's length are ordered by that part. */
  lemma {:induction false} LessByPrefix(a: string, b: string, x: string)
    requires |a| == |b| && Less(a, b)
    ensures Less(a + x, b)
    decreases a
  {
    if a[0] == b[0] {
      LessByPrefix(a[1..], b[1..], x);
      assert (a + x)[1..] == a[1..] + x;
    }
  }

  lemma {:induction false} LessUnderPrefix(p: string, a: string, b: string)
    ensures Less(p + a, p + b) <==> Less(a, b)
    decreases p
  {
    if p == [] {
      assert p + a == a && p + b == b;
    } else {
      LessUnderPrefix(p[1..], a, b);
      assert (p + a)[1..] == p[1..] + a && (p + b)[1..] == p[1..] + b;
    }
  }

  /** Among numerals of one width the byte order is the order of the numbers. */
  lemma {:induction false} LessIsNumeric(a: string, b: string)
    requires AllDigits(a) && AllDigits(b) && |a| == |b|
    ensures Less(a, b) <==> Value(a) < Value(b)
    decreases a
  {
    if a != [] {
      var x, y := a[1..], b[1..];
      LessIsNumeric(x, y);
      assert a == [a[0]] + x && b == [b[0]] + y;
      ValueConcat([a[0]], x);
      ValueConcat([b[0]], y);
      ValueBelow(x);
      ValueBelow(y);
      SingleValue(a[0]);
      SingleValue(b[0]);
      LeadingDigit(DigitValue(a[0]), DigitValue(b[0]), Pow10(|x|), Value(x), Value(y));
    }
  }

  lemma LeadingDigit(d: nat, e: nat, p: nat, v: nat, w: nat)
    requires v < p && w < p
    ensures d * p + v < e * p + w <==> d < e || (d == e && v < w)
  {
    if d < e {
      ProductGap(d, e, p);
    } else if e < d {
      ProductGap(e, d, p);
    }
  }

  lemma ProductGap(d: nat, e: nat, p: nat)
    requires d < e
    ensures d * p + p <= e * p
  {
    var gap := e - d - 1;
    assert e == d + 1 + gap;
    assert e * p == d * p + p + gap * p;
  }

  lemma SingleValue(ch: char)
    requires IsDigit(ch)
    ensures Value([ch]) == DigitValue(ch)
  {
    assert [ch][..0] == [];
  }
}
