/** The one-pass header list tokenizer of http/middleware/cors/utils.go. */
module HeaderList {

  predicate IsLower(ch: char) { 'a' <= ch <= 'z' }

  predicate IsUpper(ch: char) { 'A' <= ch <= 'Z' }

  predicate IsLetter(ch: char) { IsLower(ch) || IsUpper(ch) }

  predicate IsSeparator(ch: char) { ch == ' ' || ch == ',' }

  /** After one of these a letter becomes a capital. */
  predicate IsBreak(ch: char) { ch == '-' || ch == '_' }

  predicate IsToken(ch: char) { IsLetter(ch) || IsBreak(ch) || '0' <= ch <= '9' }

  function ToLower(ch: char): char {
    if IsUpper(ch) then ch + 32 as char else ch
  }

  /** What a character adds to the current header. */
  function Emit(ch: char, upper: bool): string {
    if IsLower(ch) then (if upper then [ch - 32 as char] else [ch])
    else if IsUpper(ch) then (if !upper then [ch + 32 as char] else [ch])
    else if IsToken(ch) then [ch]
    else ""
  }

  /** The headers that come from the rest of the list, with the loop's variables as they are. */
  function Scan(rest: string, h: string, upper: bool): seq<string>
    decreases |rest|
  {
    if rest == [] then [] else
    var h' := h + Emit(rest[0], upper);
    if IsSeparator(rest[0]) || |rest| == 1 then
      if h' != [] then [h'] + Scan(rest[1..], "", true) else Scan(rest[1..], h', upper)
    else
      Scan(rest[1..], h', IsBreak(rest[0]))
  }

  method ParseHeaderList(headerList: string) returns (headers: seq<string>)
    ensures headers == Scan(headerList, "", true)
    ensures Bares(headers) == NonEmptyBares(Split(headerList))
  {
    var l := |headerList|;
    var h, upper := "", true;
    HeadersAreParts(headerList);
    headers := [];
    var i := 0;
    while i < l
      invariant 0 <= i <= l
      invariant headers + Scan(headerList[i..], h, upper) == Scan(headerList, "", true)
    {
      var b := headerList[i];
      ghost var h0, upper0 := h, upper;
      if IsLower(b) {
        h := h + if upper then [b - 32 as char] else [b];
      } else if IsUpper(b) {
        h := h + if !upper then [b + 32 as char] else [b];
      } else if b == '-' || b == '_' || '0' <= b <= '9' {
        h := h + [b];
      }
      assert h == h0 + Emit(b, upper0);
      assert headerList[i..][0] == b && headerList[i..][1..] == headerList[i + 1..];
      if b == ' ' || b == ',' || i == l - 1 {
        if |h| > 0 {
          headers := headers + [h];
          h := "";
          upper := true;
        }
      } else {
        upper := b == '-' || b == '_';
      }
      i := i + 1;
    }
  }

  // ---------- Splitting and normalizing ----------

  /** The parts between the separators, empty ones included. */
  function Split(s: string): (parts: seq<string>)
    ensures parts != []
  {
    if s == [] then [""]
    else if s[0] == ' ' || s[0] == ',' then [""] + Split(s[1..])
    else var parts := Split(s[1..]); [[s[0]] + parts[0]] + parts[1..]
  }

  /** A part with its letters' case set by what comes before them, and without characters of no header. */
  function Normal(part: string, upper: bool): string {
    if part == [] then "" else Emit(part[0], upper) + Normal(part[1..], IsBreak(part[0]))
  }

  /** Splitting, normalizing each part on its own, and dropping the empty ones. */
  function Headers(parts: seq<string>): seq<string> {
    if parts == [] then []
    else (if Normal(parts[0], true) == "" then [] else [Normal(parts[0], true)]) + Headers(parts[1..])
  }

  /** The same with the one thing that the loop carries over a part without a header: after such a part, unless
      it is empty, the next header does not begin with a capital. */
  function CarriedHeaders(parts: seq<string>, upper: bool): seq<string> {
    if parts == [] then []
    else
      var h := Normal(parts[0], upper);
      if h != "" then [h] + CarriedHeaders(parts[1..], true)
      else CarriedHeaders(parts[1..], upper && parts[0] == "")
  }

  /** The headers of the parts when `h` is already there for the first of them. */
  function HeadersAfter(h: string, parts: seq<string>, upper: bool): seq<string>
    requires parts != []
  {
    var first := h + Normal(parts[0], upper);
    if first != "" then [first] + CarriedHeaders(parts[1..], true)
    else CarriedHeaders(parts[1..], upper && parts[0] == "")
  }

  lemma AfterNothing(parts: seq<string>, upper: bool)
    requires parts != []
    ensures HeadersAfter("", parts, upper) == CarriedHeaders(parts, upper)
  {
    assert "" + Normal(parts[0], upper) == Normal(parts[0], upper);
  }

  lemma SeparatorStep(ch: char, tail: string, h: string, upper: bool)
    requires IsSeparator(ch)
    requires forall u :: Scan(tail, "", u) == HeadersAfter("", Split(tail), u)
    ensures Scan([ch] + tail, h, upper) == HeadersAfter(h, Split([ch] + tail), upper)
  {
    var rest, parts := [ch] + tail, Split(tail);
    assert rest[1..] == tail && Emit(ch, upper) == "" && h + "" == h;
    assert Split(rest) == [""] + parts && ([""] + parts)[1..] == parts;
    assert Normal("", upper) == "";
    AfterNothing(parts, true);
    AfterNothing(parts, upper);
  }

  lemma LastCharacter(ch: char, h: string, upper: bool)
    requires !IsSeparator(ch)
    ensures Scan([ch], h, upper) == HeadersAfter(h, Split([ch]), upper)
  {
    var h' := h + Emit(ch, upper);
    assert [ch][1..] == "" && [ch] + "" == [ch] && Split("") == [""] && Split([ch]) == [[ch]];
    assert Normal("", IsBreak(ch)) == "" && h + (Emit(ch, upper) + "") == h';
    assert [[ch]][1..] == [] && Scan("", "", true) == [] && Scan("", h', upper) == [];
  }

  lemma SplitCharacter(ch: char, tail: string)
    requires !IsSeparator(ch)
    ensures Split([ch] + tail) == [[ch] + Split(tail)[0]] + Split(tail)[1..]
    ensures Split([ch] + tail)[0] == [ch] + Split(tail)[0] && Split([ch] + tail)[1..] == Split(tail)[1..]
  {
    assert ([ch] + tail)[1..] == tail;
  }

  lemma NormalCharacter(ch: char, part: string, h: string, upper: bool)
    ensures h + Normal([ch] + part, upper) == (h + Emit(ch, upper)) + Normal(part, IsBreak(ch))
  {
    assert ([ch] + part)[1..] == part;
  }

  lemma AfterCharacter(ch: char, parts: seq<string>, rest: seq<string>, h: string, upper: bool)
    requires !IsSeparator(ch) && parts != [] && rest != []
    requires rest[0] == [ch] + parts[0] && rest[1..] == parts[1..]
    ensures HeadersAfter(h, rest, upper) == HeadersAfter(h + Emit(ch, upper), parts, IsBreak(ch))
  {
    NormalCharacter(ch, parts[0], h, upper);
    if h + Emit(ch, upper) == "" { assert !IsBreak(ch); }
  }

  lemma CharacterStep(ch: char, tail: string, h: string, upper: bool)
    requires !IsSeparator(ch) && tail != []
    requires var h' := h + Emit(ch, upper);
             Scan(tail, h', IsBreak(ch)) == HeadersAfter(h', Split(tail), IsBreak(ch))
    ensures Scan([ch] + tail, h, upper) == HeadersAfter(h, Split([ch] + tail), upper)
  {
    SplitCharacter(ch, tail);
    AfterCharacter(ch, Split(tail), Split([ch] + tail), h, upper);
    assert ([ch] + tail)[1..] == tail;
  }

  lemma {:induction false} ScanIsCarried(rest: string, h: string, upper: bool)
    requires rest != [] || h == []
    ensures Scan(rest, h, upper) == HeadersAfter(h, Split(rest), upper)
    decreases |rest|
  {
    if rest != [] {
      var ch, tail := rest[0], rest[1..];
      assert rest == [ch] + tail;
      if IsSeparator(ch) {
        forall u ensures Scan(tail, "", u) == HeadersAfter("", Split(tail), u) {
          ScanIsCarried(tail, "", u);
        }
        SeparatorStep(ch, tail, h, upper);
      } else {
        if tail == [] {
          LastCharacter(ch, h, upper);
        } else {
          ScanIsCarried(tail, h + Emit(ch, upper), IsBreak(ch));
          CharacterStep(ch, tail, h, upper);
        }
      }
    } else {
      assert Normal("", upper) == "" && [""][1..] == [];
    }
  }

  // ---------- When the two agree ----------

  /** Some part has characters, but none of a header, and the next part with a header begins with a letter. */
  predicate LetterAfterJunk(parts: seq<string>, junk: bool) {
    parts != [] &&
    if Normal(parts[0], true) != "" then
      (junk && IsLetter(parts[0][0])) || LetterAfterJunk(parts[1..], false)
    else
      LetterAfterJunk(parts[1..], junk || parts[0] != "")
  }

  lemma NormalFirst(part: string)
    ensures Normal(part, false) == Normal(part, true) <==> part == "" || !IsLetter(part[0])
    ensures Normal(part, false) == "" <==> Normal(part, true) == ""
  {
    if part != "" {
      var rest := Normal(part[1..], IsBreak(part[0]));
      var a, b := Emit(part[0], false) + rest, Emit(part[0], true) + rest;
      if IsLetter(part[0]) { assert a[0] != b[0]; }
    }
  }

  lemma {:induction false} CarriedIffClean(parts: seq<string>, upper: bool)
    ensures CarriedHeaders(parts, upper) == Headers(parts) <==> !LetterAfterJunk(parts, !upper)
    decreases |parts|
  {
    if parts != [] {
      NormalFirst(parts[0]);
      var h, first := Normal(parts[0], upper), Normal(parts[0], true);
      if first != "" {
        CarriedIffClean(parts[1..], true);
        ConsEqual(h, CarriedHeaders(parts[1..], true), first, Headers(parts[1..]));
      } else {
        CarriedIffClean(parts[1..], upper && parts[0] == "");
      }
    }
  }

  lemma ConsEqual(a: string, s: seq<string>, b: string, t: seq<string>)
    ensures [a] + s == [b] + t <==> a == b && s == t
  {
    if [a] + s == [b] + t {
      assert ([a] + s)[0] == ([b] + t)[0] && ([a] + s)[1..] == ([b] + t)[1..];
      assert ([a] + s)[1..] == s && ([b] + t)[1..] == t;
    }
  }

  /** The one pass is splitting and normalizing, exactly unless a letter follows a part of junk. */
  lemma ScanIsSplitIff(s: string)
    ensures Scan(s, "", true) == Headers(Split(s)) <==> !LetterAfterJunk(Split(s), false)
  {
    ScanIsCarried(s, "", true);
    assert "" + Normal(Split(s)[0], true) == Normal(Split(s)[0], true);
    CarriedIffClean(Split(s), true);
  }

  /** Letters, digits, breaks and separators only. */
  predicate Plain(s: string) {
    forall i :: 0 <= i < |s| ==>
      'a' <= s[i] <= 'z' || 'A' <= s[i] <= 'Z' || '0' <= s[i] <= '9'
      || s[i] == '-' || s[i] == '_' || s[i] == ' ' || s[i] == ','
  }

  lemma {:induction false} PlainHasNoJunk(s: string)
    requires Plain(s)
    ensures forall i :: 0 <= i < |Split(s)| ==> forall j :: 0 <= j < |Split(s)[i]| ==> IsToken(Split(s)[i][j])
    decreases |s|
  {
    if s != [] { PlainHasNoJunk(s[1..]); }
  }

  lemma {:induction false} NoJunkNoLetterAfter(parts: seq<string>)
    requires forall i :: 0 <= i < |parts| ==> forall j :: 0 <= j < |parts[i]| ==> IsToken(parts[i][j])
    ensures !LetterAfterJunk(parts, false)
    decreases |parts|
  {
    if parts != [] { NoJunkNoLetterAfter(parts[1..]); }
  }

  /** So on plain input the one pass is splitting and normalizing. */
  lemma PlainScanIsSplit(s: string)
    requires Plain(s)
    ensures Scan(s, "", true) == Headers(Split(s))
  {
    PlainHasNoJunk(s);
    NoJunkNoLetterAfter(Split(s));
    ScanIsSplitIff(s);
  }

  /** With junk before a letter they differ: the first header below stays without its capital. */
  lemma JunkMatters()
    ensures LetterAfterJunk(Split("$ a"), false) && Scan("$ a", "", true) != Headers(Split("$ a"))
  {
    var s := "$ a";
    assert s[1..] == " a" && " a"[1..] == "a" && "a"[1..] == "";
    assert ['a'] + "" == "a" && ['$'] + "" == "$" && [""][1..] == [];
    assert Split("") == [""] && Split("a") == ["a"];
    assert Split(" a") == ["", "a"] && ["", "a"][1..] == ["a"];
    assert Split(s) == ["$", "a"];
    assert ["$", "a"][1..] == ["a"];
    assert "$"[1..] == "" && Normal("$", true) == "" && Normal("a", true)[0] == 'A';
    ScanIsSplitIff(s);
  }

  // ---------- Case ----------

  /** The case of the input never matters. */
  lemma {:induction false} CaseInsensitive(a: string, b: string, h: string, upper: bool)
    requires |a| == |b| && forall i :: 0 <= i < |a| ==> ToLower(a[i]) == ToLower(b[i])
    ensures Scan(a, h, upper) == Scan(b, h, upper)
    decreases |a|
  {
    if a != [] {
      assert ToLower(a[0]) == ToLower(b[0]);
      var h' := h + Emit(a[0], upper);
      assert h' == h + Emit(b[0], upper);
      CaseInsensitive(a[1..], b[1..], "", true);
      CaseInsensitive(a[1..], b[1..], h', upper);
      CaseInsensitive(a[1..], b[1..], h', IsBreak(a[0]));
    }
  }

  /** The letters in lower case, the digits, and the signs '-' and '_' of a text. */
  function Bare(s: string): string {
    if s == [] then "" else
    var ch := s[0];
    (if 'A' <= ch <= 'Z' then [ch + 32 as char]
     else if 'a' <= ch <= 'z' || '0' <= ch <= '9' || ch == '-' || ch == '_' then [ch]
     else "") + Bare(s[1..])
  }

  function NonEmptyBares(parts: seq<string>): seq<string> {
    if parts == [] then []
    else (if Bare(parts[0]) == "" then [] else [Bare(parts[0])]) + NonEmptyBares(parts[1..])
  }

  function Bares(headers: seq<string>): seq<string> {
    seq(|headers|, i requires 0 <= i < |headers| => Bare(headers[i]))
  }

  lemma BareCons(ch: char, rest: string)
    ensures Bare([ch] + rest) == Bare([ch]) + Bare(rest)
  {
    assert ([ch] + rest)[1..] == rest && [ch][1..] == "";
    assert Bare("") == "" && Bare([ch]) + "" == Bare([ch]);
  }

  lemma EmitIsBare(ch: char, upper: bool)
    ensures Emit(ch, upper) == "" <==> Bare([ch]) == ""
    ensures var e := Emit(ch, upper); e != "" ==> Bare([e[0]]) == Bare([ch]) && e == [e[0]]
  {
    assert [ch][1..] == "" && Bare("") == "";
    var e := Emit(ch, upper);
    if e != "" { assert [e[0]][1..] == ""; }
  }

  /** Normalizing changes nothing but the case of letters, and drops what no header has. */
  lemma {:induction false} NormalIsBare(part: string, upper: bool)
    ensures Bare(Normal(part, upper)) == Bare(part) && (Normal(part, upper) == "" <==> Bare(part) == "")
    decreases |part|
  {
    if part != [] {
      var e, rest := Emit(part[0], upper), Normal(part[1..], IsBreak(part[0]));
      NormalIsBare(part[1..], IsBreak(part[0]));
      EmitIsBare(part[0], upper);
      BareCons(part[0], part[1..]);
      assert part == [part[0]] + part[1..];
      if e == "" {
        assert e + rest == rest && "" + Bare(part[1..]) == Bare(part[1..]);
      } else {
        BareCons(e[0], rest);
        assert e + rest == [e[0]] + rest;
      }
    }
  }

  lemma BaresCons(h: string, rest: seq<string>)
    ensures Bares([h] + rest) == [Bare(h)] + Bares(rest)
  {
  }

  lemma {:induction false} CarriedAreBares(parts: seq<string>, upper: bool)
    ensures Bares(CarriedHeaders(parts, upper)) == NonEmptyBares(parts)
    decreases |parts|
  {
    if parts != [] {
      var h := Normal(parts[0], upper);
      NormalIsBare(parts[0], upper);
      if h != "" {
        CarriedAreBares(parts[1..], true);
        BaresCons(h, CarriedHeaders(parts[1..], true));
      } else {
        CarriedAreBares(parts[1..], upper && parts[0] == "");
      }
    }
  }

  /** Up to the case of letters, the headers of every input are its parts without the characters that no header has,
      in order, those without any left out. */
  lemma HeadersAreParts(s: string)
    ensures Bares(Scan(s, "", true)) == NonEmptyBares(Split(s))
  {
    ScanIsCarried(s, "", true);
    AfterNothing(Split(s), true);
    CarriedAreBares(Split(s), true);
  }

  /** Character `j` is at the beginning, if `first` counts as one, or right after '-' or '_'. */
  predicate Starts(h: string, j: nat, first: bool)
    requires j < |h|
  {
    if j == 0 then first else h[j - 1] == '-' || h[j - 1] == '_'
  }

  /** A capital can only be where a word starts. */
  ghost predicate CapitalsInPlace(h: string, first: bool) {
    forall j: nat :: j < |h| && 'A' <= h[j] <= 'Z' ==> Starts(h, j, first)
  }

  /** And there every letter is a capital. */
  ghost predicate WellCased(h: string, first: bool) {
    CapitalsInPlace(h, first) && forall j: nat :: j < |h| && Starts(h, j, first) ==> !('a' <= h[j] <= 'z')
  }

  /** What character `i` of a part becomes: letters are capitals where a word starts in the part and small elsewhere. */
  function Shown(part: string, i: nat, first: bool): string
    requires i < |part|
  {
    var ch := part[i];
    if 'a' <= ch <= 'z' then [if Starts(part, i, first) then ch - 32 as char else ch]
    else if 'A' <= ch <= 'Z' then [if Starts(part, i, first) then ch else ch + 32 as char]
    else if '0' <= ch <= '9' || ch == '-' || ch == '_' then [ch]
    else ""
  }

  function ShownFrom(part: string, i: nat, first: bool): string
    requires i <= |part|
    decreases |part| - i
  {
    if i == |part| then "" else Shown(part, i, first) + ShownFrom(part, i + 1, first)
  }

  lemma EmitIsShown(part: string, i: nat, first: bool)
    requires i < |part|
    ensures Emit(part[i], if i == 0 then first else IsBreak(part[i - 1])) == Shown(part, i, first)
  {
  }

  lemma NormalStep(part: string, i: nat, upper: bool)
    requires i < |part|
    ensures Normal(part[i..], upper) == Emit(part[i], upper) + Normal(part[i + 1..], IsBreak(part[i]))
  {
    assert part[i..][0] == part[i] && part[i..][1..] == part[i + 1..];
  }

  lemma {:induction false} NormalFrom(part: string, i: nat, first: bool)
    requires i <= |part|
    ensures Normal(part[i..], if i == 0 then first else IsBreak(part[i - 1])) == ShownFrom(part, i, first)
    decreases |part| - i
  {
    if i < |part| {
      NormalFrom(part, i + 1, first);
      NormalStep(part, i, if i == 0 then first else IsBreak(part[i - 1]));
      EmitIsShown(part, i, first);
    }
  }

  /** Character by character, the normalized form of every part, junk included: what matters is the character right
      before in the part, whether a header has it or not. */
  lemma NormalIsShown(part: string, first: bool)
    ensures Normal(part, first) == ShownFrom(part, 0, first)
  {
    NormalFrom(part, 0, first);
    assert part[0..] == part;
  }

  lemma StartsCons(e: char, rest: string, first: bool, j: nat)
    requires j <= |rest|
    ensures ([e] + rest)[j] == if j == 0 then e else rest[j - 1]
    ensures Starts([e] + rest, j, first) == if j == 0 then first else Starts(rest, j - 1, e == '-' || e == '_')
  {
    if j > 1 { assert ([e] + rest)[j - 1] == rest[j - 2]; }
  }

  lemma CapitalsCons(e: char, rest: string, first: bool)
    requires CapitalsInPlace(rest, e == '-' || e == '_') && ('A' <= e <= 'Z' ==> first)
    ensures CapitalsInPlace([e] + rest, first)
  {
    forall j: nat | j < |[e] + rest| && 'A' <= ([e] + rest)[j] <= 'Z' ensures Starts([e] + rest, j, first) {
      StartsCons(e, rest, first, j);
    }
  }

  lemma WellCasedCons(e: char, rest: string, first: bool)
    requires WellCased(rest, e == '-' || e == '_')
    requires ('A' <= e <= 'Z' ==> first) && ('a' <= e <= 'z' ==> !first)
    ensures WellCased([e] + rest, first)
  {
    CapitalsCons(e, rest, first);
    forall j: nat | j < |[e] + rest| && Starts([e] + rest, j, first) ensures !('a' <= ([e] + rest)[j] <= 'z') {
      StartsCons(e, rest, first, j);
    }
  }

  lemma {:induction false} NormalCapitals(part: string, upper: bool)
    ensures CapitalsInPlace(Normal(part, upper), upper)
    decreases |part|
  {
    if part != [] {
      var e, rest := Emit(part[0], upper), Normal(part[1..], IsBreak(part[0]));
      NormalCapitals(part[1..], IsBreak(part[0]));
      if e == "" {
        assert e + rest == rest;
      } else {
        CapitalsCons(e[0], rest, upper);
        assert e + rest == [e[0]] + rest;
      }
    }
  }

  lemma {:induction false} NormalWellCased(part: string, upper: bool)
    requires forall i :: 0 <= i < |part| ==> IsToken(part[i])
    ensures WellCased(Normal(part, upper), upper)
    decreases |part|
  {
    if part != [] {
      var e, rest := Emit(part[0], upper), Normal(part[1..], IsBreak(part[0]));
      NormalWellCased(part[1..], IsBreak(part[0]));
      WellCasedCons(e[0], rest, upper);
      assert e + rest == [e[0]] + rest;
    }
  }

  ghost predicate AllCapitalsInPlace(headers: seq<string>) {
    forall i :: 0 <= i < |headers| ==> CapitalsInPlace(headers[i], true)
  }

  lemma AllCapitalsCons(h: string, upper: bool, rest: seq<string>)
    requires CapitalsInPlace(h, upper) && AllCapitalsInPlace(rest)
    ensures AllCapitalsInPlace([h] + rest)
  {
    forall j: nat | j < |h| && 'A' <= h[j] <= 'Z' ensures Starts(h, j, true) {
      assert Starts(h, j, upper);
    }
    assert CapitalsInPlace(h, true);
  }

  lemma {:induction false} CarriedCapitals(parts: seq<string>, upper: bool)
    ensures AllCapitalsInPlace(CarriedHeaders(parts, upper))
    decreases |parts|
  {
    if parts != [] {
      var h := Normal(parts[0], upper);
      NormalCapitals(parts[0], upper);
      if h != "" {
        CarriedCapitals(parts[1..], true);
        AllCapitalsCons(h, upper, CarriedHeaders(parts[1..], true));
      } else {
        CarriedCapitals(parts[1..], upper && parts[0] == "");
      }
    }
  }

  /** In the headers of every input a capital is only at the beginning or right after '-' or '_'. */
  lemma CapitalsOnlyAtBreaks(s: string)
    ensures AllCapitalsInPlace(Scan(s, "", true))
  {
    ScanIsCarried(s, "", true);
    AfterNothing(Split(s), true);
    CarriedCapitals(Split(s), true);
  }

  lemma {:induction false} HeadersWellCased(parts: seq<string>)
    requires forall i :: 0 <= i < |parts| ==> forall j :: 0 <= j < |parts[i]| ==> IsToken(parts[i][j])
    ensures forall i :: 0 <= i < |Headers(parts)| ==> WellCased(Headers(parts)[i], true)
    decreases |parts|
  {
    if parts != [] {
      NormalWellCased(parts[0], true);
      HeadersWellCased(parts[1..]);
    }
  }

  /** And in those of plain input every letter there is one. */
  lemma PlainIsWellCased(s: string)
    requires Plain(s)
    ensures forall i :: 0 <= i < |Scan(s, "", true)| ==> WellCased(Scan(s, "", true)[i], true)
  {
    PlainScanIsSplit(s);
    PlainHasNoJunk(s);
    HeadersWellCased(Split(s));
  }

  // ---------- Idempotence ----------

  function JoinList(headers: seq<string>): string {
    if headers == [] then "" else if |headers| == 1 then headers[0]
    else headers[0] + ", " + JoinList(headers[1..])
  }

  predicate TokenText(s: string) {
    forall i :: 0 <= i < |s| ==> IsToken(s[i])
  }

  ghost predicate TokenTexts(headers: seq<string>) {
    forall i :: 0 <= i < |headers| ==> headers[i] != "" && TokenText(headers[i])
  }

  ghost predicate Normalized(headers: seq<string>) {
    forall i :: 0 <= i < |headers| ==> Normal(headers[i], true) == headers[i]
  }

  /** Every header normalized. */
  function Normals(headers: seq<string>): seq<string> {
    seq(|headers|, i requires 0 <= i < |headers| => Normal(headers[i], true))
  }

  lemma {:induction false} NormalOfTokens(part: string, upper: bool)
    requires TokenText(part)
    ensures TokenText(Normal(part, upper)) && |Normal(part, upper)| == |part|
    ensures Normal(Normal(part, upper), upper) == Normal(part, upper)
    decreases |part|
  {
    if part != [] {
      var rest := Normal(part[1..], IsBreak(part[0]));
      NormalOfTokens(part[1..], IsBreak(part[0]));
      var e := Emit(part[0], upper);
      assert |e| == 1 && IsBreak(e[0]) == IsBreak(part[0]) && Emit(e[0], upper) == e;
      assert (e + rest)[1..] == rest;
    }
  }

  lemma {:induction false} HeadersCanonical(parts: seq<string>)
    requires forall i :: 0 <= i < |parts| ==> TokenText(parts[i])
    ensures Normalized(Headers(parts))
    decreases |parts|
  {
    if parts != [] {
      NormalOfTokens(parts[0], true);
      HeadersCanonical(parts[1..]);
    }
  }

  lemma {:induction false} EmitIsToken(ch: char, upper: bool)
    ensures TokenText(Emit(ch, upper))
  {
  }

  /** Whatever the input, the headers are made of token characters. */
  lemma {:induction false} ScanTokens(rest: string, h: string, upper: bool)
    requires TokenText(h)
    ensures TokenTexts(Scan(rest, h, upper))
    decreases |rest|
  {
    if rest != [] {
      var h' := h + Emit(rest[0], upper);
      EmitIsToken(rest[0], upper);
      ScanTokens(rest[1..], "", true);
      ScanTokens(rest[1..], h', upper);
      ScanTokens(rest[1..], h', IsBreak(rest[0]));
    }
  }

  lemma {:induction false} SplitTokens(h: string, rest: string)
    requires TokenText(h) && (rest == [] || IsSeparator(rest[0]))
    ensures Split(h + rest) == [h] + Split(rest)[1..]
    decreases |h|
  {
    if h == [] {
      assert h + rest == rest;
    } else {
      SplitTokens(h[1..], rest);
      assert (h + rest)[1..] == h[1..] + rest;
      assert [h[0]] + h[1..] == h;
    }
  }

  /** Splitting a joined list normalizes its headers. */
  lemma {:induction false} HeadersOfJoined(headers: seq<string>)
    requires TokenTexts(headers)
    ensures Headers(Split(JoinList(headers))) == Normals(headers)
    decreases |headers|
  {
    if headers == [] {
      assert Split("") == [""] && [""][1..] == [];
    } else if |headers| == 1 {
      SplitTokens(headers[0], "");
      NormalOfTokens(headers[0], true);
      assert headers[0] + "" == headers[0] && Split("")[1..] == [];
      assert [headers[0]][1..] == [] && Normals(headers) == [Normal(headers[0], true)];
    } else {
      HeadersOfJoined(headers[1..]);
      HeaderBeforeGap(headers[0], JoinList(headers[1..]));
      assert Normals(headers) == [Normal(headers[0], true)] + Normals(headers[1..]);
    }
  }

  lemma HeaderBeforeGap(header: string, tail: string)
    requires header != "" && TokenText(header)
    ensures Headers(Split(header + ", " + tail)) == [Normal(header, true)] + Headers(Split(tail))
  {
    var parts := Split(tail);
    assert header + ", " + tail == header + (", " + tail);
    SplitTokens(header, ", " + tail);
    SplitGap(tail);
    NormalOfTokens(header, true);
    assert (["", ""] + parts)[1..] == [""] + parts && ([""] + parts)[1..] == parts;
    assert ([header] + ([""] + parts))[1..] == [""] + parts;
    assert Normal("", true) == "" && [] + Headers(parts) == Headers(parts);
    assert Headers([""] + parts) == Headers(parts);
  }

  lemma SplitGap(tail: string)
    ensures Split(", " + tail) == ["", ""] + Split(tail)
  {
    var s := ", " + tail;
    assert s[1..] == " " + tail && (" " + tail)[1..] == tail;
  }

  lemma {:induction false} JoinedIsPlain(headers: seq<string>)
    requires TokenTexts(headers)
    ensures Plain(JoinList(headers))
    decreases |headers|
  {
    if |headers| > 1 { JoinedIsPlain(headers[1..]); }
  }

  lemma NormalsSame(headers: seq<string>)
    ensures Normals(headers) == headers <==> Normalized(headers)
  {
    if Normals(headers) == headers {
      forall i | 0 <= i < |headers| ensures Normal(headers[i], true) == headers[i] {
        assert Normals(headers)[i] == headers[i];
      }
    }
  }

  /** Parsing the joined result of parsing gives the same list back if and only if each of its headers is
      normalized already. */
  lemma ParseJoinedIff(s: string)
    ensures var headers := Scan(s, "", true);
            Scan(JoinList(headers), "", true) == headers <==> Normalized(headers)
  {
    var headers := Scan(s, "", true);
    ScanTokens(s, "", true);
    JoinedIsPlain(headers);
    PlainScanIsSplit(JoinList(headers));
    HeadersOfJoined(headers);
    NormalsSame(headers);
  }

  /** Which is so for plain input. */
  lemma ParseJoined(s: string)
    requires Plain(s)
    ensures Scan(JoinList(Scan(s, "", true)), "", true) == Scan(s, "", true)
  {
    PlainScanIsSplit(s);
    PlainHasNoJunk(s);
    HeadersCanonical(Split(s));
    ParseJoinedIff(s);
  }
}
