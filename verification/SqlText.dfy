/** Statements and arguments that are put together apart and must line up: the texts of sqlbuilder/builder.go. */
module SqlText {
  type Arg = int

  datatype Clause = Clause(stmts: seq<string>, args: seq<Arg>)

  datatype Query = Query(base: string, set_: Clause, joins: seq<string>, where_: Clause, groupBy: string,
                         having: Clause, order: seq<string>, limitStmt: string, limitArgs: seq<Arg>)

  datatype Kind = SetKind | WhereKind | HavingKind

  /** One call in a chain. The texts of joins, groups and orders come with their keywords. */
  datatype Call =
    | Add(kind: Kind, stmts: seq<string>, args: seq<Arg>)
    | Limit(offset: int, limit: nat)
    | JoinOn(text: string)
    | GroupBy(text: string)
    | Order(text: string)

  function New(base: string): Query {
    Query(base, Clause([], []), [], Clause([], []), "", Clause([], []), [], "", [])
  }

  function Extend(c: Clause, stmts: seq<string>, args: seq<Arg>): Clause {
    Clause(c.stmts + stmts, c.args + args)
  }

  const LIMIT_TEXT := "LIMIT ?,? "

  function Apply(q: Query, call: Call): Query {
    match call
    case Add(SetKind, stmts, args) => q.(set_ := Extend(q.set_, stmts, args))
    case Add(WhereKind, stmts, args) => q.(where_ := Extend(q.where_, stmts, args))
    case Add(HavingKind, stmts, args) => q.(having := Extend(q.having, stmts, args))
    case Limit(offset, limit) => q.(limitStmt := LIMIT_TEXT, limitArgs := q.limitArgs + [offset, limit])
    case JoinOn(text) => q.(joins := q.joins + [text])
    case GroupBy(text) => q.(groupBy := text)
    case Order(text) => q.(order := q.order + [text])
  }

  function Chain(q: Query, calls: seq<Call>): Query
    decreases |calls|
  {
    if calls == [] then q else Apply(Chain(q, calls[..|calls| - 1]), calls[|calls| - 1])
  }

  /** strings.Join. */
  function Join(texts: seq<string>, sep: string): string {
    if texts == [] then "" else if |texts| == 1 then texts[0] else texts[0] + sep + Join(texts[1..], sep)
  }

  function Separator(kind: Kind): string {
    if kind.SetKind? then "," else " AND "
  }

  function Keyword(kind: Kind): string {
    match kind
    case SetKind => "SET "
    case WhereKind => "WHERE "
    case HavingKind => "HAVING "
  }

  function ClauseText(kind: Kind, c: Clause): string {
    if c.stmts == [] then "" else Keyword(kind) + Join(c.stmts, Separator(kind)) + " "
  }

  function ClauseOf(q: Query, kind: Kind): Clause {
    match kind
    case SetKind => q.set_
    case WhereKind => q.where_
    case HavingKind => q.having
  }

  function Build(q: Query): (string, seq<Arg>) {
    (q.base + " " + (Join(q.joins, " ") + " ") + ClauseText(SetKind, q.set_) + ClauseText(WhereKind, q.where_)
     + q.groupBy + ClauseText(HavingKind, q.having) + (Join(q.order, ",") + " ") + q.limitStmt + ";",
     q.set_.args + q.where_.args + q.having.args + q.limitArgs)
  }

  function BuildFromNewBase(q: Query, base: string): (string, seq<Arg>) {
    (base + " " + (Join(q.joins, " ") + " ") + ClauseText(WhereKind, q.where_) + q.groupBy
     + ClauseText(HavingKind, q.having) + ";",
     q.where_.args + q.having.args)
  }

  // ---------- Counting placeholders ----------

  function Marks(text: string): nat {
    if text == [] then 0 else (if text[0] == '?' then 1 else 0) + Marks(text[1..])
  }

  function MarksIn(texts: seq<string>): nat {
    if texts == [] then 0 else Marks(texts[0]) + MarksIn(texts[1..])
  }

  lemma {:induction false} MarksConcat(a: string, b: string)
    ensures Marks(a + b) == Marks(a) + Marks(b)
    decreases |a|
  {
    if a == [] {
      assert a + b == b;
    } else {
      MarksConcat(a[1..], b);
      assert (a + b)[1..] == a[1..] + b;
    }
  }

  lemma {:induction false} MarksInConcat(a: seq<string>, b: seq<string>)
    ensures MarksIn(a + b) == MarksIn(a) + MarksIn(b)
    decreases |a|
  {
    if a == [] {
      assert a + b == b;
    } else {
      MarksInConcat(a[1..], b);
      assert (a + b)[1..] == a[1..] + b;
    }
  }

  lemma {:induction false} MarksOfJoin(texts: seq<string>, sep: string)
    requires Marks(sep) == 0
    ensures Marks(Join(texts, sep)) == MarksIn(texts)
    decreases |texts|
  {
    if |texts| == 1 {
      assert texts[1..] == [] && MarksIn(texts[1..]) == 0;
    } else if |texts| > 1 {
      MarksOfJoin(texts[1..], sep);
      MarksConcat(texts[0] + sep, Join(texts[1..], sep));
      MarksConcat(texts[0], sep);
    }
  }

  lemma {:induction false} NoMarks(text: string)
    requires '?' !in text
    ensures Marks(text) == 0
    decreases |text|
  {
    if text != [] { NoMarks(text[1..]); }
  }

  // ---------- Segments ----------

  /** A piece of a statement with the arguments for its placeholders. */
  datatype Segment = Segment(text: string, args: seq<Arg>)

  function Text(segments: seq<Segment>): string {
    if segments == [] then "" else segments[0].text + Text(segments[1..])
  }

  function Args(segments: seq<Segment>): seq<Arg> {
    if segments == [] then [] else segments[0].args + Args(segments[1..])
  }

  ghost predicate Aligned(segments: seq<Segment>) {
    forall i :: 0 <= i < |segments| ==> Marks(segments[i].text) == |segments[i].args|
  }

  lemma {:induction false} AlignedCounts(segments: seq<Segment>)
    requires Aligned(segments)
    ensures Marks(Text(segments)) == |Args(segments)|
    decreases |segments|
  {
    if segments != [] {
      AlignedCounts(segments[1..]);
      MarksConcat(segments[0].text, Text(segments[1..]));
    }
  }

  lemma {:induction false} TextConcat(a: seq<Segment>, b: seq<Segment>)
    ensures Text(a + b) == Text(a) + Text(b) && Args(a + b) == Args(a) + Args(b)
    decreases |a|
  {
    if a == [] {
      assert a + b == b;
    } else {
      TextConcat(a[1..], b);
      assert (a + b)[1..] == a[1..] + b;
      assert a[0].text + (Text(a[1..]) + Text(b)) == a[0].text + Text(a[1..]) + Text(b);
      assert a[0].args + (Args(a[1..]) + Args(b)) == a[0].args + Args(a[1..]) + Args(b);
    }
  }

  /** `middle` stands in the text right where its arguments stand among the arguments: as many placeholders
      come before it as arguments before its own. */
  ghost predicate Bound(text: string, args: seq<Arg>, middle: string, own: seq<Arg>, before: string, ahead: nat) {
    && before + middle <= text
    && Marks(before) == ahead && Marks(middle) == |own|
    && ahead + |own| <= |args| && args[ahead..ahead + |own|] == own
  }

  lemma AroundSegment(segments: seq<Segment>, i: nat)
    requires i < |segments|
    ensures Text(segments) == Text(segments[..i]) + segments[i].text + Text(segments[i + 1..])
    ensures Args(segments) == Args(segments[..i]) + segments[i].args + Args(segments[i + 1..])
  {
    TextConcat(segments[..i], segments[i..]);
    assert segments == segments[..i] + segments[i..] && segments[i..][1..] == segments[i + 1..];
    var s, b := segments[i], segments[i + 1..];
    assert Text(segments[..i]) + (s.text + Text(b)) == Text(segments[..i]) + s.text + Text(b);
    assert Args(segments[..i]) + (s.args + Args(b)) == Args(segments[..i]) + s.args + Args(b);
  }

  lemma PrefixInMiddle(a: string, before: string, middle: string, text: string, b: string)
    requires before + middle <= text
    ensures (a + before) + middle <= a + text + b
  {
    var rest := text[|before + middle|..];
    assert text == before + middle + rest;
    assert a + text + b == (a + before) + middle + (rest + b);
  }

  lemma SliceInMiddle(a: seq<Arg>, args: seq<Arg>, b: seq<Arg>, ahead: nat, n: nat)
    requires ahead + n <= |args|
    ensures (a + args + b)[|a| + ahead..|a| + ahead + n] == args[ahead..ahead + n]
  {
  }

  /** What is bound within one of several aligned segments is bound in the whole. */
  lemma BoundInWhole(segments: seq<Segment>, i: nat, middle: string, own: seq<Arg>, before: string, ahead: nat)
    requires i < |segments| && Aligned(segments[..i])
    requires Bound(segments[i].text, segments[i].args, middle, own, before, ahead)
    ensures Bound(Text(segments), Args(segments), middle, own,
                  Text(segments[..i]) + before, |Args(segments[..i])| + ahead)
  {
    var a, s, b := segments[..i], segments[i], segments[i + 1..];
    AroundSegment(segments, i);
    AlignedCounts(a);
    MarksConcat(Text(a), before);
    PrefixInMiddle(Text(a), before, middle, s.text, Text(b));
    SliceInMiddle(Args(a), s.args, Args(b), ahead, |own|);
  }
}
