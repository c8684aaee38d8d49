/** Chains of builder calls, and the builder object of sqlbuilder/builder.go that makes them. */
module SqlChains {
  import opened SqlText

  // ---------- One clause ----------

  lemma {:induction false} JoinConcat(a: seq<string>, b: seq<string>, sep: string)
    requires a != [] && b != []
    ensures Join(a + b, sep) == Join(a, sep) + sep + Join(b, sep)
    decreases |a|
  {
    if |a| == 1 {
      assert (a + b)[1..] == b;
    } else {
      JoinConcat(a[1..], b, sep);
      assert (a + b)[1..] == a[1..] + b;
      assert a[0] + sep + (Join(a[1..], sep) + sep + Join(b, sep)) ==
             a[0] + sep + Join(a[1..], sep) + sep + Join(b, sep);
    }
  }

  /** The text that comes before the statements that follow `a`. */
  function Lead(a: seq<string>, sep: string): string {
    if a == [] then "" else Join(a, sep) + sep
  }

  lemma JoinStarts(a: seq<string>, b: seq<string>, sep: string)
    requires b != [] && Marks(sep) == 0
    ensures Lead(a, sep) + Join(b, sep) == Join(a + b, sep) && Marks(Lead(a, sep)) == MarksIn(a)
  {
    MarksOfJoin(a, sep);
    if a == [] {
      assert a + b == b;
    } else {
      JoinConcat(a, b, sep);
      MarksConcat(Join(a, sep), sep);
    }
  }

  lemma JoinPrefix(a: seq<string>, b: seq<string>, sep: string)
    requires a != [] && a <= b
    ensures Join(a, sep) <= Join(b, sep)
  {
    var c := b[|a|..];
    assert b == a + c;
    if c != [] {
      JoinConcat(a, c, sep);
    } else {
      assert a == b;
    }
  }

  lemma SeparatorPlain(kind: Kind)
    ensures Marks(Separator(kind)) == 0 && Marks(Keyword(kind)) == 0 && Marks(" ") == 0
  {
    NoMarks(Separator(kind));
    NoMarks(Keyword(kind));
    NoMarks(" ");
  }

  lemma ClauseMarks(kind: Kind, c: Clause)
    ensures Marks(ClauseText(kind, c)) == MarksIn(c.stmts)
  {
    if c.stmts != [] {
      SeparatorPlain(kind);
      MarksOfJoin(c.stmts, Separator(kind));
      MarksConcat(Keyword(kind) + Join(c.stmts, Separator(kind)), " ");
      MarksConcat(Keyword(kind), Join(c.stmts, Separator(kind)));
    }
  }

  ghost predicate AlignedClause(c: Clause) {
    MarksIn(c.stmts) == |c.args|
  }

  lemma PrefixBetween(keyword: string, lead: string, middle: string, joined: string, end: string)
    requires lead + middle <= joined
    ensures (keyword + lead) + middle <= keyword + joined + end
  {
    assert (keyword + lead) + middle == keyword + (lead + middle);
  }

  lemma SliceOfPrefix(a: seq<Arg>, b: seq<Arg>, c: seq<Arg>)
    requires a + b <= c
    ensures c[|a|..|a| + |b|] == b
  {
    assert (a + b)[|a|..] == b;
  }

  /** Statements added to an aligned clause are bound to the arguments added with them, whatever is added later. */
  lemma ClauseBound(kind: Kind, before: Clause, stmts: seq<string>, args: seq<Arg>, c: Clause)
    requires AlignedClause(before) && MarksIn(stmts) == |args| && stmts != []
    requires before.stmts + stmts <= c.stmts && before.args + args <= c.args
    ensures Bound(ClauseText(kind, c), c.args, Join(stmts, Separator(kind)), args,
                  Keyword(kind) + Lead(before.stmts, Separator(kind)), |before.args|)
  {
    var sep, lead := Separator(kind), Lead(before.stmts, Separator(kind));
    SeparatorPlain(kind);
    JoinStarts(before.stmts, stmts, sep);
    JoinPrefix(before.stmts + stmts, c.stmts, sep);
    MarksOfJoin(stmts, sep);
    MarksConcat(Keyword(kind), lead);
    PrefixBetween(Keyword(kind), lead, Join(stmts, sep), Join(c.stmts, sep), " ");
    SliceOfPrefix(before.args, args, c.args);
  }

  // ---------- Chains ----------

  /** As many placeholders as arguments in what is added, and none in joins, groups and orders. */
  ghost predicate AlignedCall(call: Call) {
    match call
    case Add(_, stmts, args) => MarksIn(stmts) == |args|
    case Limit(_, _) => true
    case JoinOn(text) => Marks(text) == 0
    case GroupBy(text) => Marks(text) == 0
    case Order(text) => Marks(text) == 0
  }

  function Limits(calls: seq<Call>): nat
    decreases |calls|
  {
    if calls == [] then 0 else Limits(calls[..|calls| - 1]) + if calls[|calls| - 1].Limit? then 1 else 0
  }

  ghost predicate AlignedChain(base: string, calls: seq<Call>) {
    Marks(base) == 0 && forall i :: 0 <= i < |calls| ==> AlignedCall(calls[i])
  }

  ghost predicate AlignedQuery(q: Query) {
    && Marks(q.base) == 0 && MarksIn(q.joins) == 0 && Marks(q.groupBy) == 0 && MarksIn(q.order) == 0
    && AlignedClause(q.set_) && AlignedClause(q.where_) && AlignedClause(q.having)
  }

  lemma ApplyAligned(q: Query, call: Call)
    requires AlignedQuery(q) && AlignedCall(call)
    ensures AlignedQuery(Apply(q, call))
  {
    match call
    case Add(SetKind, stmts, _) => MarksInConcat(q.set_.stmts, stmts);
    case Add(WhereKind, stmts, _) => MarksInConcat(q.where_.stmts, stmts);
    case Add(HavingKind, stmts, _) => MarksInConcat(q.having.stmts, stmts);
    case JoinOn(text) => MarksInConcat(q.joins, [text]); OneText(text);
    case Order(text) => MarksInConcat(q.order, [text]); OneText(text);
    case Limit(_, _) =>
    case GroupBy(_) =>
  }

  lemma {:induction false} ChainAligned(base: string, calls: seq<Call>)
    requires AlignedChain(base, calls)
    ensures AlignedQuery(Chain(New(base), calls))
    decreases |calls|
  {
    if calls != [] {
      var rest := calls[..|calls| - 1];
      ChainAligned(base, rest);
      ApplyAligned(Chain(New(base), rest), calls[|calls| - 1]);
    }
  }

  lemma {:induction false} ChainLimits(base: string, calls: seq<Call>)
    ensures var q := Chain(New(base), calls);
            |q.limitArgs| == 2 * Limits(calls) && q.limitStmt == if Limits(calls) == 0 then "" else LIMIT_TEXT
    decreases |calls|
  {
    if calls != [] { ChainLimits(base, calls[..|calls| - 1]); }
  }

  lemma OneText(text: string)
    ensures MarksIn([text]) == Marks(text)
  {
    assert [text][1..] == [];
  }

  /** Later calls only add to a clause. */
  lemma {:induction false} ChainGrows(q: Query, calls: seq<Call>, i: nat, kind: Kind)
    requires i <= |calls|
    ensures ClauseOf(Chain(q, calls[..i]), kind).stmts <= ClauseOf(Chain(q, calls), kind).stmts
    ensures ClauseOf(Chain(q, calls[..i]), kind).args <= ClauseOf(Chain(q, calls), kind).args
    decreases |calls|
  {
    if i == |calls| {
      assert calls[..i] == calls;
    } else {
      var rest := calls[..|calls| - 1];
      ChainGrows(q, rest, i, kind);
      assert rest[..i] == calls[..i];
    }
  }

  function Segments(q: Query): seq<Segment> {
    [Segment(q.base + " " + (Join(q.joins, " ") + " "), []),
     Segment(ClauseText(SetKind, q.set_), q.set_.args),
     Segment(ClauseText(WhereKind, q.where_), q.where_.args),
     Segment(q.groupBy, []),
     Segment(ClauseText(HavingKind, q.having), q.having.args),
     Segment(Join(q.order, ",") + " ", []),
     Segment(q.limitStmt, q.limitArgs),
     Segment(";", [])]
  }

  function SegmentOf(kind: Kind): nat {
    match kind
    case SetKind => 1
    case WhereKind => 2
    case HavingKind => 4
  }

  lemma SegmentIsClause(q: Query, kind: Kind)
    ensures Segments(q)[SegmentOf(kind)] == Segment(ClauseText(kind, ClauseOf(q, kind)), ClauseOf(q, kind).args)
  {
  }

  lemma OneSegment(s: Segment)
    ensures Text([s]) == s.text && Args([s]) == s.args
  {
    assert [s][1..] == [];
  }

  lemma BuildIsSegments(q: Query)
    ensures Build(q) == (Text(Segments(q)), Args(Segments(q)))
  {
    var s := Segments(q);
    TextConcat([s[0], s[1], s[2], s[3]], [s[4], s[5], s[6], s[7]]);
    assert s == [s[0], s[1], s[2], s[3]] + [s[4], s[5], s[6], s[7]];
    FourSegments(s[0], s[1], s[2], s[3]);
    FourSegments(s[4], s[5], s[6], s[7]);
    EightParts(s[0].text, s[1].text, s[2].text, s[3].text, s[4].text, s[5].text, s[6].text, s[7].text);
    var none: seq<Arg> := [];
    assert none + s[1].args + s[2].args + none + (s[4].args + none + s[6].args + none)
        == s[1].args + s[2].args + s[4].args + s[6].args;
  }

  lemma EightParts(a: string, b: string, c: string, d: string, e: string, f: string, g: string, h: string)
    ensures a + b + c + d + (e + f + g + h) == a + b + c + d + e + f + g + h
  {
  }

  lemma FourSegments(a: Segment, b: Segment, c: Segment, d: Segment)
    ensures Text([a, b, c, d]) == a.text + b.text + c.text + d.text
    ensures Args([a, b, c, d]) == a.args + b.args + c.args + d.args
  {
    TextConcat([a, b], [c, d]);
    TextConcat([a], [b]);
    TextConcat([c], [d]);
    OneSegment(a);
    OneSegment(b);
    OneSegment(c);
    OneSegment(d);
    assert [a, b, c, d] == [a, b] + [c, d] && [a, b] == [a] + [b] && [c, d] == [c] + [d];
  }

  lemma SegmentsAligned(q: Query)
    requires AlignedQuery(q)
    ensures Aligned(Segments(q)[..6])
  {
    ClauseMarks(SetKind, q.set_);
    ClauseMarks(WhereKind, q.where_);
    ClauseMarks(HavingKind, q.having);
    HeadMarks(q.base, q.joins);
    OrderMarks(q.order);
    var s := Segments(q);
    AlignedSix(s[0], s[1], s[2], s[3], s[4], s[5]);
    assert s[..6] == [s[0], s[1], s[2], s[3], s[4], s[5]];
  }

  lemma AlignedSix(a: Segment, b: Segment, c: Segment, d: Segment, e: Segment, f: Segment)
    requires Marks(a.text) == |a.args| && Marks(b.text) == |b.args| && Marks(c.text) == |c.args|
    requires Marks(d.text) == |d.args| && Marks(e.text) == |e.args| && Marks(f.text) == |f.args|
    ensures Aligned([a, b, c, d, e, f]) && Aligned([a, b, c, d, e])
  {
  }

  lemma OrderMarks(order: seq<string>)
    requires MarksIn(order) == 0
    ensures Marks(Join(order, ",") + " ") == 0
  {
    NoMarks(" ");
    NoMarks(",");
    MarksOfJoin(order, ",");
    MarksConcat(Join(order, ","), " ");
  }

  lemma HeadMarks(base: string, joins: seq<string>)
    requires Marks(base) == 0 && MarksIn(joins) == 0
    ensures Marks(base + " " + (Join(joins, " ") + " ")) == 0
  {
    NoMarks(" ");
    MarksOfJoin(joins, " ");
    MarksConcat(base + " ", Join(joins, " ") + " ");
    MarksConcat(base, " ");
    MarksConcat(Join(joins, " "), " ");
  }

  lemma OneMark(a: string, b: string)
    requires '?' !in a && '?' !in b
    ensures Marks(a + "?" + b) == 1
  {
    NoMarks(a);
    NoMarks(b);
    MarksConcat(a + "?", b);
    MarksConcat(a, "?");
    assert "?"[1..] == "";
  }

  lemma LimitMarks()
    ensures Marks(LIMIT_TEXT) == 2
  {
    OneMark("LIMIT ", ",");
    OneMark("", " ");
    MarksConcat("LIMIT " + "?" + ",", "" + "?" + " ");
    assert LIMIT_TEXT == ("LIMIT " + "?" + ",") + ("" + "?" + " ");
  }

  // ---------- What the statement says ----------

  /** The statements that a chain adds to a clause of a kind, in the order of the calls. */
  function Added(calls: seq<Call>, kind: Kind): seq<string>
    decreases |calls|
  {
    if calls == [] then [] else
    var last := calls[|calls| - 1];
    Added(calls[..|calls| - 1], kind) + if last.Add? && last.kind == kind then last.stmts else []
  }

  function AddedArgs(calls: seq<Call>, kind: Kind): seq<Arg>
    decreases |calls|
  {
    if calls == [] then [] else
    var last := calls[|calls| - 1];
    AddedArgs(calls[..|calls| - 1], kind) + if last.Add? && last.kind == kind then last.args else []
  }

  function LimitArgs(calls: seq<Call>): seq<Arg>
    decreases |calls|
  {
    if calls == [] then [] else
    var last := calls[|calls| - 1];
    LimitArgs(calls[..|calls| - 1]) + if last.Limit? then [last.offset, last.limit] else []
  }

  function Joins(calls: seq<Call>): seq<string>
    decreases |calls|
  {
    if calls == [] then [] else
    var last := calls[|calls| - 1];
    Joins(calls[..|calls| - 1]) + if last.JoinOn? then [last.text] else []
  }

  function Orders(calls: seq<Call>): seq<string>
    decreases |calls|
  {
    if calls == [] then [] else
    var last := calls[|calls| - 1];
    Orders(calls[..|calls| - 1]) + if last.Order? then [last.text] else []
  }

  /** Only the last grouping counts. */
  function Grouping(calls: seq<Call>): string
    decreases |calls|
  {
    if calls == [] then "" else
    var last := calls[|calls| - 1];
    if last.GroupBy? then last.text else Grouping(calls[..|calls| - 1])
  }

  lemma {:induction false} ChainIs(base: string, calls: seq<Call>)
    ensures var q := Chain(New(base), calls);
            q.base == base && q.joins == Joins(calls) && q.order == Orders(calls) && q.groupBy == Grouping(calls)
            && q.limitArgs == LimitArgs(calls)
    ensures forall kind ::
              ClauseOf(Chain(New(base), calls), kind) == Clause(Added(calls, kind), AddedArgs(calls, kind))
    decreases |calls|
  {
    if calls != [] { ChainIs(base, calls[..|calls| - 1]); }
  }

  /** A part of the statement that is there exactly if it has something to say. */
  function Part(keyword: string, stmts: seq<string>, separator: string): string {
    if stmts == [] then "" else keyword + Join(stmts, separator) + " "
  }

  /** The statement of every chain, word for word: all conditions hold together. */
  lemma BuildIs(base: string, calls: seq<Call>)
    ensures Build(Chain(New(base), calls)).0 ==
            base + " " + (Join(Joins(calls), " ") + " ") + Part("SET ", Added(calls, SetKind), ",")
            + Part("WHERE ", Added(calls, WhereKind), " AND ") + Grouping(calls)
            + Part("HAVING ", Added(calls, HavingKind), " AND ") + (Join(Orders(calls), ",") + " ")
            + (if Limits(calls) == 0 then "" else "LIMIT ?,? ") + ";"
    ensures Build(Chain(New(base), calls)).1 ==
            AddedArgs(calls, SetKind) + AddedArgs(calls, WhereKind) + AddedArgs(calls, HavingKind) + LimitArgs(calls)
  {
    var q := Chain(New(base), calls);
    ChainIs(base, calls);
    ChainLimits(base, calls);
    assert ClauseOf(q, SetKind) == q.set_ && ClauseOf(q, WhereKind) == q.where_ && ClauseOf(q, HavingKind) == q.having;
  }

  /** On another base nothing is set, ordered or limited. */
  lemma NewBaseBuildIs(base: string, calls: seq<Call>, newBase: string)
    ensures BuildFromNewBase(Chain(New(base), calls), newBase).0 ==
            newBase + " " + (Join(Joins(calls), " ") + " ") + Part("WHERE ", Added(calls, WhereKind), " AND ")
            + Grouping(calls) + Part("HAVING ", Added(calls, HavingKind), " AND ") + ";"
    ensures BuildFromNewBase(Chain(New(base), calls), newBase).1 ==
            AddedArgs(calls, WhereKind) + AddedArgs(calls, HavingKind)
  {
    var q := Chain(New(base), calls);
    ChainIs(base, calls);
    assert ClauseOf(q, WhereKind) == q.where_ && ClauseOf(q, HavingKind) == q.having;
  }

  // ---------- Results ----------

  lemma QueryMarks(q: Query)
    requires AlignedQuery(q)
    ensures var (stmt, args) := Build(q);
            Marks(stmt) - |args| == Marks(q.limitStmt) - |q.limitArgs|
  {
    var s := Segments(q);
    SegmentsAligned(q);
    BuildIsSegments(q);
    AlignedCounts(s[..6]);
    assert s == s[..6] + [s[6], s[7]] && [s[6], s[7]] == [s[6]] + [s[7]];
    TextConcat(s[..6], [s[6], s[7]]);
    TextConcat([s[6]], [s[7]]);
    OneSegment(s[6]);
    OneSegment(s[7]);
    MarksConcat(Text(s[..6]), s[6].text + s[7].text);
    MarksConcat(s[6].text, s[7].text);
    NoMarks(";");
  }

  /** A chain of aligned calls builds a statement with a placeholder for every argument if and only if it
      limits at most once. */
  lemma BuildAlignedIff(base: string, calls: seq<Call>)
    requires AlignedChain(base, calls)
    ensures var (stmt, args) := Build(Chain(New(base), calls)); Marks(stmt) == |args| <==> Limits(calls) <= 1
  {
    ChainAligned(base, calls);
    ChainLimits(base, calls);
    QueryMarks(Chain(New(base), calls));
    LimitMarks();
  }

  /** The arguments of the clauses that come before a kind's own. */
  function ClausesAhead(q: Query, kind: Kind, withSet: bool): nat {
    (if withSet && !kind.SetKind? then |q.set_.args| else 0) + (if kind.HavingKind? then |q.where_.args| else 0)
  }

  lemma ArgsBefore(q: Query, kind: Kind)
    ensures |Args(Segments(q)[..SegmentOf(kind)])| == ClausesAhead(q, kind, true)
  {
    var s := Segments(q);
    match kind
    case SetKind =>
      assert s[..1] == [s[0]];
      OneSegment(s[0]);
    case WhereKind =>
      assert s[..2] == [s[0]] + [s[1]];
      TextConcat([s[0]], [s[1]]);
      OneSegment(s[0]);
      OneSegment(s[1]);
    case HavingKind =>
      assert s[..4] == [s[0], s[1], s[2], s[3]];
      FourSegments(s[0], s[1], s[2], s[3]);
  }

  lemma AlignedUpTo(q: Query, kind: Kind)
    requires AlignedQuery(q)
    ensures Aligned(Segments(q)[..SegmentOf(kind)])
  {
    SegmentsAligned(q);
    assert Segments(q)[..6][..SegmentOf(kind)] == Segments(q)[..SegmentOf(kind)];
  }

  /** What was added to a clause after `earlier` is bound wherever the clause is one of the segments. */
  lemma ClauseInSegments(s: seq<Segment>, n: nat, kind: Kind, earlier: Clause, c: Clause, stmts: seq<string>,
                         args: seq<Arg>)
    returns (before: string, ahead: nat)
    requires n < |s| && Aligned(s[..n]) && s[n] == Segment(ClauseText(kind, c), c.args)
    requires AlignedClause(earlier) && MarksIn(stmts) == |args| && stmts != []
    requires earlier.stmts + stmts <= c.stmts && earlier.args + args <= c.args
    ensures Bound(Text(s), Args(s), Join(stmts, Separator(kind)), args, before, ahead)
    ensures ahead == |Args(s[..n])| + |earlier.args|
  {
    before, ahead := Keyword(kind) + Lead(earlier.stmts, Separator(kind)), |earlier.args|;
    ClauseBound(kind, earlier, stmts, args, c);
    BoundInWhole(s, n, Join(stmts, Separator(kind)), args, before, ahead);
    before, ahead := Text(s[..n]) + before, |Args(s[..n])| + ahead;
  }

  lemma QueryBound(q: Query, kind: Kind, earlier: Clause, stmts: seq<string>, args: seq<Arg>)
    returns (before: string, ahead: nat)
    requires AlignedQuery(q) && AlignedClause(earlier) && MarksIn(stmts) == |args| && stmts != []
    requires earlier.stmts + stmts <= ClauseOf(q, kind).stmts && earlier.args + args <= ClauseOf(q, kind).args
    ensures Bound(Build(q).0, Build(q).1, Join(stmts, Separator(kind)), args, before, ahead)
    ensures ahead == ClausesAhead(q, kind, true) + |earlier.args|
  {
    AlignedUpTo(q, kind);
    SegmentIsClause(q, kind);
    BuildIsSegments(q);
    ArgsBefore(q, kind);
    before, ahead := ClauseInSegments(Segments(q), SegmentOf(kind), kind, earlier, ClauseOf(q, kind), stmts, args);
  }

  /** How many arguments a chain supplies for a kind of clause. */
  function Supplied(calls: seq<Call>, kind: Kind): nat
    decreases |calls|
  {
    if calls == [] then 0
    else
      var last := calls[|calls| - 1];
      Supplied(calls[..|calls| - 1], kind) + if last.Add? && last.kind == kind then |last.args| else 0
  }

  lemma {:induction false} SuppliedInClause(base: string, calls: seq<Call>, kind: Kind)
    ensures |ClauseOf(Chain(New(base), calls), kind).args| == Supplied(calls, kind)
    decreases |calls|
  {
    if calls != [] { SuppliedInClause(base, calls[..|calls| - 1], kind); }
  }

  /** The place of the first argument of call `i` among all: after those of the clauses before its own, and
      after those of the earlier calls for its own. */
  function Place(calls: seq<Call>, i: nat, withSet: bool): nat
    requires i < |calls| && calls[i].Add?
  {
    (if withSet && !calls[i].kind.SetKind? then Supplied(calls, SetKind) else 0)
    + (if calls[i].kind.HavingKind? then Supplied(calls, WhereKind) else 0)
    + Supplied(calls[..i], calls[i].kind)
  }

  lemma PlaceInChain(base: string, calls: seq<Call>, i: nat, withSet: bool)
    requires i < |calls| && calls[i].Add?
    ensures ClausesAhead(Chain(New(base), calls), calls[i].kind, withSet) + Supplied(calls[..i], calls[i].kind)
         == Place(calls, i, withSet)
  {
    SuppliedInClause(base, calls, SetKind);
    SuppliedInClause(base, calls, WhereKind);
  }

  /** Two limits are one too many. */
  lemma SecondLimitMisaligns()
    ensures var (stmt, args) := Build(Chain(New(""), [Call.Limit(0, 1), Call.Limit(1, 1)])); Marks(stmt) != |args|
  {
    var calls := [Call.Limit(0, 1), Call.Limit(1, 1)];
    assert calls[..1] == [Call.Limit(0, 1)] && calls[..1][..0] == [];
    assert Limits(calls) == 2;
    BuildAlignedIff("", calls);
  }

  /** The clause right before call `i`, and what the finished clause has in its place. */
  lemma CallInClause(base: string, calls: seq<Call>, i: nat) returns (earlier: Clause)
    requires AlignedChain(base, calls) && i < |calls| && calls[i].Add?
    ensures AlignedClause(earlier) && |earlier.args| == Supplied(calls[..i], calls[i].kind)
    ensures var c := ClauseOf(Chain(New(base), calls), calls[i].kind);
            earlier.stmts + calls[i].stmts <= c.stmts && earlier.args + calls[i].args <= c.args
  {
    earlier := ClauseOf(Chain(New(base), calls[..i]), calls[i].kind);
    ChainAligned(base, calls[..i]);
    ChainGrows(New(base), calls, i + 1, calls[i].kind);
    SuppliedInClause(base, calls[..i], calls[i].kind);
    assert calls[..i + 1][..i] == calls[..i];
  }

  /** What a call added stands in the statement where its arguments stand among the arguments. */
  lemma CallBound(base: string, calls: seq<Call>, i: nat) returns (before: string, ahead: nat)
    requires AlignedChain(base, calls) && i < |calls| && calls[i].Add? && calls[i].stmts != []
    ensures var (stmt, args) := Build(Chain(New(base), calls));
            Bound(stmt, args, Join(calls[i].stmts, Separator(calls[i].kind)), calls[i].args, before, ahead)
    ensures ahead == Place(calls, i, true)
  {
    var earlier := CallInClause(base, calls, i);
    ChainAligned(base, calls);
    PlaceInChain(base, calls, i, true);
    before, ahead := QueryBound(Chain(New(base), calls), calls[i].kind, earlier, calls[i].stmts, calls[i].args);
  }

  /** The first two limit arguments are those of the first call that limits, whatever calls follow it. */
  lemma {:induction false} FirstLimitArgs(base: string, calls: seq<Call>, i: nat)
    requires i < |calls| && calls[i].Limit? && Limits(calls[..i]) == 0
    ensures [calls[i].offset, calls[i].limit] <= Chain(New(base), calls).limitArgs && 0 < Limits(calls)
    decreases |calls|
  {
    var rest := calls[..|calls| - 1];
    if i == |rest| {
      assert calls[..i] == rest;
      ChainLimits(base, rest);
    } else {
      assert rest[..i] == calls[..i];
      FirstLimitArgs(base, rest, i);
    }
  }

  lemma LimitInSegment(stmt: string, own: seq<Arg>, args: seq<Arg>)
    requires stmt == LIMIT_TEXT && |own| == 2 && own <= args
    ensures Bound(stmt, args, LIMIT_TEXT, own, "", 0)
  {
    LimitMarks();
    assert "" + LIMIT_TEXT == LIMIT_TEXT;
    assert args[0..2] == own;
  }

  lemma ArgsBeforeLimit(q: Query)
    ensures |Args(Segments(q)[..6])| == |q.set_.args| + |q.where_.args| + |q.having.args|
  {
    var s := Segments(q);
    assert s[..6] == [s[0], s[1], s[2], s[3]] + ([s[4]] + [s[5]]);
    TextConcat([s[0], s[1], s[2], s[3]], [s[4]] + [s[5]]);
    TextConcat([s[4]], [s[5]]);
    FourSegments(s[0], s[1], s[2], s[3]);
    OneSegment(s[4]);
    OneSegment(s[5]);
  }

  lemma QueryLimitBound(q: Query, own: seq<Arg>) returns (before: string, ahead: nat)
    requires AlignedQuery(q) && q.limitStmt == LIMIT_TEXT && |own| == 2 && own <= q.limitArgs
    ensures Bound(Build(q).0, Build(q).1, LIMIT_TEXT, own, before, ahead)
    ensures ahead == |q.set_.args| + |q.where_.args| + |q.having.args|
    ensures |Build(q).1| == ahead + |q.limitArgs|
  {
    SegmentsAligned(q);
    BuildIsSegments(q);
    ArgsBeforeLimit(q);
    before, ahead := LimitInSegments(Segments(q), own);
  }

  lemma LimitInSegments(s: seq<Segment>, own: seq<Arg>) returns (before: string, ahead: nat)
    requires |s| == 8 && Aligned(s[..6]) && s[7].args == []
    requires s[6].text == LIMIT_TEXT && |own| == 2 && own <= s[6].args
    ensures Bound(Text(s), Args(s), LIMIT_TEXT, own, before, ahead)
    ensures ahead == |Args(s[..6])| && |Args(s)| == ahead + |s[6].args|
  {
    LimitInSegment(s[6].text, own, s[6].args);
    BoundInWhole(s, 6, LIMIT_TEXT, own, "", 0);
    AroundSegment(s, 6);
    assert s[7..] == [s[7]];
    OneSegment(s[7]);
    before, ahead := Text(s[..6]) + "", |Args(s[..6])| + 0;
  }

  /** The placeholders of the limit stand for the arguments of the first call that limits: behind those of all
      clauses. If it is the only one, these are the last two arguments. */
  lemma LimitBound(base: string, calls: seq<Call>, i: nat) returns (before: string, ahead: nat)
    requires AlignedChain(base, calls) && i < |calls| && calls[i].Limit? && Limits(calls[..i]) == 0
    ensures var (stmt, args) := Build(Chain(New(base), calls));
            Bound(stmt, args, LIMIT_TEXT, [calls[i].offset, calls[i].limit], before, ahead)
            && (Limits(calls) == 1 ==> ahead + 2 == |args|)
    ensures ahead == Supplied(calls, SetKind) + Supplied(calls, WhereKind) + Supplied(calls, HavingKind)
  {
    ChainAligned(base, calls);
    FirstLimitArgs(base, calls, i);
    ChainLimits(base, calls);
    SuppliedInClause(base, calls, SetKind);
    SuppliedInClause(base, calls, WhereKind);
    SuppliedInClause(base, calls, HavingKind);
    before, ahead := QueryLimitBound(Chain(New(base), calls), [calls[i].offset, calls[i].limit]);
  }

  // ---------- Another base ----------

  function BaseSegments(q: Query, base: string): seq<Segment> {
    [Segment(base + " " + (Join(q.joins, " ") + " "), []),
     Segment(ClauseText(WhereKind, q.where_), q.where_.args),
     Segment(q.groupBy, []),
     Segment(ClauseText(HavingKind, q.having), q.having.args),
     Segment(";", [])]
  }

  lemma NewBaseIsSegments(q: Query, base: string)
    ensures BuildFromNewBase(q, base) == (Text(BaseSegments(q, base)), Args(BaseSegments(q, base)))
  {
    var s := BaseSegments(q, base);
    assert s == [s[0], s[1], s[2], s[3]] + [s[4]];
    TextConcat([s[0], s[1], s[2], s[3]], [s[4]]);
    FourSegments(s[0], s[1], s[2], s[3]);
    OneSegment(s[4]);
    var none: seq<Arg> := [];
    assert none + s[1].args + none + s[3].args + none == s[1].args + s[3].args;
  }

  lemma NewBaseSegmentsAligned(q: Query, base: string)
    requires AlignedQuery(q) && Marks(base) == 0
    ensures Aligned(BaseSegments(q, base))
  {
    ClauseMarks(WhereKind, q.where_);
    ClauseMarks(HavingKind, q.having);
    HeadMarks(base, q.joins);
    NoMarks(";");
    var s := BaseSegments(q, base);
    AlignedSix(s[0], s[1], s[2], s[3], s[4], s[4]);
    assert s == [s[0], s[1], s[2], s[3], s[4]];
  }

  /** On another base, without what is set and the limit, the counts always agree. */
  lemma NewBaseAligned(base: string, calls: seq<Call>, newBase: string)
    requires AlignedChain(base, calls) && Marks(newBase) == 0
    ensures var (stmt, args) := BuildFromNewBase(Chain(New(base), calls), newBase); Marks(stmt) == |args|
  {
    ChainAligned(base, calls);
    NewBaseIsSegments(Chain(New(base), calls), newBase);
    NewBaseSegmentsAligned(Chain(New(base), calls), newBase);
    AlignedCounts(BaseSegments(Chain(New(base), calls), newBase));
  }

  function BaseSegmentOf(kind: Kind): nat {
    if kind.WhereKind? then 1 else 3
  }

  lemma BaseSegmentIsClause(q: Query, base: string, kind: Kind)
    requires !kind.SetKind?
    ensures BaseSegments(q, base)[BaseSegmentOf(kind)]
         == Segment(ClauseText(kind, ClauseOf(q, kind)), ClauseOf(q, kind).args)
  {
  }

  lemma NewBaseArgsBefore(q: Query, base: string, kind: Kind)
    requires !kind.SetKind?
    ensures |Args(BaseSegments(q, base)[..BaseSegmentOf(kind)])| == ClausesAhead(q, kind, false)
  {
    var s := BaseSegments(q, base);
    OneSegment(s[0]);
    if kind.WhereKind? {
      assert s[..1] == [s[0]];
    } else {
      assert s[..3] == [s[0]] + ([s[1]] + [s[2]]);
      TextConcat([s[0]], [s[1]] + [s[2]]);
      TextConcat([s[1]], [s[2]]);
      OneSegment(s[1]);
      OneSegment(s[2]);
    }
  }

  lemma NewBaseQueryBound(q: Query, base: string, kind: Kind, earlier: Clause, stmts: seq<string>, args: seq<Arg>)
    returns (before: string, ahead: nat)
    requires AlignedQuery(q) && Marks(base) == 0 && !kind.SetKind?
    requires AlignedClause(earlier) && MarksIn(stmts) == |args| && stmts != []
    requires earlier.stmts + stmts <= ClauseOf(q, kind).stmts && earlier.args + args <= ClauseOf(q, kind).args
    ensures Bound(BuildFromNewBase(q, base).0, BuildFromNewBase(q, base).1,
                  Join(stmts, Separator(kind)), args, before, ahead)
    ensures ahead == ClausesAhead(q, kind, false) + |earlier.args|
  {
    NewBaseIsSegments(q, base);
    NewBaseSegmentsAligned(q, base);
    BaseSegmentIsClause(q, base, kind);
    NewBaseArgsBefore(q, base, kind);
    before, ahead :=
      ClauseInSegments(BaseSegments(q, base), BaseSegmentOf(kind), kind, earlier, ClauseOf(q, kind), stmts, args);
  }

  /** Conditions stay bound to their arguments on another base. */
  lemma NewBaseCallBound(base: string, calls: seq<Call>, i: nat, newBase: string) returns (before: string, ahead: nat)
    requires AlignedChain(base, calls) && Marks(newBase) == 0
    requires i < |calls| && calls[i].Add? && !calls[i].kind.SetKind? && calls[i].stmts != []
    ensures var (stmt, args) := BuildFromNewBase(Chain(New(base), calls), newBase);
            Bound(stmt, args, Join(calls[i].stmts, Separator(calls[i].kind)), calls[i].args, before, ahead)
    ensures ahead == Place(calls, i, false)
  {
    var earlier := CallInClause(base, calls, i);
    ChainAligned(base, calls);
    PlaceInChain(base, calls, i, false);
    before, ahead :=
      NewBaseQueryBound(Chain(New(base), calls), newBase, calls[i].kind, earlier, calls[i].stmts, calls[i].args);
  }

  // ---------- The object ----------

  /** The original's calls return the builder itself, so that they chain. */
  class Builder {
    var base: string
    var setStmt: seq<string>
    var setArgs: seq<Arg>
    var join: seq<string>
    var whereStmt: seq<string>
    var whereArgs: seq<Arg>
    var limitStmt: string
    var limitArgs: seq<Arg>
    var order: seq<string>
    var groupBy: string
    var havingStmt: seq<string>
    var havingArgs: seq<Arg>

    function Query(): Query
      reads this
    {
      SqlText.Query(base, Clause(setStmt, setArgs), join, Clause(whereStmt, whereArgs), groupBy,
                    Clause(havingStmt, havingArgs), order, limitStmt, limitArgs)
    }

    constructor (base: string)
      ensures Query() == New(base)
    {
      this.base := base;
      setStmt, setArgs, join, whereStmt, whereArgs := [], [], [], [], [];
      limitStmt, limitArgs, order, groupBy, havingStmt, havingArgs := "", [], [], "", [], [];
    }

    method Set(stmt: string, v: seq<Arg>)
      modifies this
      ensures Query() == Apply(old(Query()), Add(SetKind, [stmt], v))
    {
      setStmt := setStmt + [stmt];
      setArgs := setArgs + v;
    }

    method Where(stmt: string, v: seq<Arg>)
      modifies this
      ensures Query() == Apply(old(Query()), Add(WhereKind, [stmt], v))
    {
      whereStmt := whereStmt + [stmt];
      whereArgs := whereArgs + v;
    }

    method WithWhere(stmts: seq<string>, args: seq<Arg>)
      modifies this
      ensures Query() == Apply(old(Query()), Add(WhereKind, stmts, args))
    {
      whereStmt := whereStmt + stmts;
      whereArgs := whereArgs + args;
    }

    method Having(stmt: string, v: seq<Arg>)
      modifies this
      ensures Query() == Apply(old(Query()), Add(HavingKind, [stmt], v))
    {
      havingStmt := havingStmt + [stmt];
      havingArgs := havingArgs + v;
    }

    method WithHaving(stmts: seq<string>, args: seq<Arg>)
      modifies this
      ensures Query() == Apply(old(Query()), Add(HavingKind, stmts, args))
    {
      havingStmt := havingStmt + stmts;
      havingArgs := havingArgs + args;
    }

    method Limit(offset: int, limit: nat)
      modifies this
      ensures Query() == Apply(old(Query()), SqlText.Limit(offset, limit))
    {
      limitStmt := "LIMIT ?,? ";
      limitArgs := limitArgs + [offset, limit];
    }

    method OrderBy(column: string, descending: bool)
      modifies this
      ensures Query() == Apply(old(Query()), Order("ORDER BY " + column + if descending then " DESC" else " ASC"))
    {
      order := order + ["ORDER BY " + column + if descending then " DESC" else " ASC"];
    }

    method JoinTable(table: string, left: bool, condition: string)
      modifies this
      ensures Query() == Apply(old(Query()),
                               JoinOn((if left then "LEFT JOIN " else "RIGHT JOIN ") + table + " ON " + condition))
    {
      join := join + [(if left then "LEFT JOIN " else "RIGHT JOIN ") + table + " ON " + condition];
    }

    /** `trimmed` is the column list without the spaces around it. */
    method GroupOn(trimmed: string)
      modifies this
      ensures Query() == Apply(old(Query()), GroupBy("GROUP BY " + trimmed + " "))
    {
      groupBy := "GROUP BY " + trimmed + " ";
    }

    method Build() returns (stmt: string, args: seq<Arg>)
      ensures (stmt, args) == SqlText.Build(Query())
    {
      var joinText, orderText := Join(join, " ") + " ", Join(order, ",") + " ";
      var setText := if setStmt == [] then "" else "SET " + Join(setStmt, ",") + " ";
      var whereText := if whereStmt == [] then "" else "WHERE " + Join(whereStmt, " AND ") + " ";
      var havingText := if havingStmt == [] then "" else "HAVING " + Join(havingStmt, " AND ") + " ";
      stmt := base + " " + joinText + setText + whereText + groupBy + havingText + orderText + limitStmt + ";";
      args := setArgs;
      args := args + whereArgs;
      args := args + havingArgs;
      args := args + limitArgs;
    }

    method BuildFromNewBase(newBase: string) returns (stmt: string, args: seq<Arg>)
      ensures (stmt, args) == SqlText.BuildFromNewBase(Query(), newBase)
    {
      var joinText := Join(join, " ") + " ";
      var whereText := if whereStmt == [] then "" else "WHERE " + Join(whereStmt, " AND ") + " ";
      var havingText := if havingStmt == [] then "" else "HAVING " + Join(havingStmt, " AND ") + " ";
      stmt := newBase + " " + joinText + whereText + groupBy + havingText + ";";
      args := whereArgs + havingArgs;
    }
  }
}
