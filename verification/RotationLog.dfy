/** What a size-based log rotator promises, told on the sequence of all writes instead of on files. */
module RotationLog {
  import opened Options
  import opened DiskModel
  import opened Backups

  /** The data of every write, grouped into the files it went to. `closed` has one entry for every rotation,
      None where there was no active file to rotate. */
  datatype Log = Log(closed: seq<Option<seq<Bytes>>>, active: Option<seq<Bytes>>)

  datatype Session = Session(log: Log, open: bool, size: nat)

  datatype Config = Config(maxSizeBytes: nat, rotateOnStartup: bool)

  datatype Op = Write(data: Bytes) | Rotate | Close

  function Flat(chunks: seq<Bytes>): Bytes {
    if chunks == [] then [] else Flat(chunks[..|chunks| - 1]) + chunks[|chunks| - 1]
  }

  function FileOf(file: Option<seq<Bytes>>): Option<Bytes> {
    if file.Some? then Some(Flat(file.value)) else None
  }

  function Push(log: Log): Log {
    Log(log.closed + [log.active], None)
  }

  function Opened(c: Config, s: Session, data: Bytes): Session {
    var reopened :=
      if s.open then
        if s.size + |data| > c.maxSizeBytes then Push(s.log) else s.log
      else
        if s.log.active.Some? && c.rotateOnStartup then Push(s.log) else s.log;
    if reopened.active.Some? then Session(reopened, true, s.size)
    else Session(reopened.(active := Some([])), true, 0)
  }

  function Appended(s: Session, data: Bytes): Session {
    s.(log := s.log.(active := Some((if s.log.active.Some? then s.log.active.value else []) + [data])),
       size := s.size + |data|)
  }

  function Apply(c: Config, s: Session, op: Op): Session {
    match op
    case Write(data) => if |data| > c.maxSizeBytes then s else Appended(Opened(c, s, data), data)
    case Rotate => Session(Push(s.log), false, 0)
    case Close => s.(open := false, size := 0)
  }

  function ApplyAll(c: Config, s: Session, ops: seq<Op>): Session
    decreases |ops|
  {
    if ops == [] then s else ApplyAll(c, Apply(c, s, ops[0]), ops[1..])
  }

  /** The writes that went to backup `i`: those closed by the `i`-th latest rotation. */
  function Group(log: Log, i: nat): Option<seq<Bytes>>
    requires i <= |log.closed|
  {
    if i == 0 then log.active else log.closed[|log.closed| - i]
  }

  /** The files hold exactly the last `maxBackups` rotated groups of writes and the active one. */
  ghost predicate Mirrors(log: Log, files: Files, filename: string, maxBackups: nat) {
    && maxBackups <= |log.closed|
    && forall i: nat :: i <= maxBackups ==> Slot(files, filename, i) == FileOf(Group(log, i))
  }

  lemma GroupAfterPush(log: Log, i: nat)
    requires i <= |log.closed| + 1
    ensures Group(Push(log), i) == if i == 0 then None else Group(log, i - 1)
  {
  }

  lemma PushMirrors(log: Log, before: Files, files: Files, filename: string, maxBackups: nat)
    requires Mirrors(log, before, filename, maxBackups) && Shifted(before, files, filename, maxBackups)
    ensures Mirrors(Push(log), files, filename, maxBackups)
  {
    forall i: nat | i <= maxBackups ensures Slot(files, filename, i) == FileOf(Group(Push(log), i)) {
      GroupAfterPush(log, i);
      if i != 0 { assert Slot(before, filename, i - 1) == FileOf(Group(log, i - 1)); }
    }
  }

  lemma WriteMirrors(log: Log, before: Files, filename: string, maxBackups: nat, chunks: seq<Bytes>)
    requires Mirrors(log, before, filename, maxBackups)
    ensures Mirrors(log.(active := Some(chunks)), before[filename := Flat(chunks)], filename, maxBackups)
  {
    SlotsAfterWrite(before, filename, Flat(chunks));
    var log' := log.(active := Some(chunks));
    forall i: nat | 0 < i <= maxBackups ensures Group(log', i) == Group(log, i) {
    }
  }

  /** The files found at the start count as one write each. */
  function FoundGroup(file: Option<Bytes>): Option<seq<Bytes>> {
    if file.Some? then Some([file.value]) else None
  }

  function Found(files: Files, filename: string, maxBackups: nat): Log {
    Log(seq(maxBackups, i requires 0 <= i < maxBackups => FoundGroup(Slot(files, filename, maxBackups - i))),
        FoundGroup(Slot(files, filename, 0)))
  }

  lemma FoundMirrors(files: Files, filename: string, maxBackups: nat)
    ensures Mirrors(Found(files, filename, maxBackups), files, filename, maxBackups)
    ensures |Found(files, filename, maxBackups).closed| == maxBackups
  {
    var log := Found(files, filename, maxBackups);
    forall i: nat | i <= maxBackups ensures Slot(files, filename, i) == FileOf(Group(log, i)) {
      var file := Slot(files, filename, i);
      assert Group(log, i) == FoundGroup(file);
      if file.Some? {
        FlatAppend([], file.value);
        assert [] + [file.value] == [file.value] && [] + file.value == file.value;
      }
    }
  }

  // ---------- Conservation ----------

  function ChunksOf(file: Option<seq<Bytes>>): seq<Bytes> {
    if file.Some? then file.value else []
  }

  function ClosedChunks(closed: seq<Option<seq<Bytes>>>): seq<Bytes> {
    if closed == [] then [] else ClosedChunks(closed[..|closed| - 1]) + ChunksOf(closed[|closed| - 1])
  }

  /** Everything ever written, in order. */
  function AllChunks(log: Log): seq<Bytes> {
    ClosedChunks(log.closed) + ChunksOf(log.active)
  }

  /** The data of the writes that do not fail. */
  function Accepted(c: Config, ops: seq<Op>): seq<Bytes> {
    if ops == [] then []
    else (if ops[0].Write? && |ops[0].data| <= c.maxSizeBytes then [ops[0].data] else []) + Accepted(c, ops[1..])
  }

  lemma PushKeepsChunks(log: Log)
    ensures AllChunks(Push(log)) == AllChunks(log)
  {
    assert Push(log).closed[..|log.closed|] == log.closed;
  }

  lemma ApplyConserves(c: Config, s: Session, op: Op)
    ensures AllChunks(Apply(c, s, op).log) == AllChunks(s.log) + Accepted(c, [op])
    ensures s.log.closed <= Apply(c, s, op).log.closed
  {
    assert Accepted(c, [op][1..]) == [];
    PushKeepsChunks(s.log);
    if op.Write? && |op.data| <= c.maxSizeBytes {
      var ready := Opened(c, s, op.data);
      assert AllChunks(ready.log) == AllChunks(s.log);
      assert AllChunks(Appended(ready, op.data).log) == AllChunks(ready.log) + [op.data];
    }
  }

  /** Over every run what was written is what was there before followed by the accepted writes, in order,
      and rotated groups are never touched again. */
  lemma {:induction false} RunConserves(c: Config, s: Session, ops: seq<Op>)
    ensures AllChunks(ApplyAll(c, s, ops).log) == AllChunks(s.log) + Accepted(c, ops)
    ensures s.log.closed <= ApplyAll(c, s, ops).log.closed
    decreases |ops|
  {
    if ops != [] {
      var s' := Apply(c, s, ops[0]);
      ApplyConserves(c, s, ops[0]);
      RunConserves(c, s', ops[1..]);
      assert Accepted(c, [ops[0]]) + Accepted(c, ops[1..]) == Accepted(c, ops) by {
        assert Accepted(c, [ops[0]][1..]) == [];
      }
    }
  }

  lemma {:induction false} FlatConcat(a: seq<Bytes>, b: seq<Bytes>)
    ensures Flat(a + b) == Flat(a) + Flat(b)
    decreases b
  {
    if b == [] {
      assert a + b == a;
    } else {
      FlatConcat(a, b[..|b| - 1]);
      assert (a + b)[..|a + b| - 1] == a + b[..|b| - 1];
    }
  }

  /** The chunks of the last `n` closed groups and the active one. */
  function LastChunks(log: Log, n: nat): seq<Bytes>
    requires n <= |log.closed|
  {
    if n == 0 then ChunksOf(Group(log, 0)) else ChunksOf(Group(log, n)) + LastChunks(log, n - 1)
  }

  lemma {:induction false} LastChunksAreSuffix(log: Log, n: nat)
    requires n <= |log.closed|
    ensures AllChunks(log) == ClosedChunks(log.closed[..|log.closed| - n]) + LastChunks(log, n)
  {
    if n == 0 {
      assert log.closed[..|log.closed|] == log.closed;
    } else {
      LastChunksAreSuffix(log, n - 1);
      var k := |log.closed| - n;
      assert log.closed[..k + 1][..k] == log.closed[..k];
    }
  }

  lemma FileContent(file: Option<seq<Bytes>>)
    ensures Content(FileOf(file)) == Flat(ChunksOf(file))
  {
  }

  lemma {:induction false} StreamIsLastChunks(log: Log, files: Files, filename: string, maxBackups: nat, n: nat)
    requires Mirrors(log, files, filename, maxBackups) && n <= maxBackups
    ensures Stream(files, filename, n) == Flat(LastChunks(log, n))
  {
    assert Slot(files, filename, n) == FileOf(Group(log, n));
    FileContent(Group(log, n));
    if n > 0 {
      StreamIsLastChunks(log, files, filename, maxBackups, n - 1);
      FlatConcat(ChunksOf(Group(log, n)), LastChunks(log, n - 1));
    }
  }

  /** The backups from oldest to newest and the active file form a suffix of everything ever written, and what
      is missing are whole writes: the groups of the rotations more than `maxBackups` ago. */
  lemma FilesAreSuffix(log: Log, files: Files, filename: string, maxBackups: nat)
    requires Mirrors(log, files, filename, maxBackups)
    ensures var dropped := ClosedChunks(log.closed[..|log.closed| - maxBackups]);
            dropped <= AllChunks(log)
            && Stream(files, filename, maxBackups) == Flat(AllChunks(log)[|dropped|..])
            && Flat(AllChunks(log)) == Flat(dropped) + Stream(files, filename, maxBackups)
  {
    var dropped := ClosedChunks(log.closed[..|log.closed| - maxBackups]);
    LastChunksAreSuffix(log, maxBackups);
    StreamIsLastChunks(log, files, filename, maxBackups, maxBackups);
    FlatConcat(dropped, LastChunks(log, maxBackups));
    assert AllChunks(log)[|dropped|..] == LastChunks(log, maxBackups);
  }

  /** The files after a run hold a suffix of the old log followed by all accepted writes. */
  lemma RunFilesAreSuffix(c: Config, s: Session, ops: seq<Op>, files: Files, filename: string, maxBackups: nat)
    returns (dropped: Bytes)
    requires Mirrors(ApplyAll(c, s, ops).log, files, filename, maxBackups)
    ensures dropped + Stream(files, filename, maxBackups) == Flat(AllChunks(s.log)) + Flat(Accepted(c, ops))
  {
    var log := ApplyAll(c, s, ops).log;
    RunConserves(c, s, ops);
    FilesAreSuffix(log, files, filename, maxBackups);
    FlatConcat(AllChunks(s.log), Accepted(c, ops));
    dropped := Flat(ClosedChunks(log.closed[..|log.closed| - maxBackups]));
  }

  /** The group closed by rotation `g` is, after any run, in the backup numbered by the rotations since then if
      and only if these are no more than `maxBackups`; later it is nowhere, all files being of younger groups. */
  lemma ClosedFileSurvivesIff(c: Config, s: Session, ops: seq<Op>, files: Files, filename: string, maxBackups: nat,
                              g: nat)
    requires Mirrors(ApplyAll(c, s, ops).log, files, filename, maxBackups) && NoneAbove(files, filename, maxBackups)
    requires g < |s.log.closed|
    ensures var log := ApplyAll(c, s, ops).log;
            var age := |log.closed| - g;
            |s.log.closed| <= |log.closed|
            && Slot(files, filename, age) == (if age <= maxBackups then FileOf(s.log.closed[g]) else None)
            && (maxBackups < age ==> forall i: nat :: Slot(files, filename, i).Some? ==>
                  i <= |log.closed| && g < |log.closed| - i && Slot(files, filename, i) == FileOf(Group(log, i)))
  {
    var log := ApplyAll(c, s, ops).log;
    RunConserves(c, s, ops);
    assert Group(log, |log.closed| - g) == s.log.closed[g];
  }

  // ---------- Crashes ----------

  /** A reader of the active file and its backups finds all writes that are kept, whole and in order, or all but
      those of the oldest file. */
  ghost predicate Readable(log: Log, files: Files, filename: string, maxBackups: nat) {
    maxBackups <= |log.closed| &&
    var stream := Stream(files, filename, maxBackups);
    stream == Flat(LastChunks(log, maxBackups))
    || stream == if maxBackups == 0 then [] else Flat(LastChunks(log, maxBackups - 1))
  }

  lemma MirrorsReadable(log: Log, files: Files, filename: string, maxBackups: nat)
    requires Mirrors(log, files, filename, maxBackups)
    ensures Readable(log, files, filename, maxBackups)
  {
    StreamIsLastChunks(log, files, filename, maxBackups, maxBackups);
  }

  /** Also in every state in which a rotation may stop. */
  lemma RotationReadable(log: Log, before: Files, files: Files, filename: string, maxBackups: nat)
    requires Mirrors(log, before, filename, maxBackups) && MidRotation(before, files, filename, maxBackups)
    ensures Readable(log, files, filename, maxBackups)
  {
    CrashedStream(before, files, filename, maxBackups);
    StreamIsLastChunks(log, before, filename, maxBackups, maxBackups);
    if 0 < maxBackups { StreamIsLastChunks(log, before, filename, maxBackups, maxBackups - 1); }
  }

  /** A new active file without writes counts for nothing. */
  lemma {:induction false} LastWithoutActive(log: Log, n: nat)
    requires n <= |log.closed| && log.active == None
    ensures LastChunks(log.(active := Some([])), n) == LastChunks(log, n)
  {
    if n > 0 { LastWithoutActive(log, n - 1); }
  }

  lemma {:induction false} LastAfterPush(log: Log, n: nat)
    requires n <= |log.closed|
    ensures LastChunks(Push(log), n) == if n == 0 then [] else LastChunks(log, n - 1)
  {
    GroupAfterPush(log, n);
    if n > 0 {
      LastAfterPush(log, n - 1);
      if n > 1 { GroupAfterPush(log, n - 1); } else { assert ChunksOf(Group(log, 0)) + [] == ChunksOf(Group(log, 0)); }
    }
  }

  /** Before the first write to a new active file a reader finds what was there before it was created. */
  lemma CreatedReadable(log: Log, files: Files, filename: string, maxBackups: nat, rotated: bool)
    requires maxBackups <= |log.closed| && (!rotated ==> log.active == None)
    requires Mirrors((if rotated then Push(log) else log).(active := Some([])), files, filename, maxBackups)
    ensures Readable(log, files, filename, maxBackups)
  {
    var ready := if rotated then Push(log) else log;
    StreamIsLastChunks(ready.(active := Some([])), files, filename, maxBackups, maxBackups);
    LastWithoutActive(ready, maxBackups);
    if rotated { LastAfterPush(log, maxBackups); }
  }

  lemma {:induction false} ApplyAllSnoc(c: Config, s: Session, ops: seq<Op>, op: Op)
    ensures ApplyAll(c, s, ops + [op]) == Apply(c, ApplyAll(c, s, ops), op)
    decreases |ops|
  {
    if ops == [] {
      assert ([] + [op])[1..] == [];
    } else {
      ApplyAllSnoc(c, Apply(c, s, ops[0]), ops[1..], op);
      assert (ops + [op])[1..] == ops[1..] + [op];
    }
  }

  /** A reader finds the log as it is after some of the operations. */
  ghost predicate ReadableInRun(c: Config, s: Session, ops: seq<Op>, files: Files, filename: string, maxBackups: nat) {
    exists i: nat :: i <= |ops| && Readable(ApplyAll(c, s, ops[..i]).log, files, filename, maxBackups)
  }

  lemma ReadableLater(c: Config, s: Session, ops: seq<Op>, n: nat, files: Files, filename: string, maxBackups: nat)
    requires n < |ops| && ReadableInRun(c, s, ops[..n], files, filename, maxBackups)
    ensures ReadableInRun(c, s, ops[..n + 1], files, filename, maxBackups)
  {
    var i: nat :| i <= n && Readable(ApplyAll(c, s, ops[..n][..i]).log, files, filename, maxBackups);
    assert ops[..n][..i] == ops[..n + 1][..i];
  }

  lemma ReadableNow(c: Config, s: Session, ops: seq<Op>, n: nat, files: Files, filename: string, maxBackups: nat)
    requires n < |ops|
    requires Readable(ApplyAll(c, s, ops[..n]).log, files, filename, maxBackups)
             || Readable(ApplyAll(c, s, ops[..n + 1]).log, files, filename, maxBackups)
    ensures ReadableInRun(c, s, ops[..n + 1], files, filename, maxBackups)
  {
    assert ops[..n + 1][..n] == ops[..n] && ops[..n + 1][..n + 1] == ops[..n + 1];
  }

  // ---------- Sizes ----------

  ghost predicate SizeExact(s: Session) {
    if s.open then s.log.active.Some? && s.size == |Flat(s.log.active.value)| else s.size == 0
  }

  ghost predicate FileWithin(file: Option<seq<Bytes>>, limit: nat) {
    file.Some? ==> |Flat(file.value)| <= limit
  }

  /** The files from the one numbered `first` on, in the order in which they were begun, are within the limit. The
      one before them, if it is still the active file, is closed. */
  ghost predicate NewFilesWithin(s: Session, first: nat, limit: nat) {
    && (forall i :: first <= i < |s.log.closed| ==> FileWithin(s.log.closed[i], limit))
    && (if first <= |s.log.closed| then FileWithin(s.log.active, limit)
        else first == |s.log.closed| + 1 && !s.open && s.log.active.Some?)
  }

  lemma FlatAppend(chunks: seq<Bytes>, data: Bytes)
    ensures Flat(chunks + [data]) == Flat(chunks) + data
  {
    assert (chunks + [data])[..|chunks|] == chunks;
  }

  /** The write that decides whether `size` is the length of the active file: it is, unless a file that was
      not empty is reopened without rotating it. */
  lemma WriteSizeExactIff(c: Config, s: Session, data: Bytes)
    requires SizeExact(s) && |data| <= c.maxSizeBytes
    ensures SizeExact(Apply(c, s, Write(data))) <==>
            s.open || c.rotateOnStartup || s.log.active.None? || Flat(s.log.active.value) == []
  {
    var ready := Opened(c, s, data);
    FlatAppend(ready.log.active.value, data);
  }

  lemma {:induction false} RunKeepsSizes(c: Config, s: Session, ops: seq<Op>, first: nat)
    requires c.rotateOnStartup && SizeExact(s) && NewFilesWithin(s, first, c.maxSizeBytes)
    ensures SizeExact(ApplyAll(c, s, ops)) && NewFilesWithin(ApplyAll(c, s, ops), first, c.maxSizeBytes)
    decreases |ops|
  {
    if ops != [] {
      ApplyKeepsSizes(c, s, ops[0], first);
      RunKeepsSizes(c, Apply(c, s, ops[0]), ops[1..], first);
    }
  }

  lemma ApplyKeepsSizes(c: Config, s: Session, op: Op, first: nat)
    requires c.rotateOnStartup && SizeExact(s) && NewFilesWithin(s, first, c.maxSizeBytes)
    ensures SizeExact(Apply(c, s, op)) && NewFilesWithin(Apply(c, s, op), first, c.maxSizeBytes)
  {
    if op.Write? && |op.data| <= c.maxSizeBytes {
      WriteSizeExactIff(c, s, op.data);
      FlatAppend(Opened(c, s, op.data).log.active.value, op.data);
    }
  }

  /** With rotation on startup `size` is always right and within the limit, and no file that a run begins ever
      outgrows the limit, whatever files were found. */
  lemma SizesOfRun(c: Config, s: Session, ops: seq<Op>)
    requires c.rotateOnStartup && !s.open && s.size == 0
    ensures var s' := ApplyAll(c, s, ops);
            var first := |s.log.closed| + if s.log.active.Some? then 1 else 0;
            SizeExact(s') && s'.size <= c.maxSizeBytes
            && (forall i :: first <= i < |s'.log.closed| ==> FileWithin(s'.log.closed[i], c.maxSizeBytes))
            && (first <= |s'.log.closed| ==> FileWithin(s'.log.active, c.maxSizeBytes))
  {
    RunKeepsSizes(c, s, ops, |s.log.closed| + if s.log.active.Some? then 1 else 0);
  }

  /** Without it both are false: two writes that together exceed the limit, with a close in between. */
  lemma AppendingOutgrowsLimit(c: Config, a: Bytes, b: Bytes)
    requires !c.rotateOnStartup && 0 < |a| <= c.maxSizeBytes && |b| <= c.maxSizeBytes < |a| + |b|
    ensures var s := ApplyAll(c, Session(Log([], None), false, 0), [Write(a), Close, Write(b)]);
            s.open && !SizeExact(s) && !FileWithin(s.log.active, c.maxSizeBytes)
  {
    var s0 := Session(Log([], None), false, 0);
    var s2 := Apply(c, Apply(c, s0, Write(a)), Close);
    var s3 := Apply(c, s2, Write(b));
    var ops := [Write(a), Close, Write(b)];
    assert ops[1..] == [Close, Write(b)] && ops[1..][1..] == [Write(b)] && ops[1..][1..][1..] == [];
    assert ApplyAll(c, s0, ops) == ApplyAll(c, s2, [Write(b)]) == s3;
    assert s3.log.active == Some([a] + [b]) && [] + [a] == [a];
    FlatAppend([], a);
    FlatAppend([a], b);
  }

  // ---------- When a write rotates ----------

  function Length(file: Option<seq<Bytes>>): nat {
    |Flat(ChunksOf(file))|
  }

  /** The size that the rotator counts is never more than the length of the active file. */
  ghost predicate SizeBounded(s: Session) {
    if s.open then s.log.active.Some? && s.size <= Length(s.log.active) else s.size == 0
  }

  /** A write closes the active file if and only if it is open and would outgrow the limit, or is reopened with
      rotation on startup. Otherwise the data follows what is in it, and no file is closed. */
  lemma WriteRotatesIff(c: Config, s: Session, data: Bytes)
    requires |data| <= c.maxSizeBytes
    ensures var log := Apply(c, s, Write(data)).log;
            var rotates := if s.open then c.maxSizeBytes < s.size + |data| else c.rotateOnStartup && s.log.active.Some?;
            log.closed == (if rotates then s.log.closed + [s.log.active] else s.log.closed)
            && log.active == Some((if rotates then [] else ChunksOf(s.log.active)) + [data])
    ensures SizeExact(s) && s.open ==>
              (Apply(c, s, Write(data)).log.closed == s.log.closed <==>
               |Flat(s.log.active.value)| + |data| <= c.maxSizeBytes)
  {
    if Apply(c, s, Write(data)).log.closed == s.log.closed + [s.log.active] {
      assert |Apply(c, s, Write(data)).log.closed| != |s.log.closed|;
    }
  }

  /** The group of writes of file `i`, in the order in which files were begun; the active one comes last. */
  function FileAt(log: Log, i: nat): Option<seq<Bytes>>
    requires i <= |log.closed|
  {
    if i == |log.closed| then log.active else log.closed[i]
  }

  /** Each of these files has, together with the next one, more than the limit. */
  ghost predicate FullPairs(log: Log, first: nat, last: nat, limit: nat) {
    last <= |log.closed|
    && forall i: nat :: first <= i < last ==> limit < Length(FileAt(log, i)) + Length(FileAt(log, i + 1))
  }

  /** The file that the next write goes to, if it has room there. */
  function NextFile(c: Config, s: Session): nat {
    |s.log.closed| + if !s.open && c.rotateOnStartup && s.log.active.Some? then 1 else 0
  }

  lemma LengthAppend(chunks: seq<Bytes>, data: Bytes)
    ensures Length(Some(chunks + [data])) == Length(Some(chunks)) + |data|
  {
    FlatAppend(chunks, data);
  }

  /** Closed files stay as they are, and the active one only grows, also when it is closed. */
  ghost predicate Grown(before: Log, after: Log) {
    before.closed <= after.closed && Length(before.active) <= Length(FileAt(after, |before.closed|))
  }

  lemma ApplyGrows(c: Config, s: Session, op: Op)
    requires SizeBounded(s)
    ensures SizeBounded(Apply(c, s, op)) && Grown(s.log, Apply(c, s, op).log)
  {
    if op.Write? && |op.data| <= c.maxSizeBytes {
      WriteRotatesIff(c, s, op.data);
      LengthAppend(ChunksOf(s.log.active), op.data);
      LengthAppend([], op.data);
    }
  }

  lemma GrownKeepsFull(before: Log, after: Log, first: nat, last: nat, limit: nat)
    requires Grown(before, after) && FullPairs(before, first, last, limit)
    ensures FullPairs(after, first, last, limit)
  {
    forall i: nat | first <= i < last ensures limit < Length(FileAt(after, i)) + Length(FileAt(after, i + 1)) {
      assert FileAt(after, i) == FileAt(before, i);
      assert Length(FileAt(before, i + 1)) <= Length(FileAt(after, i + 1));
    }
  }

  lemma ApplyKeepsFull(c: Config, s: Session, op: Op, first: nat, last: nat)
    requires SizeBounded(s) && FullPairs(s.log, first, last, c.maxSizeBytes)
    ensures SizeBounded(Apply(c, s, op)) && FullPairs(Apply(c, s, op).log, first, last, c.maxSizeBytes)
  {
    ApplyGrows(c, s, op);
    GrownKeepsFull(s.log, Apply(c, s, op).log, first, last, c.maxSizeBytes);
  }

  lemma {:induction false} RunKeepsFull(c: Config, s: Session, ops: seq<Op>, first: nat, last: nat)
    requires SizeBounded(s) && FullPairs(s.log, first, last, c.maxSizeBytes)
    ensures SizeBounded(ApplyAll(c, s, ops)) && FullPairs(ApplyAll(c, s, ops).log, first, last, c.maxSizeBytes)
    decreases |ops|
  {
    if ops != [] {
      ApplyKeepsFull(c, s, ops[0], first, last);
      RunKeepsFull(c, Apply(c, s, ops[0]), ops[1..], first, last);
    }
  }

  /** When a write to an open file closes it, the two files together have more than the limit. */
  lemma WriteFills(c: Config, s: Session, data: Bytes, first: nat)
    requires SizeBounded(s) && FullPairs(s.log, first, |s.log.closed|, c.maxSizeBytes)
    requires |data| <= c.maxSizeBytes && (s.open || NextFile(c, s) <= first)
    ensures var s' := Apply(c, s, Write(data));
            s'.open && SizeBounded(s') && FullPairs(s'.log, first, |s'.log.closed|, c.maxSizeBytes)
  {
    var s' := Apply(c, s, Write(data));
    ApplyKeepsFull(c, s, Write(data), first, |s.log.closed|);
    WriteRotatesIff(c, s, data);
    LengthAppend([], data);
    var n := |s.log.closed|;
    if s.open && n < |s'.log.closed| {
      assert FileAt(s'.log, n) == s.log.active && FileAt(s'.log, n + 1) == Some([] + [data]);
    }
  }

  lemma {:induction false} WritesFill(c: Config, s: Session, ops: seq<Op>, first: nat)
    requires SizeBounded(s) && FullPairs(s.log, first, |s.log.closed|, c.maxSizeBytes)
    requires (forall i :: 0 <= i < |ops| ==> ops[i].Write?) && (s.open || NextFile(c, s) <= first)
    ensures var s' := ApplyAll(c, s, ops); FullPairs(s'.log, first, |s'.log.closed|, c.maxSizeBytes)
    decreases |ops|
  {
    if ops != [] {
      if |ops[0].data| <= c.maxSizeBytes { WriteFills(c, s, ops[0].data, first); }
      WritesFill(c, Apply(c, s, ops[0]), ops[1..], first);
    }
  }

  lemma {:induction false} ApplyAllConcat(c: Config, s: Session, a: seq<Op>, b: seq<Op>)
    ensures ApplyAll(c, s, a + b) == ApplyAll(c, ApplyAll(c, s, a), b)
    decreases |a|
  {
    if a == [] {
      assert a + b == b;
    } else {
      assert (a + b)[1..] == a[1..] + b;
      ApplyAllConcat(c, Apply(c, s, a[0]), a[1..], b);
    }
  }

  /** Rotations that nobody asks for only come when they have to: in every run, two files that follow each other have
      together more than the limit if only writes came between the first write to the one and the closing of it,
      whatever came before and comes after. */
  lemma RunFillsFiles(c: Config, s: Session, ops: seq<Op>, n: nat, m: nat)
    requires SizeBounded(s) && n <= m <= |ops| && forall i :: n <= i < m ==> ops[i].Write?
    ensures var before, after := ApplyAll(c, s, ops[..n]), ApplyAll(c, s, ops[..m]);
            FullPairs(ApplyAll(c, s, ops).log, NextFile(c, before), |after.log.closed|, c.maxSizeBytes)
  {
    var before, after := ApplyAll(c, s, ops[..n]), ApplyAll(c, s, ops[..m]);
    var first := NextFile(c, before);
    RunKeepsFull(c, s, ops[..n], 0, 0);
    assert ops[..m] == ops[..n] + ops[n..m] && ops == ops[..m] + ops[m..];
    ApplyAllConcat(c, s, ops[..n], ops[n..m]);
    WritesFill(c, before, ops[n..m], first);
    RunKeepsFull(c, s, ops[..m], 0, 0);
    ApplyAllConcat(c, s, ops[..m], ops[m..]);
    RunKeepsFull(c, after, ops[m..], first, |after.log.closed|);
  }

  /** The limit and a byte for every two of `n + 1` files. */
  function ForPairs(n: nat, limit: nat): nat {
    if n == 0 then 0 else limit + 1 + if n == 1 then 0 else ForPairs(n - 2, limit)
  }

  lemma {:induction false} ForPairsIs(n: nat, limit: nat)
    ensures ForPairs(n, limit) == (n + 1) / 2 * (limit + 1)
  {
    if n > 1 {
      ForPairsIs(n - 2, limit);
      var k := (n - 1) / 2;
      assert (n + 1) / 2 == k + 1;
      assert (k + 1) * (limit + 1) == k * (limit + 1) + (limit + 1);
    }
  }

  /** The length of the last `n` closed files and the active one. */
  function KeptLength(log: Log, n: nat): nat
    requires n <= |log.closed|
  {
    Length(Group(log, n)) + if n == 0 then 0 else KeptLength(log, n - 1)
  }

  lemma {:induction false} KeptLengthIs(log: Log, n: nat)
    requires n <= |log.closed|
    ensures KeptLength(log, n) == |Flat(LastChunks(log, n))|
  {
    if n > 0 {
      KeptLengthIs(log, n - 1);
      FlatConcat(ChunksOf(Group(log, n)), LastChunks(log, n - 1));
    }
  }

  lemma PairIsFull(log: Log, n: nat, first: nat, limit: nat)
    requires FullPairs(log, first, |log.closed|, limit) && 0 < n && first + n <= |log.closed|
    ensures limit < Length(Group(log, n)) + Length(Group(log, n - 1))
  {
    var i: nat := |log.closed| - n;
    assert FileAt(log, i) == Group(log, n) && FileAt(log, i + 1) == Group(log, n - 1);
  }

  /** So what the backups hold has a lower bound: the limit and a byte for every two files. */
  lemma {:induction false} FullPairsHoldMuch(log: Log, n: nat, first: nat, limit: nat)
    requires FullPairs(log, first, |log.closed|, limit) && first + n <= |log.closed|
    ensures ForPairs(n, limit) <= KeptLength(log, n)
    decreases n
  {
    if n > 0 {
      PairIsFull(log, n, first, limit);
      if n > 1 { FullPairsHoldMuch(log, n - 2, first, limit); }
    }
  }

  lemma {:induction false} ClosedChunksPrefix(closed: seq<Option<seq<Bytes>>>, k: nat)
    requires k <= |closed|
    ensures |Flat(ClosedChunks(closed[..k]))| <= |Flat(ClosedChunks(closed))|
    decreases |closed|
  {
    if k == |closed| {
      assert closed[..k] == closed;
    } else {
      var rest := closed[..|closed| - 1];
      ClosedChunksPrefix(rest, k);
      assert rest[..k] == closed[..k];
      FlatConcat(ClosedChunks(rest), ChunksOf(closed[|closed| - 1]));
    }
  }

  /** If no more is dropped than what was closed before a run, the files hold what came after that. */
  lemma NothingNewDropped(c: Config, s: Session, ops: seq<Op>, files: Files, filename: string, maxBackups: nat)
    requires Mirrors(ApplyAll(c, s, ops).log, files, filename, maxBackups)
    requires |ApplyAll(c, s, ops).log.closed| - maxBackups <= |s.log.closed|
    ensures Length(s.log.active) + |Flat(Accepted(c, ops))| <= |Stream(files, filename, maxBackups)|
  {
    var log := ApplyAll(c, s, ops).log;
    var k := |log.closed| - maxBackups;
    RunConserves(c, s, ops);
    FilesAreSuffix(log, files, filename, maxBackups);
    assert log.closed[..k] == s.log.closed[..k];
    ClosedChunksPrefix(s.log.closed, k);
    FlatConcat(AllChunks(s.log), Accepted(c, ops));
    FlatConcat(ClosedChunks(s.log.closed), ChunksOf(s.log.active));
  }

  lemma PairsAreKept(log: Log, first: nat, limit: nat, files: Files, filename: string, maxBackups: nat)
    requires FullPairs(log, first, |log.closed|, limit) && first + maxBackups <= |log.closed|
    requires Mirrors(log, files, filename, maxBackups)
    ensures ForPairs(maxBackups, limit) <= |Stream(files, filename, maxBackups)|
  {
    StreamIsLastChunks(log, files, filename, maxBackups, maxBackups);
    KeptLengthIs(log, maxBackups);
    FullPairsHoldMuch(log, maxBackups, first, limit);
  }

  /** After any number of writes the files hold all of them and what was in the active file before, or more than the
      limit for every two files. */
  lemma WritesAreKept(c: Config, s: Session, ops: seq<Op>, files: Files, filename: string, maxBackups: nat)
    requires SizeBounded(s) && forall i :: 0 <= i < |ops| ==> ops[i].Write?
    requires Mirrors(ApplyAll(c, s, ops).log, files, filename, maxBackups)
    ensures var kept := |Stream(files, filename, maxBackups)|;
            Length(s.log.active) + |Flat(Accepted(c, ops))| <= kept
            || ForPairs(maxBackups, c.maxSizeBytes) <= kept
  {
    var log, first := ApplyAll(c, s, ops).log, NextFile(c, s);
    WritesFill(c, s, ops, first);
    if first + maxBackups <= |log.closed| {
      PairsAreKept(log, first, c.maxSizeBytes, files, filename, maxBackups);
    } else {
      NothingNewDropped(c, s, ops, files, filename, maxBackups);
    }
  }
}
