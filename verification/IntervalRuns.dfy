/** Runs of the rotator of file/rotator.go with an interval, from one interval to the next. */
module IntervalRuns {
  import opened Arithmetic
  import opened Options
  import opened Decimal
  import opened DiskModel
  import opened IntervalLogs
  import opened IntervalRotation

  // ---------- From one interval to a later one ----------

  /** The formatted dates of a clock that does not go back. They all have one length. */
  ghost predicate DatesInOrder(dates: seq<string>) {
    forall i, j :: 0 <= i < j < |dates| ==>
      |dates[i]| == |dates[j]| && (dates[i] == dates[j] || Less(dates[i], dates[j]))
  }

  ghost predicate NoneOf(files: Files, filename: string, date: string) {
    Matches(files, LogPrefix(filename, date)) == {}
  }

  lemma PrefixesInOrder(filename: string, earlier: string, later: string)
    requires |earlier| == |later| && Less(earlier, later)
    ensures Less(LogPrefix(filename, earlier), LogPrefix(filename, later))
  {
    LessByPrefix(earlier, later, "-");
    LessThanExtension(earlier + "-", later, "-");
    LessUnderPrefix(filename + "-", earlier + "-", later + "-");
    assert LogPrefix(filename, earlier) == filename + "-" + (earlier + "-");
    assert LogPrefix(filename, later) == filename + "-" + (later + "-");
  }

  /** All logs of an interval are older than those of a later one. */
  lemma LaterFamily(files: Files, filename: string, earlier: string, later: string, limit: nat)
    requires Family(files, filename, earlier, limit) && limit <= INT64_LIMIT
    requires |earlier| == |later| && Less(earlier, later) && NoneOf(files, filename, later)
    ensures Family(files, filename, later, limit)
  {
    var p, q := LogPrefix(filename, earlier), LogPrefix(filename, later);
    PrefixesInOrder(filename, earlier, later);
    assert forall name :: name in files ==> (q <= name <==> name in Matches(files, q));
    forall name | name in files && filename <= name && name != filename ensures Older(name, q) {
      if p <= name && EndsInDigit(name) {
        var k: nat :| k < limit && name == p + Digits(k);
        EarlierDateIsOlder(p, q, k);
      } else {
        OlderInFamily(files, filename, earlier, limit, name);
        LessChain(OrderKey(name), p, q);
      }
    }
  }

  lemma OtherPrefix(filename: string, date: string, other: string, digits: string)
    requires |date| == |other| && date != other
    ensures !(LogPrefix(filename, other) <= LogPrefix(filename, date) + digits)
  {
    var p, q, from := LogPrefix(filename, date), LogPrefix(filename, other), |filename| + 1;
    assert p[from..from + |date|] == date && q[from..from + |date|] == other;
    assert (p + digits)[..|q|] == p;
  }

  /** A rotation makes no log of another interval. */
  lemma NoneOfOthers(before: Files, after: Files, filename: string, date: string, t: nat, other: string)
    requires |date| == |other| && date != other && NoneOf(before, filename, other)
    requires forall name :: name in after ==> name in before || name == LogPrefix(filename, date) + Digits(t)
    ensures NoneOf(after, filename, other)
  {
    var q := LogPrefix(filename, other);
    OtherPrefix(filename, date, other, Digits(t));
    assert forall name :: name in before ==> (q <= name <==> name in Matches(before, q));
  }

  /** The log that a rotation makes comes after all other files. */
  lemma TargetIsNewest(files: Files, filename: string, date: string, limit: nat, t: nat, name: string)
    requires Family(files, filename, date, limit) && limit < INT64_LIMIT && t <= limit
    requires NextIndex(files, LogPrefix(filename, date), t) && name in Matches(files, filename) && name != filename
    ensures Less(OrderKey(name), OrderKey(LogPrefix(filename, date) + Digits(t)))
  {
    var prefix := LogPrefix(filename, date);
    if prefix <= name && EndsInDigit(name) {
      var k: nat :| k < limit && name == prefix + Digits(k);
      OrderIsNumeric(prefix, k, t);
    } else {
      OlderInFamily(files, filename, date, limit, name);
      OlderSortsFirst(name, prefix, t);
    }
  }

  // ---------- The last targets ----------

  /** The names of the last `k` targets. */
  function LastNames(targets: seq<string>, k: nat): (names: set<string>)
    requires k <= |targets|
    ensures |names| <= k
  {
    if k == 0 then {} else LastNames(targets, k - 1) + {targets[|targets| - k]}
  }

  lemma {:induction false} LastNamesAre(targets: seq<string>, k: nat, name: string)
    requires k <= |targets|
    ensures name in LastNames(targets, k) <==> exists i :: |targets| - k <= i < |targets| && targets[i] == name
  {
    if k > 0 { LastNamesAre(targets, k - 1, name); }
  }

  /** The first of the targets that are to be kept. */
  function Kept(targets: seq<string>, maxBackups: nat): nat {
    if |targets| <= maxBackups then 0 else |targets| - maxBackups
  }

  function Newest(targets: seq<string>, maxBackups: nat): (names: set<string>)
    ensures |names| <= maxBackups
  {
    LastNames(targets, |targets| - Kept(targets, maxBackups))
  }

  lemma NewestAre(targets: seq<string>, maxBackups: nat, name: string)
    ensures name in Newest(targets, maxBackups) <==>
            exists i :: Kept(targets, maxBackups) <= i < |targets| && targets[i] == name
  {
    LastNamesAre(targets, |targets| - Kept(targets, maxBackups), name);
  }

  /** The contents of the last `maxBackups` rotations are in their targets. */
  ghost predicate LastAreKept(files: Files, targets: seq<string>, contents: seq<Bytes>, maxBackups: nat) {
    |targets| <= |contents|
    && forall i :: Kept(targets, maxBackups) <= i < |targets| ==>
         targets[i] in files && files[targets[i]] == contents[i]
  }

  /** They are the newest files, the last one the newest of all. */
  ghost predicate LastAreNewest(files: Files, filename: string, targets: seq<string>, maxBackups: nat) {
    var first := Kept(targets, maxBackups);
    && (forall i :: first <= i < |targets| ==> filename <= targets[i] && targets[i] != filename)
    && (forall i, j :: first <= i < j < |targets| ==> Less(OrderKey(targets[i]), OrderKey(targets[j])))
    && (forall name, i ::
          name in Matches(files, filename) && name !in Newest(targets, maxBackups) && first <= i < |targets| ==>
            Less(OrderKey(name), OrderKey(targets[i])))
  }

  /** A file that is none of the last targets comes before them also when there is one more. */
  lemma NewestSnocOthers(before: Files, filename: string, targets: seq<string>, target: string, maxBackups: nat,
                         name: string, i: nat)
    requires LastAreNewest(before, filename, targets, maxBackups)
    requires forall name :: name in Matches(before, filename) ==> Less(OrderKey(name), OrderKey(target))
    requires name in Matches(before, filename) && name !in Newest(targets + [target], maxBackups)
    requires Kept(targets + [target], maxBackups) <= i <= |targets|
    ensures Less(OrderKey(name), OrderKey((targets + [target])[i]))
  {
    var all := targets + [target];
    NewestAre(targets, maxBackups, name);
    NewestAre(all, maxBackups, name);
    if i < |targets| && name in Newest(targets, maxBackups) {
      var j :| Kept(targets, maxBackups) <= j < |targets| && targets[j] == name;
      assert all[j] == name;
    }
  }

  /** One more target, which is newer than all files there were. */
  lemma NewestSnoc(before: Files, filename: string, content: Bytes, targets: seq<string>, target: string,
                   maxBackups: nat)
    requires LastAreNewest(before, filename, targets, maxBackups) && filename <= target && target != filename
    requires forall i :: Kept(targets, maxBackups) <= i < |targets| ==> targets[i] in before
    requires forall name :: name in Matches(before, filename) ==> Less(OrderKey(name), OrderKey(target))
    ensures LastAreNewest(before[target := content], filename, targets + [target], maxBackups)
  {
    var all, first := targets + [target], Kept(targets + [target], maxBackups);
    forall i, j | first <= i < j < |all| ensures Less(OrderKey(all[i]), OrderKey(all[j])) {
      if j == |targets| { assert all[i] in Matches(before, filename); }
    }
    forall name, i | name in Matches(before[target := content], filename) && name !in Newest(all, maxBackups)
                     && first <= i < |all|
      ensures Less(OrderKey(name), OrderKey(all[i]))
    {
      NewestAre(all, maxBackups, name);
      assert all[|targets|] == target;
      NewestSnocOthers(before, filename, targets, target, maxBackups, name, i);
    }
  }

  /** The purge spares them. */
  lemma NewestSpared(files: Files, removed: set<string>, filename: string, targets: seq<string>, maxBackups: nat)
    requires LastAreNewest(files, filename, targets, maxBackups)
    requires forall i :: Kept(targets, maxBackups) <= i < |targets| ==> targets[i] in files
    requires OldestRemoved(Matches(files, filename), removed, maxBackups)
    ensures forall i :: Kept(targets, maxBackups) <= i < |targets| ==> targets[i] !in removed
    ensures LastAreNewest(files - removed, filename, targets, maxBackups)
  {
    var first, found, newest := Kept(targets, maxBackups), Matches(files, filename), Newest(targets, maxBackups);
    forall name | name in newest
      ensures name in found && forall other :: other in found - newest ==> Less(OrderKey(other), OrderKey(name))
    {
      NewestAre(targets, maxBackups, name);
    }
    NewestAreKept(found, removed, newest, maxBackups);
    forall i | first <= i < |targets| ensures targets[i] !in removed {
      NewestAre(targets, maxBackups, targets[i]);
    }
    assert Matches(files - removed, filename) == found - removed;
  }

  // ---------- Runs ----------

  /** A run up to now: its files, with the logs of the last date. */
  ghost predicate RunState(files: Files, filename: string, dates: seq<string>, indices: seq<nat>, limit: nat,
                           maxBackups: nat)
    requires 0 < |indices| <= |dates|
  {
    var n := |indices|;
    && Family(files, filename, dates[n - 1], limit)
    && RotatedAt(files, filename, dates[n - 1], indices[n - 1], maxBackups)
    && forall i :: n <= i < |dates| && dates[i] != dates[n - 1] ==> NoneOf(files, filename, dates[i])
  }

  /** What the files must be like for a rotation with a date. */
  ghost predicate Ready(files: Files, filename: string, date: string, limit: nat) {
    filename !in files && Family(files, filename, date, limit) && CanGoOn(files, LogPrefix(filename, date))
  }

  lemma RunIsReady(files: Files, filename: string, dates: seq<string>, indices: seq<nat>, limit: nat, maxBackups: nat)
    requires 0 < |indices| < |dates| && DatesInOrder(dates) && limit <= INT64_LIMIT
    requires RunState(files, filename, dates, indices, limit, maxBackups)
    ensures Ready(files, filename, dates[|indices|], limit)
  {
    var n := |indices|;
    var earlier, later, last := dates[n - 1], dates[n], indices[n - 1];
    var prefix := LogPrefix(filename, earlier);
    if earlier != later {
      LaterFamily(files, filename, earlier, later, limit);
    } else if maxBackups > 0 {
      IndexInFamily(files, prefix, limit, last);
      IndexRoundTrip(prefix, last);
      assert prefix + Digits(last) in Matches(files, prefix);
    } else {
      assert Matches(files, prefix) <= Matches(files, filename);
    }
  }

  /** The next index of a run: one more than the last if the last log is of the same interval and still there. */
  lemma RunNextIndex(files: Files, filename: string, dates: seq<string>, indices: seq<nat>, limit: nat,
                     maxBackups: nat, t: nat)
    requires 0 < |indices| < |dates| && RunState(files, filename, dates, indices, limit, maxBackups)
    requires NextIndex(files, LogPrefix(filename, dates[|indices|]), t)
    ensures t == if maxBackups > 0 && dates[|indices|] == dates[|indices| - 1] then indices[|indices| - 1] + 1 else 1
  {
    var n := |indices|;
    if dates[n] == dates[n - 1] {
      IndexAfter(files, filename, dates[n], t, indices[n - 1], maxBackups);
    } else {
      assert NoneOf(files, filename, dates[n]);
    }
  }

  /** A file that is just being written changes none of that. */
  lemma ReadyWithActive(files: Files, filename: string, date: string, content: Bytes, limit: nat)
    requires Ready(files, filename, date, limit)
    ensures var written := files[filename := content];
            Family(written, filename, date, limit) && CanRotate(written, filename, date)
  {
    var prefix := LogPrefix(filename, date);
    assert Matches(files[filename := content], prefix) == Matches(files, prefix);
  }

  /** The indices of a run: each is one more than the last within an interval, unless no backup is kept, and 1 at the
      beginning of the next. */
  ghost predicate RunIndices(targets: seq<string>, indices: seq<nat>, filename: string, dates: seq<string>,
                             maxBackups: nat)
  {
    && |targets| == |indices| <= |dates|
    && (forall i :: 0 <= i < |indices| ==> targets[i] == LogPrefix(filename, dates[i]) + Digits(indices[i]))
    && (forall i :: 0 < i < |indices| ==>
          indices[i] == if maxBackups > 0 && dates[i] == dates[i - 1] then indices[i - 1] + 1 else 1)
  }

  /** A log of one date is none of a later one. */
  lemma StillNone(before: Files, after: Files, filename: string, dates: seq<string>, n: nat, t: nat)
    requires n < |dates| && DatesInOrder(dates)
    requires forall i :: n <= i < |dates| && dates[i] != dates[n] ==> NoneOf(before, filename, dates[i])
    requires forall name :: name in after ==> name in before || name == LogPrefix(filename, dates[n]) + Digits(t)
    ensures forall i :: n < i < |dates| && dates[i] != dates[n] ==> NoneOf(after, filename, dates[i])
  {
    forall i | n < i < |dates| && dates[i] != dates[n] ensures NoneOf(after, filename, dates[i]) {
      NoneOfOthers(before, after, filename, dates[n], t, dates[i]);
    }
  }

  /** The state of a run after one more rotation. */
  lemma RunSnoc(before: Files, after: Files, filename: string, dates: seq<string>,
                indices: seq<nat>, t: nat, limit: nat, maxBackups: nat)
    requires |indices| < |dates| && DatesInOrder(dates)
    requires forall i :: |indices| <= i < |dates| && dates[i] != dates[|indices|] ==> NoneOf(before, filename, dates[i])
    requires Family(after, filename, dates[|indices|], limit)
    requires RotatedAt(after, filename, dates[|indices|], t, maxBackups)
    requires forall name :: name in after ==>
               name in before || name == LogPrefix(filename, dates[|indices|]) + Digits(t)
    ensures RunState(after, filename, dates, indices + [t], limit, maxBackups)
  {
    StillNone(before, after, filename, dates, |indices|, t);
  }

  lemma KeptSnoc(before: Files, removed: set<string>, target: string, content: Bytes, contents: seq<Bytes>,
                 targets: seq<string>, maxBackups: nat)
    requires LastAreKept(before, targets, contents, maxBackups) && target !in before
    requires |targets| < |contents| && content == contents[|targets|]
    requires forall i :: Kept(targets + [target], maxBackups) <= i <= |targets| ==> (targets + [target])[i] !in removed
    ensures LastAreKept(before[target := content] - removed, targets + [target], contents, maxBackups)
  {
    var all := targets + [target];
    forall i | Kept(all, maxBackups) <= i < |all|
      ensures all[i] in before[target := content] && before[target := content][all[i]] == contents[i]
    {
      if i < |targets| { assert all[i] == targets[i]; }
    }
  }

  /** The last targets after one more rotation. */
  lemma TargetsSnoc(before: Files, removed: set<string>, filename: string, date: string, limit: nat, t: nat,
                    content: Bytes, contents: seq<Bytes>, targets: seq<string>, maxBackups: nat)
    requires filename !in before && Family(before, filename, date, limit) && limit < INT64_LIMIT && t <= limit
    requires NextIndex(before, LogPrefix(filename, date), t) && LogPrefix(filename, date) + Digits(t) !in before
    requires LastAreNewest(before, filename, targets, maxBackups)
    requires LastAreKept(before, targets, contents, maxBackups)
    requires |targets| < |contents| && content == contents[|targets|]
    requires var renamed := before[LogPrefix(filename, date) + Digits(t) := content];
             OldestRemoved(Matches(renamed, filename), removed, maxBackups)
    ensures var target := LogPrefix(filename, date) + Digits(t);
            var after := before[target := content] - removed;
            LastAreNewest(after, filename, targets + [target], maxBackups)
            && LastAreKept(after, targets + [target], contents, maxBackups)
  {
    var target := LogPrefix(filename, date) + Digits(t);
    forall name | name in Matches(before, filename) ensures Less(OrderKey(name), OrderKey(target)) {
      TargetIsNewest(before, filename, date, limit, t, name);
    }
    AnyTargetSnoc(before, removed, filename, target, content, contents, targets, maxBackups);
  }

  lemma AnyTargetSnoc(before: Files, removed: set<string>, filename: string, target: string, content: Bytes,
                      contents: seq<Bytes>, targets: seq<string>, maxBackups: nat)
    requires target !in before && filename <= target && target != filename
    requires forall name :: name in Matches(before, filename) ==> Less(OrderKey(name), OrderKey(target))
    requires LastAreNewest(before, filename, targets, maxBackups)
    requires LastAreKept(before, targets, contents, maxBackups)
    requires |targets| < |contents| && content == contents[|targets|]
    requires OldestRemoved(Matches(before[target := content], filename), removed, maxBackups)
    ensures LastAreNewest(before[target := content] - removed, filename, targets + [target], maxBackups)
    ensures LastAreKept(before[target := content] - removed, targets + [target], contents, maxBackups)
  {
    NewestSnoc(before, filename, content, targets, target, maxBackups);
    KeptSnoc(before, {}, target, content, contents, targets, maxBackups);
    assert before[target := content] - {} == before[target := content];
    NewestSpared(before[target := content], removed, filename, targets + [target], maxBackups);
    KeptSnoc(before, removed, target, content, contents, targets, maxBackups);
  }

  /** How a run can begin. */
  ghost predicate CanBegin(files: Files, filename: string, dates: seq<string>, limit: nat) {
    && DatesInOrder(dates)
    && (dates != [] ==> Ready(files, filename, dates[0], limit))
    && forall i :: 0 <= i < |dates| && dates[i] != dates[0] ==> NoneOf(files, filename, dates[i])
  }

  /** How it has come to its present files. */
  ghost predicate RunAt(start: Files, files: Files, filename: string, dates: seq<string>, indices: seq<nat>,
                        limit: nat, maxBackups: nat)
  {
    |indices| <= |dates| &&
    if indices == [] then files == start && CanBegin(start, filename, dates, limit)
    else NextIndex(start, LogPrefix(filename, dates[0]), indices[0]) && DatesInOrder(dates)
         && RunState(files, filename, dates, indices, limit, maxBackups)
  }

  lemma DateNeverReturns(dates: seq<string>, i: nat, j: nat, k: nat)
    requires DatesInOrder(dates) && i < j < k < |dates| && dates[j] != dates[k]
    ensures dates[i] != dates[k]
  {
    LessAsymmetric(dates[j], dates[k]);
  }

  lemma NoneOfLater(files: Files, filename: string, dates: seq<string>, indices: seq<nat>, limit: nat,
                    maxBackups: nat, i: nat)
    requires 0 < |indices| < i < |dates| && DatesInOrder(dates) && dates[i] != dates[|indices|]
    requires RunState(files, filename, dates, indices, limit, maxBackups)
    ensures NoneOf(files, filename, dates[i])
  {
    DateNeverReturns(dates, |indices| - 1, |indices|, i);
  }

  lemma RunReady(start: Files, files: Files, filename: string, dates: seq<string>, indices: seq<nat>, limit: nat,
                 maxBackups: nat)
    requires RunAt(start, files, filename, dates, indices, limit, maxBackups)
    requires |indices| < |dates| && limit <= INT64_LIMIT
    ensures Ready(files, filename, dates[|indices|], limit) && DatesInOrder(dates)
    ensures forall i :: |indices| <= i < |dates| && dates[i] != dates[|indices|] ==> NoneOf(files, filename, dates[i])
  {
    if indices != [] {
      RunIsReady(files, filename, dates, indices, limit, maxBackups);
      forall i | |indices| <= i < |dates| && dates[i] != dates[|indices|] ensures NoneOf(files, filename, dates[i]) {
        NoneOfLater(files, filename, dates, indices, limit, maxBackups, i);
      }
    }
  }

  /** What one more rotation with a date makes of files that are ready for it. */
  lemma ReadyGoesOn(files: Files, filename: string, date: string, limit: nat, maxBackups: nat, content: Bytes,
                    target: string, removed: set<string>)
    returns (t: nat)
    requires Ready(files, filename, date, limit) && 0 < limit < INT64_LIMIT
    requires var written := files[filename := content];
             (exists n: nat :: n <= limit && IsNext(written, filename, date, n, Some(target)))
             && OldestRemoved(Matches(Renamed(written, filename, target), filename), removed, maxBackups)
    ensures t <= limit && target == LogPrefix(filename, date) + Digits(t) && target !in files
    ensures NextIndex(files, LogPrefix(filename, date), t)
    ensures Renamed(files[filename := content], filename, target) == files[target := content]
    ensures Family(files[target := content] - removed, filename, date, if limit <= t then t + 1 else limit)
    ensures RotatedAt(files[target := content] - removed, filename, date, t, maxBackups)
  {
    var written := files[filename := content];
    ReadyWithActive(files, filename, date, content, limit);
    t := RotatedFamily(written, filename, date, limit, target, removed, maxBackups);
    NextIndexWithoutActive(files, filename, date, content, t);
    RenamedWritten(files, filename, content, target);
  }

  lemma RenamedWritten(files: Files, filename: string, content: Bytes, target: string)
    requires filename !in files
    ensures Renamed(files[filename := content], filename, target) == files[target := content]
  {
    assert files[filename := content] - {filename} == files;
  }

  /** The index of one more rotation of a run, and the state after it. */
  lemma RunGoesOn(start: Files, files: Files, after: Files, filename: string, dates: seq<string>, indices: seq<nat>,
                  limit: nat, maxBackups: nat, t: nat)
    requires RunAt(start, files, filename, dates, indices, limit, maxBackups) && |indices| < |dates|
    requires limit <= INT64_LIMIT && NextIndex(files, LogPrefix(filename, dates[|indices|]), t)
    requires Family(after, filename, dates[|indices|], if limit <= t then t + 1 else limit)
    requires RotatedAt(after, filename, dates[|indices|], t, maxBackups)
    requires forall name :: name in after ==>
               name in files || name == LogPrefix(filename, dates[|indices|]) + Digits(t)
    ensures indices != [] ==>
              t == if maxBackups > 0 && dates[|indices|] == dates[|indices| - 1] then indices[|indices| - 1] + 1 else 1
    ensures RunAt(start, after, filename, dates, indices + [t], if limit <= t then t + 1 else limit, maxBackups)
  {
    RunReady(start, files, filename, dates, indices, limit, maxBackups);
    if indices != [] { RunNextIndex(files, filename, dates, indices, limit, maxBackups, t); }
    RunSnoc(files, after, filename, dates, indices, t, if limit <= t then t + 1 else limit, maxBackups);
  }

  lemma IndicesSnoc(targets: seq<string>, indices: seq<nat>, filename: string, dates: seq<string>, maxBackups: nat,
                    t: nat)
    requires RunIndices(targets, indices, filename, dates, maxBackups) && |indices| < |dates|
    requires indices != [] ==>
              t == if maxBackups > 0 && dates[|indices|] == dates[|indices| - 1] then indices[|indices| - 1] + 1 else 1
    ensures RunIndices(targets + [LogPrefix(filename, dates[|indices|]) + Digits(t)], indices + [t], filename, dates,
                       maxBackups)
  {
  }

  /** One more rotation of a run. */
  method RotateNext(rotator: Rotator, dates: seq<string>, contents: seq<Bytes>, n: nat, ghost start: Files,
                    ghost targets: seq<string>, ghost indices: seq<nat>, ghost limit: nat)
    returns (target: string, ghost t: nat)
    requires rotator.disk.Valid() && n == |targets| == |indices| < |dates| == |contents| && 0 < limit < INT64_LIMIT
    requires RunAt(start, rotator.disk.files, rotator.filename, dates, indices, limit, rotator.maxBackups)
    requires RunIndices(targets, indices, rotator.filename, dates, rotator.maxBackups)
    requires LastAreKept(rotator.disk.files, targets, contents, rotator.maxBackups)
    requires LastAreNewest(rotator.disk.files, rotator.filename, targets, rotator.maxBackups)
    modifies rotator.disk
    ensures rotator.disk.Valid() && t <= limit
    ensures RunAt(start, rotator.disk.files, rotator.filename, dates, indices + [t],
                  if limit <= t then t + 1 else limit, rotator.maxBackups)
    ensures RunIndices(targets + [target], indices + [t], rotator.filename, dates, rotator.maxBackups)
    ensures LastAreKept(rotator.disk.files, targets + [target], contents, rotator.maxBackups)
    ensures LastAreNewest(rotator.disk.files, rotator.filename, targets + [target], rotator.maxBackups)
  {
    ghost var files := rotator.disk.files;
    RunReady(start, files, rotator.filename, dates, indices, limit, rotator.maxBackups);
    ReadyWithActive(files, rotator.filename, dates[n], contents[n], limit);
    var ok;
    ghost var removed;
    ok, target, removed := rotator.WriteAndRotate(dates[n], contents[n]);
    t := ReadyGoesOn(files, rotator.filename, dates[n], limit, rotator.maxBackups, contents[n], target, removed);
    RunGoesOn(start, files, rotator.disk.files, rotator.filename, dates, indices, limit, rotator.maxBackups, t);
    IndicesSnoc(targets, indices, rotator.filename, dates, rotator.maxBackups, t);
    TargetsSnoc(files, removed, rotator.filename, dates[n], limit, t, contents[n], contents, targets,
                rotator.maxBackups);
  }

  /** A run: each content is written to the active file, which then is rotated with its date. */
  method RotateAll(rotator: Rotator, dates: seq<string>, contents: seq<Bytes>, ghost limit: nat)
    returns (targets: seq<string>, ghost indices: seq<nat>)
    requires rotator.disk.Valid() && |dates| == |contents|
    requires 0 < limit && limit + |contents| < 0x8000_0000_0000_0000
    requires CanBegin(rotator.disk.files, rotator.filename, dates, limit)
    modifies rotator.disk
    ensures |targets| == |contents|
    ensures RunIndices(targets, indices, rotator.filename, dates, rotator.maxBackups)
    ensures dates != [] ==> NextIndex(old(rotator.disk.files), LogPrefix(rotator.filename, dates[0]), indices[0])
    ensures LastAreKept(rotator.disk.files, targets, contents, rotator.maxBackups)
  {
    targets, indices := [], [];
    ghost var start, bound: nat := rotator.disk.files, limit;
    for n := 0 to |contents|
      invariant rotator.disk.Valid() && |targets| == |indices| == n
      invariant 0 < bound <= limit + n
      invariant RunAt(start, rotator.disk.files, rotator.filename, dates, indices, bound, rotator.maxBackups)
      invariant RunIndices(targets, indices, rotator.filename, dates, rotator.maxBackups)
      invariant LastAreKept(rotator.disk.files, targets, contents, rotator.maxBackups)
      invariant LastAreNewest(rotator.disk.files, rotator.filename, targets, rotator.maxBackups)
    {
      var target;
      ghost var t;
      target, t := RotateNext(rotator, dates, contents, n, start, targets, indices, bound);
      targets, indices := targets + [target], indices + [t];
      bound := if bound <= t then t + 1 else bound;
    }
  }
}
