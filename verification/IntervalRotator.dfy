/** The rotator object of file/rotator.go with an interval. The formatted date of the interval is a parameter. */
module IntervalRotation {
  import opened Arithmetic
  import opened Options
  import opened Decimal
  import opened DiskModel
  import opened IntervalLogs

  /** What a glob of `prefix` followed by a star finds. */
  function Matches(files: Files, prefix: string): set<string> {
    set name | name in files && prefix <= name
  }

  function LogPrefix(filename: string, date: string): string {
    filename + "-" + date + "-"
  }

  /** What begins like a log of an interval is one with an index below `limit`, or does not end in a digit. */
  ghost predicate Numbered(files: Files, prefix: string, limit: nat) {
    forall name :: name in files && prefix <= name && EndsInDigit(name) ==>
      exists k: nat :: k < limit && name == prefix + Digits(k)
  }

  /** The names under `filename`: logs of the present interval, older ones, and the active file. */
  ghost predicate Family(files: Files, filename: string, date: string, limit: nat) {
    var prefix := LogPrefix(filename, date);
    && Numbered(files, prefix, limit)
    && forall name :: name in files && filename <= name && name != filename && !(prefix <= name) ==>
         Older(name, prefix)
  }

  /** There is no log of the interval yet, or one with an index to go on from. */
  ghost predicate CanGoOn(files: Files, prefix: string) {
    Matches(files, prefix) != {} ==> exists name :: name in Matches(files, prefix) && LogIndex(name).Some?
  }

  lemma NoDigitNoIndex(name: string)
    requires !EndsInDigit(name)
    ensures LogIndex(name) == None
  {
  }

  lemma LogEndsInDigit(prefix: string, k: nat)
    ensures EndsInDigit(prefix + Digits(k))
  {
    DigitsRoundTrip(k);
    assert (prefix + Digits(k))[|prefix + Digits(k)| - 1] == Digits(k)[|Digits(k)| - 1];
  }

  /** `t` is the index after all those of the interval, beginning with 1. */
  ghost predicate NextIndex(files: Files, prefix: string, t: nat) {
    && (forall k: nat :: prefix + Digits(k) in files ==> k < t)
    && (if Matches(files, prefix) == {} then t == 1 else 0 < t && prefix + Digits(t - 1) in files)
  }

  ghost predicate IsNext(files: Files, filename: string, date: string, t: nat, target: Option<string>) {
    var prefix := LogPrefix(filename, date);
    NextIndex(files, prefix, t) && target == Some(prefix + Digits(t)) && prefix + Digits(t) !in files
  }

  lemma DuplicateCountsTwice(names: seq<string>, i: nat, j: nat)
    requires i < j < |names| && names[i] == names[j]
    ensures multiset(names)[names[i]] >= 2
  {
    assert names == names[..i] + [names[i]] + names[i + 1..j] + [names[j]] + names[j + 1..];
  }

  lemma SortedDistinct(sorted: seq<string>, names: set<string>)
    requires multiset(sorted) == multiset(names)
    ensures forall i, j :: 0 <= i < j < |sorted| ==> sorted[i] != sorted[j]
    ensures forall name :: name in sorted <==> name in names
    ensures |sorted| == |names|
  {
    forall i, j | 0 <= i < j < |sorted| ensures sorted[i] != sorted[j] {
      if sorted[i] == sorted[j] { DuplicateCountsTwice(sorted, i, j); }
    }
    forall name ensures name in sorted <==> name in names {
      assert name in sorted <==> name in multiset(sorted);
    }
    assert |multiset(sorted)| == |multiset(names)|;
  }

  /** The last of the sorted logs of an interval has the greatest index. */
  lemma LastIsGreatest(files: Files, prefix: string, limit: nat, sorted: seq<string>) returns (n: nat)
    requires Numbered(files, prefix, limit) && limit < 0x8000_0000_0000_0000 && !EndsInDigit(prefix)
    requires multiset(sorted) == multiset(Matches(files, prefix)) && SortedLogs(sorted)
    requires sorted != [] && LogIndex(sorted[|sorted| - 1]).Some?
    ensures n < limit && sorted[|sorted| - 1] == prefix + Digits(n) && prefix + Digits(n) in files
    ensures forall k: nat :: prefix + Digits(k) in files ==> k <= n
  {
    SortedDistinct(sorted, Matches(files, prefix));
    var last := sorted[|sorted| - 1];
    assert last in sorted;
    if !EndsInDigit(last) { NoDigitNoIndex(last); }
    n :| n < limit && last == prefix + Digits(n);
    forall k: nat | prefix + Digits(k) in files ensures k <= n {
      var name := prefix + Digits(k);
      IndexInFamily(files, prefix, limit, k);
      assert name in sorted;
      var i :| 0 <= i < |sorted| && sorted[i] == name;
      OrderIsNumeric(prefix, n, k);
      LessIrreflexive(OrderKey(last));
    }
  }

  lemma IndexInFamily(files: Files, prefix: string, limit: nat, k: nat)
    requires Numbered(files, prefix, limit) && prefix + Digits(k) in files
    ensures k < limit
  {
    var name := prefix + Digits(k);
    LogEndsInDigit(prefix, k);
    var m: nat :| m < limit && name == prefix + Digits(m);
    assert (prefix + Digits(k))[|prefix|..] == Digits(k) && (prefix + Digits(m))[|prefix|..] == Digits(m);
    DigitsInjective(k, m);
  }

  /** The name the active file gets, given the sorted logs of the interval. */
  function Target(prefix: string, sorted: seq<string>): Option<string> {
    if sorted == [] then Some(prefix + "1")
    else match LogIndex(sorted[|sorted| - 1])
      case Some(n) => Some(prefix + Itoa(Successor(n)))
      case None => None
  }

  /** The target has the index after all those of the interval, so it never is the name of another log. Other
      names have no part in that. */
  lemma TargetIsNext(files: Files, filename: string, date: string, limit: nat, sorted: seq<string>)
    returns (t: nat)
    requires Numbered(files, LogPrefix(filename, date), limit) && 0 < limit < 0x8000_0000_0000_0000
    requires multiset(sorted) == multiset(Matches(files, LogPrefix(filename, date))) && SortedLogs(sorted)
    requires sorted != [] ==> LogIndex(sorted[|sorted| - 1]).Some?
    ensures var prefix := LogPrefix(filename, date);
            t <= limit && IsNext(files, filename, date, t, Target(prefix, sorted))
  {
    var prefix := LogPrefix(filename, date);
    SortedDistinct(sorted, Matches(files, prefix));
    t := 1;
    if sorted == [] {
      forall k: nat ensures prefix + Digits(k) !in files {
        assert prefix + Digits(k) !in Matches(files, prefix);
      }
      assert Digits(1) == "1";
    } else {
      var n := LastIsGreatest(files, prefix, limit, sorted);
      t := n + 1;
      SuccessorIsNext(files, prefix, sorted, n);
    }
  }

  lemma SuccessorIsNext(files: Files, prefix: string, sorted: seq<string>, n: nat)
    requires sorted != [] && sorted[|sorted| - 1] == prefix + Digits(n) && n < INT64_LIMIT - 1
    requires !EndsInDigit(prefix) && prefix + Digits(n) in files
    requires forall k: nat :: prefix + Digits(k) in files ==> k <= n
    ensures NextIndex(files, prefix, n + 1) && prefix + Digits(n + 1) !in files
    ensures Target(prefix, sorted) == Some(prefix + Digits(n + 1))
  {
    IndexRoundTrip(prefix, n);
    SuccessorExact(n);
    assert prefix + Digits(n) in Matches(files, prefix);
  }

  function Names(files: seq<string>): set<string> {
    set name | name in files
  }

  lemma NamesStep(files: seq<string>, i: nat, cut: nat)
    requires i < cut <= |files| && forall j, k :: 0 <= j < k < |files| ==> files[j] != files[k]
    ensures Names(files[i..cut]) == Names(files[i + 1..cut]) + {files[i]} && files[i] !in Names(files[i + 1..cut])
  {
    assert files[i..cut] == [files[i]] + files[i + 1..cut];
  }

  lemma {:induction false} NamesCount(files: seq<string>, cut: nat)
    requires cut <= |files| && forall j, k :: 0 <= j < k < |files| ==> files[j] != files[k]
    ensures |Names(files[..cut])| == cut
    decreases cut
  {
    if cut > 0 {
      NamesCount(files, cut - 1);
      assert files[..cut] == files[..cut - 1] + [files[cut - 1]];
      assert Names(files[..cut]) == Names(files[..cut - 1]) + {files[cut - 1]};
      assert files[cut - 1] !in Names(files[..cut - 1]);
    }
  }

  lemma SortedSize(files: seq<string>, names: set<string>)
    requires multiset(files) == multiset(names)
    ensures |files| == |names|
  {
    assert |multiset(files)| == |multiset(names)|;
  }

  lemma OldestFirst(sorted: seq<string>, cut: nat)
    requires SortedLogs(sorted) && cut <= |sorted|
    requires forall i, j :: 0 <= i < j < |sorted| ==> sorted[i] != sorted[j]
    ensures forall gone, kept :: gone in Names(sorted[..cut]) && kept in sorted && kept !in Names(sorted[..cut]) ==>
              !Less(OrderKey(kept), OrderKey(gone))
  {
    forall gone, kept | gone in Names(sorted[..cut]) && kept in sorted && kept !in Names(sorted[..cut])
      ensures !Less(OrderKey(kept), OrderKey(gone))
    {
      var i :| 0 <= i < cut && sorted[i] == gone;
      var j :| 0 <= j < |sorted| && sorted[j] == kept;
      assert j >= cut;
    }
  }

  function Renamed(files: Files, filename: string, target: string): Files {
    if filename in files then (files - {filename})[target := files[filename]] else files
  }

  /** The files after the renaming are a family again, in which the new log has the greatest index. */
  lemma RenamedFamily(files: Files, filename: string, date: string, limit: nat, t: nat)
    requires Family(files, filename, date, limit) && limit < INT64_LIMIT && filename in files && t <= limit
    requires var target := LogPrefix(filename, date) + Digits(t); IsNext(files, filename, date, t, Some(target))
    ensures var target := LogPrefix(filename, date) + Digits(t);
            var renamed := Renamed(files, filename, target);
            Family(renamed, filename, date, if limit <= t then t + 1 else limit)
            && filename !in renamed && target in renamed
            && forall k: nat :: LogPrefix(filename, date) + Digits(k) in renamed ==> k <= t
  {
    var prefix := LogPrefix(filename, date);
    var target := prefix + Digits(t);
    forall k: nat | prefix + Digits(k) in Renamed(files, filename, target) ensures k <= t {
      if prefix + Digits(k) == target {
        assert (prefix + Digits(k))[|prefix|..] == Digits(k) && target[|prefix|..] == Digits(t);
        DigitsInjective(k, t);
      }
    }
  }

  /** Exactly the surplus over `maxBackups` is removed, and nothing that is newer than something kept. */
  ghost predicate OldestRemoved(found: set<string>, removed: set<string>, maxBackups: nat) {
    && removed <= found
    && |removed| == (if |found| > maxBackups then |found| - maxBackups else 0)
    && forall gone, kept :: gone in removed && kept in found - removed ==> !Less(OrderKey(kept), OrderKey(gone))
  }

  /** Removing the oldest spares those that are newer than all others, if they are no more than `maxBackups`. */
  lemma NewestAreKept(found: set<string>, removed: set<string>, newest: set<string>, maxBackups: nat)
    requires OldestRemoved(found, removed, maxBackups) && newest <= found && |newest| <= maxBackups
    requires forall name, top :: name in found - newest && top in newest ==> Less(OrderKey(name), OrderKey(top))
    ensures newest !! removed
  {
    if top :| top in newest && top in removed {
      var kept := found - removed;
      assert |kept| == |found| - |removed|;
      assert kept <= newest - {top};
      SubsetSize(kept, newest - {top});
    }
  }

  lemma {:induction false} SubsetSize(a: set<string>, b: set<string>)
    requires a <= b
    ensures |a| <= |b|
  {
    assert |b| == |a| + |b - a| by { assert b == a + (b - a); }
  }

  /** The state between two rotations of one interval: the last log has the greatest index, and it is there
      unless no backup is kept. */
  ghost predicate RotatedAt(files: Files, filename: string, date: string, last: nat, maxBackups: nat) {
    var prefix := LogPrefix(filename, date);
    && filename !in files
    && (forall k: nat :: prefix + Digits(k) in files ==> k <= last)
    && (if maxBackups == 0 then Matches(files, filename) == {} else prefix + Digits(last) in files)
  }

  /** The names of the `k` indices up to `t`. */
  function Recent(prefix: string, t: nat, k: nat): (names: set<string>)
    requires k <= t + 1
    ensures |names| <= k
  {
    if k == 0 then {} else {prefix + Digits(t)} + if t == 0 then {} else Recent(prefix, t - 1, k - 1)
  }

  lemma {:induction false} RecentIndex(prefix: string, t: nat, k: nat, name: string) returns (j: nat)
    requires k <= t + 1 && name in Recent(prefix, t, k)
    ensures j <= t < j + k && name == prefix + Digits(j)
    decreases k
  {
    j := t;
    if name != prefix + Digits(t) { j := RecentIndex(prefix, t - 1, k - 1, name); }
  }

  lemma {:induction false} RecentHas(prefix: string, t: nat, k: nat, j: nat)
    requires k <= t + 1 && j <= t < j + k
    ensures prefix + Digits(j) in Recent(prefix, t, k)
    decreases k
  {
    if j < t { RecentHas(prefix, t - 1, k - 1, j); }
  }

  lemma OlderInFamily(files: Files, filename: string, date: string, limit: nat, name: string)
    requires Family(files, filename, date, limit) && name in Matches(files, filename) && name != filename
    requires !(LogPrefix(filename, date) <= name && EndsInDigit(name))
    ensures Older(name, LogPrefix(filename, date))
  {
    if LogPrefix(filename, date) <= name {
      NoDigitNoIndex(name);
      UnnumberedIsOlder(name, LogPrefix(filename, date));
    }
  }

  /** The logs of the last indices come after all others of the family. */
  lemma RecentAreNewest(files: Files, filename: string, date: string, limit: nat, t: nat, k: nat, name: string,
                        top: string)
    requires Family(files, filename, date, limit) && limit <= INT64_LIMIT && filename !in files && k <= t + 1
    requires forall j: nat :: LogPrefix(filename, date) + Digits(j) in files ==> j <= t
    requires name in Matches(files, filename) && name !in Recent(LogPrefix(filename, date), t, k)
    requires top in files && top in Recent(LogPrefix(filename, date), t, k)
    ensures Less(OrderKey(name), OrderKey(top))
  {
    var prefix := LogPrefix(filename, date);
    var j := RecentIndex(prefix, t, k, top);
    IndexInFamily(files, prefix, limit, j);
    if prefix <= name && EndsInDigit(name) {
      var i: nat :| i < limit && name == prefix + Digits(i);
      if t < i + k { RecentHas(prefix, t, k, i); }
      OrderIsNumeric(prefix, i, j);
    } else {
      OlderInFamily(files, filename, date, limit, name);
      OlderSortsFirst(name, prefix, j);
    }
  }

  /** The logs of the last `maxBackups` indices up to `t` are still there, as they were. */
  ghost predicate KeepsRecent(before: Files, files: Files, prefix: string, t: nat, maxBackups: nat) {
    forall j: nat :: j <= t < j + maxBackups && prefix + Digits(j) in before ==>
      prefix + Digits(j) in files && files[prefix + Digits(j)] == before[prefix + Digits(j)]
  }

  lemma RecentSpared(files: Files, removed: set<string>, filename: string, date: string, limit: nat, t: nat,
                     maxBackups: nat)
    requires Family(files, filename, date, limit) && limit <= INT64_LIMIT && filename !in files
    requires forall k: nat :: LogPrefix(filename, date) + Digits(k) in files ==> k <= t
    requires OldestRemoved(Matches(files, filename), removed, maxBackups)
    ensures forall j: nat :: j <= t < j + maxBackups ==> LogPrefix(filename, date) + Digits(j) !in removed
  {
    var prefix, found := LogPrefix(filename, date), Matches(files, filename);
    var k := Min(maxBackups, t + 1);
    var newest := found * Recent(prefix, t, k);
    SubsetSize(newest, Recent(prefix, t, k));
    forall name, top | name in found - newest && top in newest ensures Less(OrderKey(name), OrderKey(top)) {
      RecentAreNewest(files, filename, date, limit, t, k, name, top);
    }
    NewestAreKept(found, removed, newest, maxBackups);
    forall j: nat | j <= t < j + maxBackups ensures prefix + Digits(j) !in removed {
      RecentHas(prefix, t, k, j);
    }
  }

  /** The purge after a renaming leaves a family with the logs of the last indices. */
  lemma PurgedFamily(renamed: Files, removed: set<string>, filename: string, date: string, limit: nat, t: nat,
                     maxBackups: nat)
    requires Family(renamed, filename, date, limit) && limit <= INT64_LIMIT && filename !in renamed
    requires LogPrefix(filename, date) + Digits(t) in renamed
    requires forall k: nat :: LogPrefix(filename, date) + Digits(k) in renamed ==> k <= t
    requires OldestRemoved(Matches(renamed, filename), removed, maxBackups)
    ensures Family(renamed - removed, filename, date, limit)
    ensures KeepsRecent(renamed, renamed - removed, LogPrefix(filename, date), t, maxBackups)
    ensures RotatedAt(renamed - removed, filename, date, t, maxBackups)
  {
    var found := Matches(renamed, filename);
    RecentSpared(renamed, removed, filename, date, limit, t, maxBackups);
    assert Matches(renamed - removed, filename) == found - removed;
    if maxBackups == 0 { assert |found - removed| == |found| - |removed|; }
  }

  /** What a rotation makes of a family of logs. */
  lemma RotatedFamily(files: Files, filename: string, date: string, limit: nat, target: string, removed: set<string>,
                      maxBackups: nat)
    returns (t: nat)
    requires Family(files, filename, date, limit) && 0 < limit < INT64_LIMIT && filename in files
    requires exists n: nat :: n <= limit && IsNext(files, filename, date, n, Some(target))
    requires OldestRemoved(Matches(Renamed(files, filename, target), filename), removed, maxBackups)
    ensures t <= limit && IsNext(files, filename, date, t, Some(target))
    ensures var renamed := Renamed(files, filename, target);
            Family(renamed - removed, filename, date, if limit <= t then t + 1 else limit)
            && RotatedAt(renamed - removed, filename, date, t, maxBackups)
            && KeepsRecent(renamed, renamed - removed, LogPrefix(filename, date), t, maxBackups)
  {
    t :| t <= limit && IsNext(files, filename, date, t, Some(target));
    RenamedFamily(files, filename, date, limit, t);
    PurgedFamily(Renamed(files, filename, target), removed, filename, date, if limit <= t then t + 1 else limit, t,
                 maxBackups);
  }

  /** The next index is one more than the last, if the last log is still there. */
  lemma IndexAfter(files: Files, filename: string, date: string, t: nat, last: nat, maxBackups: nat)
    requires RotatedAt(files, filename, date, last, maxBackups)
    requires NextIndex(files, LogPrefix(filename, date), t)
    ensures t == if maxBackups > 0 then last + 1 else 1
  {
    var prefix := LogPrefix(filename, date);
    if maxBackups > 0 {
      assert prefix + Digits(last) in Matches(files, prefix);
    } else {
      assert forall name :: name in Matches(files, prefix) ==> name in Matches(files, filename);
      assert Matches(files, prefix) == {};
    }
  }

  /** The active file has no part in the choice of the next index. */
  lemma NextIndexWithoutActive(files: Files, filename: string, date: string, content: Bytes, t: nat)
    requires NextIndex(files[filename := content], LogPrefix(filename, date), t) && filename !in files
    ensures NextIndex(files, LogPrefix(filename, date), t)
  {
    var prefix := LogPrefix(filename, date);
    assert Matches(files[filename := content], prefix) == Matches(files, prefix);
    forall k: nat ensures prefix + Digits(k) in files[filename := content] <==> prefix + Digits(k) in files {
    }
  }

  /** A rotation goes through unless there are logs of the interval, but none with an index to go on from. */
  ghost predicate CanRotate(files: Files, filename: string, date: string) {
    filename in files ==> CanGoOn(files, LogPrefix(filename, date))
  }

  /** Here it does not: the file "app-d-x" begins like a log of the interval. */
  lemma RotationStuck()
    ensures !CanRotate(map["app" := [], "app-d-x" := []], "app", "d")
  {
    var files: Files, prefix := map["app" := [], "app-d-x" := []], LogPrefix("app", "d");
    assert prefix == "app-d-" && "app-d-x"[..6] == prefix && "app-d-x" in Matches(files, prefix);
    NoDigitNoIndex("app-d-x");
    assert forall name :: name in Matches(files, prefix) ==> name == "app-d-x";
  }

  /** A log with an index comes after those without. */
  lemma LastHasIndexIff(sorted: seq<string>, names: set<string>)
    requires SortedLogs(sorted) && sorted != [] && multiset(sorted) == multiset(names)
    ensures LogIndex(sorted[|sorted| - 1]).Some? <==> exists name :: name in names && LogIndex(name).Some?
  {
    SortedDistinct(sorted, names);
    var last := sorted[|sorted| - 1];
    assert last in sorted;
    if name :| name in names && LogIndex(name).Some? {
      assert name in sorted;
      var i :| 0 <= i < |sorted| && sorted[i] == name;
      assert OrderKey(name) != "" by { PaddedWidth(LogIndex(name).value); }
      assert !Less(OrderKey(last), OrderKey(name)) || i == |sorted| - 1;
    }
  }

  /** In every directory the target comes from the last log of the interval, or is the first if there is none. */
  ghost predicate FollowsLast(files: Files, prefix: string, target: string) {
    if Matches(files, prefix) == {} then target == prefix + "1"
    else exists last ::
      && last in Matches(files, prefix) && LogIndex(last).Some?
      && (forall name :: name in Matches(files, prefix) ==> !Less(OrderKey(last), OrderKey(name)))
      && target == prefix + Itoa(Successor(LogIndex(last).value))
  }

  lemma TargetFollowsLast(files: Files, prefix: string, sorted: seq<string>)
    requires multiset(sorted) == multiset(Matches(files, prefix)) && SortedLogs(sorted)
    requires Target(prefix, sorted).Some?
    ensures FollowsLast(files, prefix, Target(prefix, sorted).value)
  {
    SortedDistinct(sorted, Matches(files, prefix));
    if sorted == [] {
      assert |Matches(files, prefix)| == 0;
    } else {
      var last := sorted[|sorted| - 1];
      assert last in sorted;
      forall name | name in Matches(files, prefix) ensures !Less(OrderKey(last), OrderKey(name)) {
        assert name in sorted;
        var i :| 0 <= i < |sorted| && sorted[i] == name;
        LessIrreflexive(OrderKey(last));
      }
    }
  }

  class Rotator {
    const filename: string
    const maxBackups: nat
    const disk: Disk

    constructor (filename: string, maxBackups: nat, disk: Disk)
      ensures this.filename == filename && this.maxBackups == maxBackups && this.disk == disk
    {
      this.filename := filename;
      this.maxBackups := maxBackups;
      this.disk := disk;
    }

    method Glob(prefix: string) returns (files: seq<string>)
      ensures multiset(files) == multiset(Matches(disk.files, prefix))
    {
      files := [];
      var rest := set name | name in disk.files.Keys && prefix <= name;
      assert rest == Matches(disk.files, prefix);
      while rest != {}
        invariant multiset(files) + multiset(rest) == multiset(Matches(disk.files, prefix))
        decreases rest
      {
        var name :| name in rest;
        assert multiset(rest) == multiset(rest - {name}) + multiset{name};
        files := files + [name];
        rest := rest - {name};
      }
    }

    /** Renames the active file to the next free index of the interval. */
    method RotateByInterval(date: string) returns (ok: bool, target: string)
      requires disk.Valid()
      modifies disk
      ensures disk.Valid() && (ok <==> CanRotate(old(disk.files), filename, date))
      ensures disk.files == if ok then Renamed(old(disk.files), filename, target) else old(disk.files)
      ensures ok && filename in old(disk.files) ==> FollowsLast(old(disk.files), LogPrefix(filename, date), target)
      ensures ok && filename in old(disk.files) ==> forall limit: nat ::
                Numbered(old(disk.files), LogPrefix(filename, date), limit) && 0 < limit < 0x8000_0000_0000_0000 ==>
                exists t: nat :: t <= limit && IsNext(old(disk.files), filename, date, t, Some(target))
    {
      target := "";
      var there := disk.Exists(filename);
      if !there {
        return true, target;
      }
      var logPrefix := LogPrefix(filename, date);
      var files := Glob(logPrefix);
      files := SortIntervalLogs(files);
      forall limit: nat | Numbered(disk.files, logPrefix, limit) && 0 < limit < INT64_LIMIT
                          && (files != [] ==> LogIndex(files[|files| - 1]).Some?)
        ensures exists t: nat :: t <= limit && IsNext(disk.files, filename, date, t, Target(logPrefix, files))
      {
        var t := TargetIsNext(disk.files, filename, date, limit, files);
      }
      if files == [] {
        target := logPrefix + "1";
      } else {
        LastHasIndexIff(files, Matches(disk.files, logPrefix));
        var lastLogIndex, _, parsed := IntervalLogIndex(files[|files| - 1]);
        if !parsed {
          return false, "";
        }
        target := logPrefix + Itoa(Successor(lastLogIndex));
      }
      TargetFollowsLast(disk.files, logPrefix, files);
      disk.Rename(filename, target);
      return true, target;
    }

    /** Removes the first `cut` files; it fails when one of them is not there. */
    method RemoveFirst(files: seq<string>, cut: nat) returns (ok: bool)
      requires disk.Valid() && cut <= |files|
      requires forall i, j :: 0 <= i < j < |files| ==> files[i] != files[j]
      requires forall i :: 0 <= i < cut ==> files[i] in disk.files
      modifies disk
      ensures ok && disk.Valid() && disk.files == old(disk.files) - Names(files[..cut])
    {
      ghost var gone: set<string> := {};
      var i: nat := cut;
      while i > 0
        invariant i <= cut && disk.Valid()
        invariant disk.files == old(disk.files) - gone
        invariant gone == Names(files[i..cut])
      {
        i := i - 1;
        var f := files[i];
        NamesStep(files, i, cut);
        var there := disk.Exists(f);
        if !there {
          return false;
        }
        disk.Remove(f);
        gone := gone + {f};
      }
      assert files[0..cut] == files[..cut];
      ok := true;
    }

    /** Keeps the last `maxBackups` files in the order of the keys. */
    method PurgeOldIntervalBackups() returns (ok: bool, ghost removed: set<string>)
      requires disk.Valid()
      modifies disk
      ensures ok && disk.Valid() && disk.files == old(disk.files) - removed
      ensures OldestRemoved(Matches(old(disk.files), filename), removed, maxBackups)
    {
      removed := {};
      ok := true;
      var files := Glob(filename);
      ghost var found := Matches(disk.files, filename);
      SortedSize(files, found);
      if |files| > maxBackups {
        files := SortIntervalLogs(files);
        SortedDistinct(files, found);
        var cut := |files| - maxBackups;
        removed := Names(files[..cut]);
        NamesCount(files, cut);
        OldestFirst(files, cut);
        assert forall i :: 0 <= i < |files| ==> files[i] in files;
        ok := RemoveFirst(files, cut);
      }
    }

    /** A rotation: the active file gets the next index, then the oldest logs go. */
    method Rotate(date: string) returns (ok: bool, target: string, ghost removed: set<string>)
      requires disk.Valid()
      modifies disk
      ensures disk.Valid() && (ok <==> CanRotate(old(disk.files), filename, date))
      ensures !ok ==> disk.files == old(disk.files)
      ensures ok && filename in old(disk.files) ==> FollowsLast(old(disk.files), LogPrefix(filename, date), target)
      ensures ok ==> var renamed := Renamed(old(disk.files), filename, target);
                     disk.files == renamed - removed
                     && OldestRemoved(Matches(renamed, filename), removed, maxBackups)
      ensures ok && filename in old(disk.files) ==> forall limit: nat ::
                Numbered(old(disk.files), LogPrefix(filename, date), limit) && 0 < limit < 0x8000_0000_0000_0000 ==>
                exists t: nat :: t <= limit && IsNext(old(disk.files), filename, date, t, Some(target))
    {
      removed := {};
      ok, target := RotateByInterval(date);
      if ok {
        ok, removed := PurgeOldIntervalBackups();
      }
    }

    /** Begins the active file anew, and rotates it. */
    method WriteAndRotate(date: string, content: Bytes) returns (ok: bool, target: string, ghost removed: set<string>)
      requires disk.Valid()
      modifies disk
      ensures disk.Valid()
      ensures var files := old(disk.files)[filename := content];
              && (ok <==> CanRotate(files, filename, date))
              && (!ok ==> disk.files == files)
              && (ok ==> FollowsLast(files, LogPrefix(filename, date), target))
              && (ok ==> disk.files == Renamed(files, filename, target) - removed
                         && OldestRemoved(Matches(Renamed(files, filename, target), filename), removed, maxBackups))
              && (ok ==> forall limit: nat ::
                    Numbered(files, LogPrefix(filename, date), limit) && 0 < limit < 0x8000_0000_0000_0000 ==>
                    exists t: nat :: t <= limit && IsNext(files, filename, date, t, Some(target)))
    {
      disk.Create(filename);
      disk.Append(filename, content);
      assert [] + content == content;
      assert disk.files == old(disk.files)[filename := content];
      ok, target, removed := Rotate(date);
    }
  }
}
