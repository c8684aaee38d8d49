/** The numbered backups of a log file, and what the shift of file/rotator.go makes of them. */
module Backups {
  import opened Options
  import opened Decimal
  import opened DiskModel

  const MAX_BACKUPS_LIMIT: nat := 1024

  /** Backup 0 is the active file. */
  function BackupName(filename: string, n: nat): string {
    if n == 0 then filename else filename + "." + Digits(n)
  }

  function Slot(files: Files, filename: string, n: nat): Option<Bytes> {
    var name := BackupName(filename, n);
    if name in files then Some(files[name]) else None
  }

  lemma BackupNamesDiffer(filename: string, i: nat, j: nat)
    requires i != j
    ensures BackupName(filename, i) != BackupName(filename, j)
  {
    if BackupName(filename, i) == BackupName(filename, j) {
      if i != 0 && j != 0 {
        var p := filename + ".";
        assert (p + Digits(i))[|p|..] == Digits(i) && (p + Digits(j))[|p|..] == Digits(j);
        DigitsInjective(i, j);
      }
      assert false;
    }
  }

  // ---------- The shift ----------

  /** Slot `i` once the shift has dealt with the indices above `j`: everything from `j` up has moved up by one,
      and the top slot, which nothing moves, is only overwritten when there is something to overwrite it. */
  function ShiftedSlot(files: Files, filename: string, maxBackups: nat, j: nat, i: nat): Option<Bytes> {
    if i == maxBackups + 1 then
      if j <= maxBackups && Slot(files, filename, maxBackups).Some? then Slot(files, filename, maxBackups)
      else Slot(files, filename, i)
    else if i < j || maxBackups + 1 < i then Slot(files, filename, i)
    else if i == j then None
    else Slot(files, filename, i - 1)
  }

  ghost predicate ShiftedTo(before: Files, files: Files, filename: string, maxBackups: nat, j: nat) {
    forall i: nat :: Slot(files, filename, i) == ShiftedSlot(before, filename, maxBackups, j, i)
  }

  /** Also the state between the removal and the renaming of one step. */
  ghost predicate ShiftedOrCleared(before: Files, files: Files, filename: string, maxBackups: nat, j: nat) {
    j <= maxBackups + 1
    && forall i: nat :: Slot(files, filename, i) == ShiftedSlot(before, filename, maxBackups, j, i)
                     || (i == j == maxBackups + 1 && Slot(files, filename, i) == None)
  }

  /** A state of the directory in the midst of a shift. */
  ghost predicate MidShift(before: Files, files: Files, filename: string, maxBackups: nat) {
    exists j: nat :: ShiftedOrCleared(before, files, filename, maxBackups, j)
  }

  /** Where the content of old backup `k` is when everything from `j` up has moved; it keeps the age order. */
  function Moved(j: nat, k: nat): nat {
    if k < j then k else k + 1
  }

  /** Which old backup the content at `i` comes from; nothing is at `j`. */
  function Origin(j: nat, i: nat): nat
    requires i != j
  {
    if i < j then i else i - 1
  }

  /** Crash safety: whenever a shift stops, every old content at 0..maxBackups is at exactly one of the indices,
      in the old age order, and nothing else is at 0..maxBackups. */
  lemma NothingLost(before: Files, files: Files, filename: string, maxBackups: nat) returns (j: nat)
    requires MidShift(before, files, filename, maxBackups)
    ensures j <= maxBackups + 1
    ensures forall k: nat :: k <= maxBackups && Slot(before, filename, k).Some? ==>
              Slot(files, filename, Moved(j, k)) == Slot(before, filename, k)
    ensures forall i: nat :: i <= maxBackups && Slot(files, filename, i).Some? ==>
              i != j && Slot(before, filename, Origin(j, i)) == Slot(files, filename, i)
    ensures forall i: nat :: maxBackups + 1 < i ==> Slot(files, filename, i) == Slot(before, filename, i)
  {
    j :| ShiftedOrCleared(before, files, filename, maxBackups, j);
  }

  /** The removals above `maxBackups` have gone on up to `end`, and everything was there to be removed. */
  ghost predicate Purged(before: Files, files: Files, filename: string, maxBackups: nat, end: nat) {
    && (forall i: nat :: Slot(files, filename, i) ==
          if maxBackups < i <= end then None else Slot(before, filename, i))
    && (forall i: nat :: maxBackups < i <= end ==> Slot(before, filename, i).Some?)
  }

  /** The shift is complete as far as the kept backups go. */
  ghost predicate Shifted(before: Files, files: Files, filename: string, maxBackups: nat) {
    forall i: nat :: i <= maxBackups ==>
      Slot(files, filename, i) == if i == 0 then None else Slot(before, filename, i - 1)
  }

  /** A state of the directory in the midst of a rotation: of its shift, or of the removals after it. */
  ghost predicate MidRotation(before: Files, files: Files, filename: string, maxBackups: nat) {
    MidShift(before, files, filename, maxBackups) || Shifted(before, files, filename, maxBackups)
  }

  lemma SlotsAfterRemove(files: Files, filename: string, n: nat)
    ensures forall i: nat :: Slot(files - {BackupName(filename, n)}, filename, i)
                          == if i == n then None else Slot(files, filename, i)
  {
    forall i: nat ensures Slot(files - {BackupName(filename, n)}, filename, i)
                       == if i == n then None else Slot(files, filename, i)
    {
      if i != n { BackupNamesDiffer(filename, i, n); }
    }
  }

  lemma SlotsAfterRename(files: Files, filename: string, from: nat, to: nat)
    requires from != to && BackupName(filename, from) in files
    ensures BackupName(filename, from) != BackupName(filename, to)
    ensures var from', to' := BackupName(filename, from), BackupName(filename, to);
            forall i: nat :: Slot((files - {from'})[to' := files[from']], filename, i)
                          == if i == to then Slot(files, filename, from)
                             else if i == from then None else Slot(files, filename, i)
  {
    BackupNamesDiffer(filename, from, to);
    var from', to' := BackupName(filename, from), BackupName(filename, to);
    forall i: nat ensures Slot((files - {from'})[to' := files[from']], filename, i)
                       == if i == to then Slot(files, filename, from)
                          else if i == from then None else Slot(files, filename, i)
    {
      if i != from { BackupNamesDiffer(filename, i, from); }
      if i != to { BackupNamesDiffer(filename, i, to); }
    }
  }

  lemma WriteKeepsNoneAbove(files: Files, filename: string, content: Bytes, maxBackups: nat)
    ensures NoneAbove(files, filename, maxBackups) ==> NoneAbove(files[filename := content], filename, maxBackups)
  {
    SlotsAfterWrite(files, filename, content);
    if NoneAbove(files, filename, maxBackups) {
      var written := files[filename := content];
      forall i: nat | maxBackups < i ensures Slot(written, filename, i) == None {
        assert Slot(files, filename, i) == None;
      }
    }
  }

  lemma SlotsAfterWrite(files: Files, filename: string, content: Bytes)
    ensures forall i: nat :: Slot(files[filename := content], filename, i)
                          == if i == 0 then Some(content) else Slot(files, filename, i)
  {
    forall i: nat ensures Slot(files[filename := content], filename, i)
                       == if i == 0 then Some(content) else Slot(files, filename, i)
    {
      if i != 0 { BackupNamesDiffer(filename, i, 0); }
    }
  }

  /** One step of the shift: what is at `i - 1` goes to `i`. */
  lemma ShiftStep(before: Files, files: Files, next: Files, filename: string, maxBackups: nat, i: nat)
    requires 0 < i <= maxBackups + 1
    requires ShiftedTo(before, files, filename, maxBackups, i)
    requires forall k: nat :: Slot(next, filename, k)
               == if Slot(files, filename, i - 1) == None then Slot(files, filename, k)
                  else if k == i then Slot(files, filename, i - 1)
                  else if k == i - 1 then None else Slot(files, filename, k)
    ensures ShiftedTo(before, next, filename, maxBackups, i - 1)
  {
    assert Slot(files, filename, i - 1) == Slot(before, filename, i - 1);
  }

  /** The removals above `maxBackups` do not touch the kept backups. */
  lemma PurgeKeepsShift(before: Files, shifted: Files, files: Files, filename: string, maxBackups: nat)
    requires ShiftedTo(before, shifted, filename, maxBackups, 0)
    requires forall i: nat :: i <= maxBackups ==> Slot(files, filename, i) == Slot(shifted, filename, i)
    ensures Shifted(before, files, filename, maxBackups)
  {
  }

  /** There is nothing above the backups to keep. */
  ghost predicate NoneAbove(files: Files, filename: string, maxBackups: nat) {
    forall i: nat :: maxBackups < i ==> Slot(files, filename, i) == None
  }

  /** Once everything has moved up, the indices above the backups to keep are taken without a gap, and none above
      the limit is. */
  ghost predicate WithoutGap(before: Files, filename: string, maxBackups: nat) {
    exists end: nat :: maxBackups <= end <= MAX_BACKUPS_LIMIT && TakenUpTo(before, filename, maxBackups, end)
  }

  ghost predicate TakenUpTo(before: Files, filename: string, maxBackups: nat, end: nat) {
    forall i: nat :: maxBackups < i ==> (ShiftedSlot(before, filename, maxBackups, 0, i).Some? <==> i <= end)
  }

  /** The purge stops at the first gap, so a rotation leaves nothing above the kept backups if and only if there is
      no gap. */
  lemma RotationTidyIff(before: Files, shifted: Files, files: Files, filename: string, maxBackups: nat, end: nat)
    requires ShiftedTo(before, shifted, filename, maxBackups, 0) && Purged(shifted, files, filename, maxBackups, end)
    requires maxBackups <= end <= MAX_BACKUPS_LIMIT
    requires end < MAX_BACKUPS_LIMIT ==> Slot(files, filename, end + 1) == None
    ensures NoneAbove(files, filename, maxBackups) <==> WithoutGap(before, filename, maxBackups)
  {
    if NoneAbove(files, filename, maxBackups) {
      forall i: nat | maxBackups < i
        ensures ShiftedSlot(before, filename, maxBackups, 0, i).Some? <==> i <= end
      {
        assert Slot(shifted, filename, i) == ShiftedSlot(before, filename, maxBackups, 0, i);
        assert Slot(files, filename, i) == None;
      }
      assert TakenUpTo(before, filename, maxBackups, end);
    }
    if e: nat :| maxBackups <= e <= MAX_BACKUPS_LIMIT && TakenUpTo(before, filename, maxBackups, e) {
      EndsAlike(before, shifted, files, filename, maxBackups, end, e);
      forall i: nat | maxBackups < i ensures Slot(files, filename, i) == None {
        assert Slot(shifted, filename, i) == ShiftedSlot(before, filename, maxBackups, 0, i);
      }
    }
  }

  lemma EndsAlike(before: Files, shifted: Files, files: Files, filename: string, maxBackups: nat, end: nat, e: nat)
    requires ShiftedTo(before, shifted, filename, maxBackups, 0) && Purged(shifted, files, filename, maxBackups, end)
    requires maxBackups <= end <= MAX_BACKUPS_LIMIT && maxBackups <= e <= MAX_BACKUPS_LIMIT
    requires end < MAX_BACKUPS_LIMIT ==> Slot(files, filename, end + 1) == None
    requires TakenUpTo(before, filename, maxBackups, e)
    ensures end == e
  {
    if maxBackups < end {
      assert Slot(shifted, filename, end) == ShiftedSlot(before, filename, maxBackups, 0, end);
    }
    if end < MAX_BACKUPS_LIMIT {
      assert Slot(shifted, filename, end + 1) == ShiftedSlot(before, filename, maxBackups, 0, end + 1) == None;
    }
  }

  /** In particular, it leaves nothing there where nothing was. */
  lemma NothingHasNoGap(before: Files, filename: string, maxBackups: nat)
    requires NoneAbove(before, filename, maxBackups) && maxBackups < MAX_BACKUPS_LIMIT
    ensures WithoutGap(before, filename, maxBackups)
  {
    var end := if Slot(before, filename, maxBackups).Some? then maxBackups + 1 else maxBackups;
    forall i: nat | maxBackups < i
      ensures ShiftedSlot(before, filename, maxBackups, 0, i).Some? <==> i <= end
    {
      assert Slot(before, filename, i) == None;
    }
    assert TakenUpTo(before, filename, maxBackups, end);
  }

  /** With the highest number of backups nothing is purged: the index above it is only empty after a rotation if
      there was nothing at it before and nothing that would have moved there. */
  lemma TopSlotAtTheLimit(before: Files, files: Files, filename: string)
    requires ShiftedTo(before, files, filename, 1024, 0)
    ensures Slot(files, filename, 1025) == None
       <==> Slot(before, filename, 1024) == None && Slot(before, filename, 1025) == None
  {
    assert Slot(files, filename, 1025) == ShiftedSlot(before, filename, 1024, 0, 1025);
  }

  lemma TopNames(filename: string)
    ensures BackupName(filename, 0) == filename
    ensures BackupName(filename, 1024) == filename + ".1024" && BackupName(filename, 1025) == filename + ".1025"
  {
    assert Digits(1) == "1" && Digits(10) == "1" + "0" == "10" && Digits(102) == "10" + "2" == "102";
    assert Digits(1024) == "102" + "4" == "1024" && Digits(1025) == "102" + "5" == "1025";
    assert filename + "." + "1024" == filename + ".1024" && filename + "." + "1025" == filename + ".1025";
  }

  /** Such a directory: the one backup there is moves beyond the limit, and stays there. */
  lemma TopBackupStays(filename: string, content: Bytes)
    ensures var before, files := map[filename + ".1024" := content], map[filename + ".1025" := content];
            ShiftedTo(before, files, filename, 1024, 0) && Slot(files, filename, 1025) == Some(content)
  {
    var top := 1024;
    TopNames(filename);
    var before, files := map[BackupName(filename, top) := content], map[BackupName(filename, top + 1) := content];
    forall i: nat
      ensures Slot(before, filename, i) == if i == top then Some(content) else None
      ensures Slot(files, filename, i) == if i == top + 1 then Some(content) else None
    {
      if i != top { BackupNamesDiffer(filename, i, top); }
      if i != top + 1 { BackupNamesDiffer(filename, i, top + 1); }
    }
  }

  // ---------- The log as a reader finds it ----------

  function Content(slot: Option<Bytes>): Bytes {
    if slot.Some? then slot.value else []
  }

  /** Backups `n` to 0, oldest first. */
  function Stream(files: Files, filename: string, n: nat): Bytes {
    if n == 0 then Content(Slot(files, filename, 0))
    else Content(Slot(files, filename, n)) + Stream(files, filename, n - 1)
  }

  lemma {:induction false} StreamUnchanged(before: Files, files: Files, filename: string, n: nat)
    requires forall i: nat :: i <= n ==> Slot(files, filename, i) == Slot(before, filename, i)
    ensures Stream(files, filename, n) == Stream(before, filename, n)
  {
    if n > 0 { StreamUnchanged(before, files, filename, n - 1); }
  }

  lemma {:induction false} StreamShifted(before: Files, files: Files, filename: string, maxBackups: nat, j: nat, n: nat)
    requires ShiftedOrCleared(before, files, filename, maxBackups, j)
    requires j <= n <= maxBackups && 0 < n
    ensures Stream(files, filename, n) == Stream(before, filename, n - 1)
  {
    if n == j {
      StreamUnchanged(before, files, filename, n - 1);
    } else if n == 1 {
      assert Slot(files, filename, 0) == None;
    } else {
      StreamShifted(before, files, filename, maxBackups, j, n - 1);
    }
  }

  lemma {:induction false} StreamAfterShift(before: Files, files: Files, filename: string, maxBackups: nat, n: nat)
    requires Shifted(before, files, filename, maxBackups) && 0 < n <= maxBackups
    ensures Stream(files, filename, n) == Stream(before, filename, n - 1)
  {
    if n == 1 {
      assert Slot(files, filename, 0) == None;
    } else {
      StreamAfterShift(before, files, filename, maxBackups, n - 1);
    }
  }

  /** Whenever a rotation stops, a reader of the active file and its backups finds the old log, all of it or all
      but its oldest file. */
  lemma CrashedStream(before: Files, files: Files, filename: string, maxBackups: nat)
    requires MidRotation(before, files, filename, maxBackups)
    ensures Stream(files, filename, maxBackups) == Stream(before, filename, maxBackups)
            || (if maxBackups == 0 then Stream(files, filename, 0) == []
                else Stream(files, filename, maxBackups) == Stream(before, filename, maxBackups - 1))
  {
    if Shifted(before, files, filename, maxBackups) {
      if 0 < maxBackups { StreamAfterShift(before, files, filename, maxBackups, maxBackups); }
    } else {
      var j: nat :| ShiftedOrCleared(before, files, filename, maxBackups, j);
      if j == maxBackups + 1 {
        StreamUnchanged(before, files, filename, maxBackups);
      } else if 0 < maxBackups {
        StreamShifted(before, files, filename, maxBackups, j, maxBackups);
      }
    }
  }
}
