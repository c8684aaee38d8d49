/** The rotator object of file/rotator.go without an interval: it rotates by size. */
module SizeRotator {
  import opened Options
  import opened DiskModel
  import opened Backups
  import RL = RotationLog

  class Rotator {
    const filename: string
    const maxSizeBytes: nat
    const maxBackups: nat
    const rotateOnStartup: bool
    const disk: Disk

    var open: bool
    var size: nat
    /** Every write so far, by the file it went to. */
    ghost var log: RL.Log

    ghost predicate Valid()
      reads this, disk
    {
      && 0 < maxSizeBytes && maxBackups <= MAX_BACKUPS_LIMIT
      && disk.Valid()
      && RL.Mirrors(log, disk.files, filename, maxBackups)
      && RL.SizeBounded(Session())
    }

    ghost function Config(): RL.Config {
      RL.Config(maxSizeBytes, rotateOnStartup)
    }

    ghost function Session(): RL.Session
      reads this
    {
      RL.Session(log, open, size)
    }

    /** The original reports an error for the arguments that are ruled out here. Files that are there already
        count as written and rotated before. */
    constructor (filename: string, maxSizeBytes: nat, maxBackups: nat, rotateOnStartup: bool, disk: Disk)
      requires 0 < maxSizeBytes && maxBackups <= 1024 && disk.Valid()
      ensures Valid() && !open && size == 0
      ensures this.filename == filename && this.maxBackups == maxBackups && this.disk == disk
      ensures Config() == RL.Config(maxSizeBytes, rotateOnStartup)
      ensures RL.Flat(RL.AllChunks(log)) == Stream(disk.files, filename, maxBackups)
    {
      this.filename := filename;
      this.maxSizeBytes := maxSizeBytes;
      this.maxBackups := maxBackups;
      this.rotateOnStartup := rotateOnStartup;
      this.disk := disk;
      open, size := false, 0;
      log := RL.Found(disk.files, filename, maxBackups);
      RL.FoundMirrors(disk.files, filename, maxBackups);
      RL.FilesAreSuffix(RL.Found(disk.files, filename, maxBackups), disk.files, filename, maxBackups);
    }

    /** One step of the shift: backup `i - 1`, if there is one, becomes backup `i`. */
    method MoveUp(i: nat, ghost before: Files)
      requires 0 < i <= maxBackups + 1
      requires disk.Valid() && ShiftedTo(before, disk.files, filename, maxBackups, i)
      modifies disk
      ensures disk.Valid() && ShiftedTo(before, disk.files, filename, maxBackups, i - 1)
      ensures old(disk.history) <= disk.history
      ensures forall t :: |old(disk.history)| <= t < |disk.history| ==>
                MidShift(before, disk.history[t], filename, maxBackups)
    {
      var older, oldest := BackupName(filename, i - 1), BackupName(filename, i);
      var there := disk.Exists(older);
      if there {
        BackupNamesDiffer(filename, i - 1, i);
        var inTheWay := disk.Exists(oldest);
        if inTheWay {
          SlotsAfterRemove(disk.files, filename, i);
          disk.Remove(oldest);
          assert ShiftedOrCleared(before, disk.files, filename, maxBackups, i);
        }
        SlotsAfterRename(disk.files, filename, i - 1, i);
        disk.Rename(older, oldest);
      }
      ShiftStep(before, old(disk.files), disk.files, filename, maxBackups, i);
      assert ShiftedOrCleared(before, disk.files, filename, maxBackups, i - 1);
    }

    method RotateBySize()
      requires disk.Valid()
      modifies disk
      ensures disk.Valid() && old(disk.history) <= disk.history
      ensures ShiftedTo(old(disk.files), disk.files, filename, maxBackups, 0)
      ensures forall t :: |old(disk.history)| <= t < |disk.history| ==>
                MidShift(old(disk.files), disk.history[t], filename, maxBackups)
    {
      var i: nat := maxBackups + 1;
      while i > 0
        invariant i <= maxBackups + 1
        invariant disk.Valid() && old(disk.history) <= disk.history
        invariant ShiftedTo(old(disk.files), disk.files, filename, maxBackups, i)
        invariant forall t :: |old(disk.history)| <= t < |disk.history| ==>
                    MidShift(old(disk.files), disk.history[t], filename, maxBackups)
      {
        MoveUp(i, old(disk.files));
        i := i - 1;
      }
    }

    /** Removes the backups above `maxBackups` up to the first gap, but none above the limit of 1024. */
    method PurgeOldSizedBackups() returns (ghost end: nat)
      requires disk.Valid()
      modifies disk
      ensures disk.Valid() && old(disk.history) <= disk.history
      ensures maxBackups <= end && (end <= 1024 || end == maxBackups)
      ensures Purged(old(disk.files), disk.files, filename, maxBackups, end)
      ensures end < 1024 ==> Slot(disk.files, filename, end + 1) == None
      ensures forall t :: |old(disk.history)| <= t < |disk.history| ==>
                forall i: nat :: i <= maxBackups ==>
                  Slot(disk.history[t], filename, i) == Slot(old(disk.files), filename, i)
    {
      var i := maxBackups;
      while i < MAX_BACKUPS_LIMIT
        invariant maxBackups <= i && (i <= MAX_BACKUPS_LIMIT || i == maxBackups)
        invariant disk.Valid() && old(disk.history) <= disk.history
        invariant Purged(old(disk.files), disk.files, filename, maxBackups, i)
        invariant forall t :: |old(disk.history)| <= t < |disk.history| ==>
                    forall k: nat :: k <= maxBackups ==>
                      Slot(disk.history[t], filename, k) == Slot(old(disk.files), filename, k)
      {
        var name := BackupName(filename, i + 1);
        var there := disk.Exists(name);
        if !there {
          return i;
        }
        SlotsAfterRemove(disk.files, filename, i + 1);
        disk.Remove(name);
        i := i + 1;
      }
      end := i;
    }

    method CloseFile()
      requires Valid()
      modifies this`open, this`size
      ensures Valid() && !open && size == 0
    {
      if open {
        open := false;
        size := 0;
      }
    }

    /** A reader who comes upon any state of the directory from `since` on finds the given log, except for its oldest
        file perhaps. */
    ghost predicate ShowsLog(since: nat, log: RL.Log)
      reads disk
    {
      forall t :: since <= t < |disk.history| ==> RL.Readable(log, disk.history[t], filename, maxBackups)
    }

    /** Or the log before or after the operation. */
    twostate predicate AlwaysReadable(since: nat)
      reads this, disk
    {
      forall t :: since <= t < |disk.history| ==>
        RL.Readable(old(log), disk.history[t], filename, maxBackups)
        || RL.Readable(log, disk.history[t], filename, maxBackups)
    }

    /** Nothing is above the kept backups if nothing was. */
    twostate predicate StaysTidy()
      reads this, disk
    {
      maxBackups < 1024 && NoneAbove(old(disk.files), filename, maxBackups) ==>
        NoneAbove(disk.files, filename, maxBackups)
    }

    /** Every state of the directory on the way is one of a rotation that may stop there. */
    method ShiftAndPurge()
      requires disk.Valid() && maxBackups <= MAX_BACKUPS_LIMIT
      modifies disk
      ensures disk.Valid() && old(disk.history) <= disk.history
      ensures forall t :: |old(disk.history)| <= t < |disk.history| ==>
                MidRotation(old(disk.files), disk.history[t], filename, maxBackups)
      ensures Shifted(old(disk.files), disk.files, filename, maxBackups)
      ensures maxBackups < 1024 ==> Slot(disk.files, filename, maxBackups + 1) == None
      ensures maxBackups == 1024 ==> ShiftedTo(old(disk.files), disk.files, filename, maxBackups, 0)
      ensures maxBackups < 1024 ==>
                (NoneAbove(disk.files, filename, maxBackups) <==> WithoutGap(old(disk.files), filename, maxBackups))
    {
      RotateBySize();
      ghost var shifted := disk.files;
      ghost var end := PurgeOldSizedBackups();
      if maxBackups < MAX_BACKUPS_LIMIT {
        RotationTidyIff(old(disk.files), shifted, disk.files, filename, maxBackups, end);
      }
      PurgeKeepsShift(old(disk.files), shifted, disk.files, filename, maxBackups);
      forall t | |old(disk.history)| <= t < |disk.history|
        ensures MidRotation(old(disk.files), disk.history[t], filename, maxBackups)
      {
        if !MidShift(old(disk.files), disk.history[t], filename, maxBackups) {
          PurgeKeepsShift(old(disk.files), shifted, disk.history[t], filename, maxBackups);
        }
      }
    }

    method RotateFiles()
      requires Valid()
      modifies this, disk
      ensures Valid() && Session() == RL.Session(RL.Push(old(log)), false, 0)
      ensures old(disk.history) <= disk.history
      ensures forall t :: |old(disk.history)| <= t < |disk.history| ==>
                MidRotation(old(disk.files), disk.history[t], filename, maxBackups)
      ensures Shifted(old(disk.files), disk.files, filename, maxBackups)
      ensures maxBackups < 1024 ==> Slot(disk.files, filename, maxBackups + 1) == None
      ensures maxBackups == 1024 ==> ShiftedTo(old(disk.files), disk.files, filename, maxBackups, 0)
      ensures maxBackups < 1024 ==>
                (NoneAbove(disk.files, filename, maxBackups) <==> WithoutGap(old(disk.files), filename, maxBackups))
      ensures StaysTidy() && ShowsLog(|old(disk.history)|, old(log))
    {
      CloseFile();
      ShiftAndPurge();
      if maxBackups < MAX_BACKUPS_LIMIT && NoneAbove(old(disk.files), filename, maxBackups) {
        NothingHasNoGap(old(disk.files), filename, maxBackups);
      }
      forall t | |old(disk.history)| <= t < |disk.history|
        ensures RL.Readable(old(log), disk.history[t], filename, maxBackups)
      {
        RL.RotationReadable(old(log), old(disk.files), disk.history[t], filename, maxBackups);
      }
      RL.PushMirrors(log, old(disk.files), disk.files, filename, maxBackups);
      log := RL.Push(log);
    }

    /** Opens the active file anew. It is only called when there is none. */
    method OpenFile()
      requires Valid() && log.active.None? && size == 0
      modifies this, disk
      ensures Valid() && Session() == RL.Session(old(log).(active := Some([])), true, 0)
      ensures disk.history == old(disk.history) + [disk.files] && StaysTidy()
    {
      WriteKeepsNoneAbove(disk.files, filename, [], maxBackups);
      RL.WriteMirrors(log, disk.files, filename, maxBackups, []);
      disk.Create(filename);
      open := true;
      log := log.(active := Some([]));
    }

    method OpenNew()
      requires Valid() && !open
      modifies this, disk
      ensures Valid()
      ensures Session() == if old(log).active.None? then RL.Session(old(log).(active := Some([])), true, 0)
                           else if rotateOnStartup then RL.Session(RL.Push(old(log)).(active := Some([])), true, 0)
                           else RL.Session(old(log), true, 0)
      ensures old(disk.history) <= disk.history && StaysTidy() && ShowsLog(|old(disk.history)|, old(log))
    {
      var there := disk.Exists(filename);
      assert there <==> log.active.Some? by {
        assert BackupName(filename, 0) == filename;
        assert Slot(disk.files, filename, 0) == RL.FileOf(RL.Group(log, 0));
      }
      if there {
        if !rotateOnStartup {
          open := true;
          return;
        }
        RotateFiles();
      }
      OpenFile();
      RL.CreatedReadable(old(log), disk.files, filename, maxBackups, there);
    }

    method WriteToFile(data: Bytes)
      requires Valid() && open
      modifies this`size, this`log, disk
      ensures Valid() && Session() == RL.Appended(old(Session()), data)
      ensures disk.history == old(disk.history) + [disk.files] && StaysTidy()
    {
      assert BackupName(filename, 0) == filename;
      assert Slot(disk.files, filename, 0) == RL.FileOf(RL.Group(log, 0));
      ghost var chunks := log.active.value + [data];
      RL.FlatAppend(log.active.value, data);
      RL.WriteMirrors(log, disk.files, filename, maxBackups, chunks);
      WriteKeepsNoneAbove(disk.files, filename, RL.Flat(chunks), maxBackups);
      disk.Append(filename, data);
      assert disk.files == old(disk.files)[filename := RL.Flat(chunks)];
      size := size + |data|;
      log := log.(active := Some(chunks));
    }

    /** Sees to it that there is an open file with room for the data, and rotates for that when necessary. */
    method MakeRoom(data: Bytes)
      requires Valid()
      modifies this, disk
      ensures Valid() && Session() == RL.Opened(Config(), old(Session()), data)
      ensures old(disk.history) <= disk.history && StaysTidy() && ShowsLog(|old(disk.history)|, old(log))
    {
      if !open {
        OpenNew();
      } else if size + |data| > maxSizeBytes {
        RotateFiles();
        OpenFile();
        RL.CreatedReadable(old(log), disk.files, filename, maxBackups, true);
      }
    }

    /** A write of data that is not too large. */
    method WriteAccepted(data: Bytes)
      requires Valid()
      modifies this, disk
      ensures Valid() && Session() == RL.Appended(RL.Opened(Config(), old(Session()), data), data)
      ensures old(disk.history) <= disk.history && StaysTidy() && AlwaysReadable(|old(disk.history)|)
    {
      ghost var ready := RL.Opened(Config(), Session(), data);
      MakeRoom(data);
      ghost var history := disk.history;
      WriteToFile(data);
      RL.MirrorsReadable(log, disk.files, filename, maxBackups);
      assert Session() == RL.Appended(ready, data) && disk.history == history + [disk.files];
    }

    /** Rotates first when the data would take the active file over the limit. */
    method Write(data: Bytes) returns (ok: bool)
      requires Valid()
      modifies this, disk
      ensures Valid() && Session() == RL.Apply(Config(), old(Session()), RL.Write(data))
      ensures ok <==> |data| <= maxSizeBytes
      ensures !ok ==> disk.files == old(disk.files) && log == old(log)
      ensures ok ==> var rotates := if old(open) then maxSizeBytes < old(size) + |data|
                                    else rotateOnStartup && old(log).active.Some?;
                     log.closed == if rotates then old(log).closed + [old(log).active] else old(log).closed
      ensures old(disk.history) <= disk.history && StaysTidy() && AlwaysReadable(|old(disk.history)|)
    {
      if |data| > maxSizeBytes {
        return false;
      }
      RL.WriteRotatesIff(Config(), Session(), data);
      WriteAccepted(data);
      return true;
    }

    method Rotate()
      requires Valid()
      modifies this, disk
      ensures Valid() && Session() == RL.Apply(Config(), old(Session()), RL.Rotate)
      ensures !open && log.closed == old(log).closed + [old(log).active] && log.active == None
      ensures maxBackups < 1024 ==> Slot(disk.files, filename, maxBackups + 1) == None
      ensures maxBackups < 1024 ==>
                (NoneAbove(disk.files, filename, maxBackups) <==> WithoutGap(old(disk.files), filename, maxBackups))
      ensures old(disk.history) <= disk.history && StaysTidy() && ShowsLog(|old(disk.history)|, old(log))
    {
      RotateFiles();
    }

    method Close()
      requires Valid()
      modifies this`open, this`size
      ensures Valid() && Session() == RL.Apply(Config(), old(Session()), RL.Close)
      ensures log == old(log) && !open && size == 0
    {
      CloseFile();
    }
  }

  method ServeOne(rotator: Rotator, op: RL.Op)
    requires rotator.Valid()
    modifies rotator, rotator.disk
    ensures rotator.Valid()
    ensures rotator.Session() == RL.Apply(rotator.Config(), old(rotator.Session()), op)
    ensures old(rotator.disk.history) <= rotator.disk.history
    ensures rotator.StaysTidy() && rotator.AlwaysReadable(|old(rotator.disk.history)|)
  {
    match op
    case Write(data) => var _ := rotator.Write(data);
    case Rotate => rotator.Rotate();
    case Close => rotator.Close();
  }

  /** Every state of the directory from `since` on shows the log as it is after some of the operations. */
  ghost predicate ReadableHistory(rotator: Rotator, since: nat, s: RL.Session, ops: seq<RL.Op>)
    reads rotator.disk
  {
    forall t :: since <= t < |rotator.disk.history| ==>
      RL.ReadableInRun(rotator.Config(), s, ops, rotator.disk.history[t], rotator.filename, rotator.maxBackups)
  }

  twostate lemma HistoryGrows(rotator: Rotator, new since: nat, new s: RL.Session, new ops: seq<RL.Op>, new n: nat)
    requires n < |ops| && old(ReadableHistory(rotator, since, s, ops[..n])) && since <= |old(rotator.disk.history)|
    requires old(rotator.Session()) == RL.ApplyAll(rotator.Config(), s, ops[..n])
    requires rotator.Session() == RL.ApplyAll(rotator.Config(), s, ops[..n + 1])
    requires old(rotator.disk.history) <= rotator.disk.history
    requires rotator.AlwaysReadable(|old(rotator.disk.history)|)
    ensures ReadableHistory(rotator, since, s, ops[..n + 1])
  {
    forall t | since <= t < |rotator.disk.history|
      ensures RL.ReadableInRun(rotator.Config(), s, ops[..n + 1], rotator.disk.history[t], rotator.filename,
                               rotator.maxBackups)
    {
      var files := rotator.disk.history[t];
      if t < |old(rotator.disk.history)| {
        assert files == old(rotator.disk.history)[t];
        RL.ReadableLater(rotator.Config(), s, ops, n, files, rotator.filename, rotator.maxBackups);
      } else {
        RL.ReadableNow(rotator.Config(), s, ops, n, files, rotator.filename, rotator.maxBackups);
      }
    }
  }

  /** One more operation of a run that began with the session `s` and the directory states from `since` on. */
  method ServeNext(rotator: Rotator, ops: seq<RL.Op>, i: nat, ghost since: nat, ghost s: RL.Session)
    requires rotator.Valid() && i < |ops| && since <= |rotator.disk.history|
    requires rotator.Session() == RL.ApplyAll(rotator.Config(), s, ops[..i])
    requires ReadableHistory(rotator, since, s, ops[..i])
    modifies rotator, rotator.disk
    ensures rotator.Valid() && rotator.StaysTidy()
    ensures rotator.Session() == RL.ApplyAll(rotator.Config(), s, ops[..i + 1])
    ensures |old(rotator.disk.history)| <= |rotator.disk.history| && ReadableHistory(rotator, since, s, ops[..i + 1])
  {
    RL.ApplyAllSnoc(rotator.Config(), s, ops[..i], ops[i]);
    assert ops[..i + 1] == ops[..i] + [ops[i]];
    ServeOne(rotator, ops[i]);
    HistoryGrows(rotator, since, s, ops, i);
  }

  method ServeEach(rotator: Rotator, ops: seq<RL.Op>)
    requires rotator.Valid()
    modifies rotator, rotator.disk
    ensures rotator.Valid()
    ensures rotator.Session() == RL.ApplyAll(rotator.Config(), old(rotator.Session()), ops)
    ensures rotator.StaysTidy()
    ensures ReadableHistory(rotator, |old(rotator.disk.history)|, old(rotator.Session()), ops)
  {
    ghost var since, s := |rotator.disk.history|, rotator.Session();
    for i := 0 to |ops|
      invariant rotator.Valid()
      invariant rotator.Session() == RL.ApplyAll(rotator.Config(), s, ops[..i])
      invariant since <= |rotator.disk.history|
      invariant rotator.StaysTidy() && ReadableHistory(rotator, since, s, ops[..i])
    {
      ServeNext(rotator, ops, i, since, s);
    }
    assert ops[..|ops|] == ops;
  }

  /** A run of operations on a rotator. Its files end up as the run on the log says, with nothing beside them below
      the highest number of backups; and whenever the run stops, a reader finds the log as it is after some of the
      operations, except for its oldest file perhaps. */
  method Serve(rotator: Rotator, ops: seq<RL.Op>)
    requires rotator.Valid()
    modifies rotator, rotator.disk
    ensures rotator.Valid()
    ensures rotator.Session() == RL.ApplyAll(rotator.Config(), old(rotator.Session()), ops)
    ensures var written := RL.Flat(RL.AllChunks(old(rotator.log))) + RL.Flat(RL.Accepted(rotator.Config(), ops));
            exists dropped :: dropped + Stream(rotator.disk.files, rotator.filename, rotator.maxBackups) == written
    ensures rotator.rotateOnStartup && !old(rotator.open) && rotator.open ==>
              var active := Slot(rotator.disk.files, rotator.filename, 0);
              active.Some? && |active.value| == rotator.size <= rotator.maxSizeBytes
    ensures (forall i :: 0 <= i < |ops| ==> ops[i].Write?) ==>
              var kept := |Stream(rotator.disk.files, rotator.filename, rotator.maxBackups)|;
              RL.Length(old(rotator.log).active) + |RL.Flat(RL.Accepted(rotator.Config(), ops))| <= kept
              || RL.ForPairs(rotator.maxBackups, rotator.maxSizeBytes) <= kept
    ensures rotator.StaysTidy()
    ensures ReadableHistory(rotator, |old(rotator.disk.history)|, old(rotator.Session()), ops)
  {
    ServeEach(rotator, ops);
    ghost var _ := RL.RunFilesAreSuffix(rotator.Config(), old(rotator.Session()), ops, rotator.disk.files,
                                        rotator.filename, rotator.maxBackups);
    if rotator.rotateOnStartup && !old(rotator.open) {
      RL.SizesOfRun(rotator.Config(), old(rotator.Session()), ops);
    }
    if forall i :: 0 <= i < |ops| ==> ops[i].Write? {
      RL.WritesAreKept(rotator.Config(), old(rotator.Session()), ops, rotator.disk.files, rotator.filename,
                       rotator.maxBackups);
    }
  }
}
