# A verified model of glacier-toolchain's stateful cores

This project models the parts of the glacier-toolchain Go library that keep state or print and parse it, and
proves what their documentation promises. Each part has a *specification*, functions on values that say
what one call does to the state, and where the Go code updates an object in place, a *class* whose methods are
proved against that specification. The theorems are about the specification: whole runs, every tree, every text.
`dafny verify dfyconfig.toml` checks everything.

| part | modules | Go source |
|---|---|---|
| token bucket | `TokenBucket`, `RateSearch`, `BucketObject` | flowcontrol/tokenbucket/limiter.go |
| log rotation by size | `DiskModel`, `Backups`, `RotationLog`, `SizeRotator` | file/rotator.go |
| log rotation by interval | `Decimal`, `IntervalLogs`, `IntervalRotation`, `IntervalRuns` | file/rotator.go, file/interval.rotator.go |
| nested maps | `Trees`, `TreeWalk`, `TreeMerge`, `TreeFlat`, `StringMaps` | utils/smap/smap.go |
| limiter registry | `LimiterRegistry` | http/middleware/flowlimit/flowlimit.go |
| SQL builder | `SqlText`, `SqlChains` | sqlbuilder/builder.go |
| header lists | `HeaderList` | http/middleware/cors/utils.go |
| timestamps | `Decimal`, `Timestamps` | utils/ftime/time.go |
| pages | `Pager` | pager/pager.go |

## How to read it

- **Token bucket.** A run is a sequence of calls with the times at which they hold the mutex; times never go back.
  `Step` gives the new state and the one grant a call makes, with the deadline now + wait. Everything about runs
  (`RateBound`, `DeadlinesAreFifo`, `LazyRefinesEager`, ...) is about `Run`, and `BucketObject.Serve` shows that a
  bucket object makes exactly the grants of `Run`.
- **Size rotation.** `DiskModel.Disk` is a map from names to bytes that remembers every state it went through, so
  crash safety is a statement about all states in that history: at every moment a reader finds all writes that are
  kept, or all but those of the oldest file (`RotationLog.Readable`). `RotationLog` tells the same story without files,
  on the sequence of all writes; the object's invariant says that the two agree.
- **Interval rotation.** Names are real strings with printed indices; order keys are compared byte by byte. One
  rotation is told for every directory; `IntervalRuns` has runs that go from one interval to the next.
- **Nested maps.** `Trees` and its companions are the specification on trees. `StringMaps.StringMap` is the heap
  object with an explicit footprint; `MapFind` is the original loop, with the path it went as ghost results.
- **Registry.** Requests interleave between their two locked sections; a run is any sequence of such sections.
- **Builder.** `Bound` says that a text stands in the statement where its arguments stand among all arguments.

## Where the code is not what its documentation or callers expect

The model follows the code in each case.

- A `SetRate` that fails can leave the last candidate it tried in the bucket; `RateSearch.FailureLeaves` says for
  which rates (`FailureInstalls` names one). A negative rate fails unless the machine's conversion makes a positive
  interval of a negative one that is out of range, which then is accepted (`NegativeIff`).
- The window form of the rate bound, capacity plus one quantum per tick of the window, is false as soon as a take is
  ready to wait at all, and true otherwise (`TokenBucket.WindowsBoundedIff`). The bound from the start of the bucket
  holds for all runs (`RateBound`).
- `Available` reads the clock before it locks, so it may refill for a time that lies before the last refill. That
  is harmless: such reads are part of every run theorem.
- With `maxBackups` at its limit of 1024 the purge removes nothing, so a backup 1025 stays behind
  (`Backups.TopSlotAtTheLimit`, `TopBackupStays`). Below it the purge stops at the first gap, so older backups above
  one stay for good (`Backups.RotationTidyIff`).
- Without rotation on startup an existing file is appended to, but `size` starts from zero, so the file can outgrow
  its limit (`RotationLog.WriteSizeExactIff`, `AppendingOutgrowsLimit`).
- With no backups kept, the index of an interval starts from 1 after every rotation
  (`IntervalRotation.IndexAfter`).
- `DeepUpdateNoOverwrite` does replace a value when the source has a map in its place
  (`TreeMerge.NoOverwriteIff`).
- Deleting a key that is stored with its dots can bring a nested value of the same dotted key to light
  (`Trees.DeleteUncoversIff`), and such keys can collide when flattened (`TreeFlat.NeverAmbiguousIff`).
- An interval rotation fails for good when the interval has logs, but none whose name ends in an index
  (`IntervalRotation.Rotator.RotateByInterval`, `RotationStuck`).
- Two requests that race for one key leave the registry's count one too high for good; once these surplus counts
  alone reach the size limit every new key triggers an eviction (`LimiterRegistry.RaceDrifts`,
  `DriftForcesEviction`).
- A second `Limit` on one builder adds its arguments but no placeholders (`SqlChains.BuildAlignedIff`), so the
  placeholders stand for the arguments of the first (`LimitBound`, `SecondLimitMisaligns`).
- In a header list, a part without any header character makes the next header begin in lower case
  (`HeaderList.JunkMatters`); this is the only way in which the one pass differs from splitting and normalizing
  (`ScanIsSplitIff`).
- Parsing a timestamp ignores an error in the nanosecond digits (utils/ftime/time.go:73): `Timestamps.ParsedIff`
  says which texts are accepted and as what, and `ExponentIsLost` shows a JSON number that loses its exponent. A
  timestamp before 10^9 seconds does not come back unless it is zero (`RoundTripIff`, `EarlyTimestampGrows`).

## Model

| member | source | states |
|---|---|---|
| `TokenBucket.RateBound` | flowcontrol/tokenbucket/limiter.go:196-318 | Over every run of calls on a bucket that started full, the tokens whose wait has ended by tick `last` total at most capacity + last * quantum |
| `TokenBucket.DueByBalance` | flowcontrol/tokenbucket/limiter.go:196-318 | The same from any state of any run on: the tokens due by a tick are bounded by the balance and the refills still to come |
| `TokenBucket.WindowBound` | flowcontrol/tokenbucket/limiter.go:196-209 | When no take is ready to wait, the tokens handed over in every window of ticks total at most capacity + (last - first) * quantum, whatever state the run begins in |
| `TokenBucket.WindowsBoundedIff` | flowcontrol/tokenbucket/limiter.go:174-295 | For every bucket and every m: the window bound holds for all runs whose takes have maxWait <= m if and only if m <= 0 |
| `TokenBucket.LastMomentTake` | flowcontrol/tokenbucket/limiter.go:269-295 | In every bucket a take that is ready to wait a nanosecond can break it: right before the first tick, for one quantum more than there is |
| `TokenBucket.DeadlinesAreFifo` | flowcontrol/tokenbucket/limiter.go:269-318 | Over every run no later grant is due before an earlier one, clamping at capacity and stale reads included |
| `TokenBucket.NoEarlierDeadline` | flowcontrol/tokenbucket/limiter.go:269-318 | A deadline that lies no later than the payment of the present debt is no later than the deadline of any grant of any run that follows |
| `TokenBucket.LazyRefinesEager` | flowcontrol/tokenbucket/limiter.go:196-228 | Over every run the lazily refilled bucket makes the same grants with the same deadlines as one that adds the quantum on every tick and clamps each time |
| `TokenBucket.LazyIsEager` | flowcontrol/tokenbucket/limiter.go:306-318 | One lazy refill over n ticks equals n eager refills |
| `TokenBucket.AdjustCompose` | flowcontrol/tokenbucket/limiter.go:306-318 | A refill for an intermediate tick, even one that lies before the last refill, never matters to a later refill |
| `TokenBucket.IdleCallsDoNotMatter` | flowcontrol/tokenbucket/limiter.go:196-228 | Deleting every read, refused take and non-positive count from a run changes no grant and no deadline of the others |
| `TokenBucket.StepSettled` | flowcontrol/tokenbucket/limiter.go:196-295 | A call leaves the clock's view of the bucket as it was unless it grants tokens, and then takes exactly the granted count off it |
| `TokenBucket.WaitIsExact` | flowcontrol/tokenbucket/limiter.go:269-295 | The wait of a granted take is the least one after which the bucket, left alone, has no debt; it is positive exactly when there is a debt |
| `TokenBucket.WaitEndsAtTick` | flowcontrol/tokenbucket/limiter.go:269-301 | Told in ticks: availability is negative at every tick from the take's own up to that of now + wait, and non-negative from there on |
| `TokenBucket.DebtPaidAt` | flowcontrol/tokenbucket/limiter.go:281-289 | The ceiling division finds the first tick at which the debt is paid, and that tick's time lies after now |
| `TokenBucket.RefusedIffTooLong` | flowcontrol/tokenbucket/limiter.go:174-178 | A take is granted if and only if it leaves no debt or some wait of at most maxWait pays the debt it leaves |
| `TokenBucket.TakeAllOrNothing` | flowcontrol/tokenbucket/limiter.go:269-295 | For every state, time, count and limit: a refused take has no wait and leaves the refilled bucket as it was; a count of zero or less is granted without a wait and without a refill; a wait above zero means that all tokens were taken and that it is within the limit |
| `TokenBucket.TakeAvailableGetsMost` | flowcontrol/tokenbucket/limiter.go:196-209 | Taking what is there gets the count or all there is, whichever is less, and nothing where there is nothing or none is asked for |
| `TokenBucket.StaleReadIsHarmless` | flowcontrol/tokenbucket/limiter.go:217-228 | A read refills for the time it has read, even one before the last refill, takes nothing, and does not change the bucket as the clock sees it |
| `TokenBucket.TakeNeverRefused` | flowcontrol/tokenbucket/limiter.go:158-163 | `Take` is never refused as long as the end of the wait is at most 2^63 - 1 nanoseconds after the start |
| `TokenBucket.EndTickExact` | flowcontrol/tokenbucket/limiter.go:281-287 | A tick is no earlier than the end tick if and only if the refills up to it cover the debt |
| `TokenBucket.TickReached` | flowcontrol/tokenbucket/limiter.go:299-301 | From the start of the bucket on, the clock's tick is at least k if and only if the time of tick k has come |
| `TokenBucket.TickToCome` | flowcontrol/tokenbucket/limiter.go:299-301 | Before the start, ticks are rounded toward it: the clock's tick is at most k if and only if the time of tick k is still to come or is now |
| `RateSearch.NextQuantumGrows` | flowcontrol/tokenbucket/limiter.go:87-93 | The sequence of quanta grows by a tenth, rounded down, or by one if that is nothing, and its product with eleven stays a 64-bit integer below 2^50, so the search terminates |
| `RateSearch.SearchIsAccurate` | flowcontrol/tokenbucket/limiter.go:246-265 | For every rate of more than a token in 2^63 ns a successful search installs a rate no slower than the requested one and at most 1% faster; it succeeds for every rate up to 10^8 * 2^50 / 11, which includes 10^7 * 2^49 |
| `RateSearch.AcceptedIff` | flowcontrol/tokenbucket/limiter.go:253-261 | A rounded-down interval never gives a rate below the requested one, and it is accepted if and only if the rate is at most 1% above |
| `RateSearch.TooSlowFails` | flowcontrol/tokenbucket/limiter.go:252-264 | A rate whose interval does not fit 64 bits fails on a machine whose conversion gives nothing positive, and leaves the fields as they were |
| `RateSearch.TooFastFails` | flowcontrol/tokenbucket/limiter.go:252-264 | A rate of 2^50 tokens per nanosecond or more fails and leaves the fields as they were |
| `RateSearch.NegativeIff` | flowcontrol/tokenbucket/limiter.go:251-265 | A negative rate succeeds if and only if its interval with the last quantum is below the 64-bit numbers and the conversion gives something positive for it; when it fails, the fields are as they were |
| `RateSearch.FailureLeaves` | flowcontrol/tokenbucket/limiter.go:251-265 | What a failed search leaves, for every rate and every conversion: the fields as they were if the rate is negative, exceeds 10^9 times the last quantum, or is zero or too slow for 64 bits and the conversion gives nothing positive; otherwise the last quantum, with its interval rounded down or, out of range, converted |
| `RateSearch.ZeroFrom` | flowcontrol/tokenbucket/limiter.go:251-265 | A rate of zero always fails; it leaves the fields as they were if and only if the conversion of infinity gives nothing positive |
| `RateSearch.SucceedsIff` | flowcontrol/tokenbucket/limiter.go:251-265 | A rate in range succeeds if and only if some quantum of the search has an interval that rounding down shortens by at most a hundredth of the result |
| `RateSearch.FirstIsInstalled` | flowcontrol/tokenbucket/limiter.go:251-265 | A search that succeeds for a rate in range installs the first of these quanta, and its interval rounded down |
| `RateSearch.FailureInstalls` | flowcontrol/tokenbucket/limiter.go:257-264 | There are rates in range that fail, and so leave the last quantum in the bucket |
| `BucketObject.Bucket.constructor` | flowcontrol/tokenbucket/limiter.go:105-127 | A new bucket is full, at tick zero, with the given configuration |
| `BucketObject.Bucket.CurrentTick` | flowcontrol/tokenbucket/limiter.go:299-301 | The tick of a time, with division that truncates toward zero |
| `BucketObject.Bucket.AdjustAvailableTokens` | flowcontrol/tokenbucket/limiter.go:306-318 | The in-place refill is the refill of the specification |
| `BucketObject.Bucket.TakeAt` | flowcontrol/tokenbucket/limiter.go:269-295 | The in-place take has the result and the new state of the specification's take; a refusal gives no wait and takes nothing, a wait is within the limit, and a count of zero or less changes nothing |
| `BucketObject.Bucket.Take` | flowcontrol/tokenbucket/limiter.go:158-163 | Taking without a limit on the wait |
| `BucketObject.Bucket.TakeMaxDuration` | flowcontrol/tokenbucket/limiter.go:174-178 | Taking with a limit on the wait, with the same promises |
| `BucketObject.Bucket.TakeAvailable` | flowcontrol/tokenbucket/limiter.go:183-209 | Taking what is there, at most count tokens: the lesser of both, or nothing |
| `BucketObject.Bucket.TakeOneAvailable` | flowcontrol/tokenbucket/limiter.go:190-192 | True exactly when there was a token, which then is taken |
| `BucketObject.Bucket.Available` | flowcontrol/tokenbucket/limiter.go:217-228 | The read refills the bucket for the time it has read and gives the balance, which may be negative |
| `BucketObject.Bucket.SetRate` | flowcontrol/tokenbucket/limiter.go:251-265 | The loop over the fields leaves in them what the search function gives, on success and on failure |
| `BucketObject.ServeCall` | flowcontrol/tokenbucket/limiter.go:158-228 | One call on the object makes the step of the specification |
| `BucketObject.Serve` | flowcontrol/tokenbucket/limiter.go:158-228 | A run of calls on the object makes exactly the grants of the specification's run, to which the theorems apply |
| `Backups.BackupNamesDiffer` | file/rotator.go:235-240 | Different backup numbers have different file names |
| `Backups.NothingLost` | file/rotator.go:442-470 | Crash safety: in every state a shift can stop in, each old content at 0..maxBackups is at exactly one index, in the old age order, nothing else is there, and what lies above maxBackups + 1 is untouched |
| `Backups.CrashedStream` | file/rotator.go:378-397 | Whenever a rotation stops, the backups and the active file read as the old log, all of it or all but its oldest file |
| `Backups.TopSlotAtTheLimit` | file/rotator.go:358-376 | With 1024 backups the index above is empty after a rotation if and only if there was nothing at it and nothing at the top backup before |
| `Backups.TopBackupStays` | file/rotator.go:358-376 | A concrete directory in which that index is taken after the shift |
| `Backups.RotationTidyIff` | file/rotator.go:358-397 | Shift and purge leave nothing above the kept backups if and only if, once everything has moved up, the indices above them are taken without a gap and none above 1024 is |
| `Backups.NothingHasNoGap` | file/rotator.go:358-397 | Which is so, below the limit of 1024, where nothing was above them |
| `Backups.ShiftStep` | file/rotator.go:442-470 | One iteration moves the boundary of the shift down by one, from any set of files, gaps included |
| `SizeRotator.Rotator.constructor` | file/rotator.go:128-169 | What is in the files at the start counts as written before |
| `SizeRotator.Rotator.MoveUp` | file/rotator.go:444-468 | One iteration of the shift, each state of the directory on its way being one of a shift |
| `SizeRotator.Rotator.RotateBySize` | file/rotator.go:442-470 | From any files the loop is an exact shift: backup i holds the old i - 1 and the active file is gone; every state on the way is one of a shift |
| `SizeRotator.Rotator.PurgeOldSizedBackups` | file/rotator.go:358-376 | Exactly the backups above maxBackups up to the first gap or the limit are removed, and the kept ones are untouched at every moment |
| `SizeRotator.Rotator.CloseFile` | file/rotator.go:311-319 | Closing forgets the size |
| `SizeRotator.Rotator.RotateFiles` | file/rotator.go:378-397 | Close, shift and purge push the active group of writes onto the closed ones; in every directory state on the way a reader finds the old log as it was kept, or all of it but the oldest file; below the limit index maxBackups + 1 is absent afterwards, and all indices above maxBackups are if and only if they had no gap |
| `SizeRotator.Rotator.OpenFile` | file/rotator.go:280-294 | A new, empty active file |
| `SizeRotator.Rotator.OpenNew` | file/rotator.go:259-278 | The first opening creates, rotates or appends, as rotateOnStartup and the present files say |
| `SizeRotator.Rotator.WriteToFile` | file/rotator.go:204-206 | The data goes to the end of the active file and adds to the size |
| `SizeRotator.Rotator.Write` | file/rotator.go:174-207 | A write fails exactly when it is larger than the limit, and then changes nothing; otherwise it is the write of the session, with a rotation before it if and only if the file is open and size plus data exceeds the limit, or the file is reopened with rotation on startup. Every directory state on the way shows the log before or after the call, as it is kept or all but its oldest file, and nothing appears above maxBackups |
| `SizeRotator.Rotator.Rotate` | file/rotator.go:222-226 | A manual rotation: the active group, or its absence, is closed, and on the way at most the oldest file is missing |
| `SizeRotator.Rotator.Close` | file/rotator.go:229-233 | Closing between writes leaves the log as it is and forgets the size |
| `SizeRotator.Serve` | file/rotator.go:174-233 | After every sequence of writes, rotations and closes the backups oldest to newest followed by the active file are a suffix of everything ever written, and nothing is above maxBackups if nothing was; in every directory state on the way a reader finds what is kept of the log as it is after some of the operations, or all of that but its oldest file; with rotation on startup `size` is the length of the active file and at most maxSizeBytes; after writes only, the files hold all of them and what was in the active file before, or more than maxSizeBytes for every two files |
| `SizeRotator.ServeOne` | file/rotator.go:174-233 | One operation of a run; every directory state on its way shows the log before or after it, but for the oldest file perhaps |
| `RotationLog.RunConserves` | file/rotator.go:174-233 | Over every run the log is what was there before followed by the accepted writes, in order, none split or lost, and closed groups are never touched again |
| `RotationLog.WriteRotatesIff` | file/rotator.go:174-207 | A write closes the active file if and only if it is open and its counted size plus the data exceeds the limit, or it is there and is reopened with rotation on startup; otherwise the data follows what is in it. Where the size is right, that is the length of the file |
| `RotationLog.RunFillsFiles` | file/rotator.go:174-207 | Over every run, two files that follow each other hold together more than maxSizeBytes if only writes came between the first write to the one and its closing, whatever came before and after |
| `RotationLog.WritesAreKept` | file/rotator.go:174-207 | After any writes the files hold all of them and what was in the active file before, or more than the limit for every two files |
| `RotationLog.ForPairsIs` | file/rotator.go:174-207 | That bound in numbers: (maxBackups + 1) / 2 times maxSizeBytes + 1 |
| `RotationLog.FilesAreSuffix` | file/rotator.go:442-470 | The kept files are the whole log without the writes of the rotations more than maxBackups ago; only whole writes are missing |
| `RotationLog.RunFilesAreSuffix` | file/rotator.go:174-233 | The files after a run hold a suffix of the old log and all accepted writes |
| `RotationLog.ClosedFileSurvivesIff` | file/rotator.go:358-397 | The file closed by a rotation is, after any run, in the backup numbered by the rotations since if and only if these are at most maxBackups; later it is nowhere, all files being of younger groups |
| `RotationLog.RotationReadable` | file/rotator.go:378-470 | In every state in which a rotation may stop, a reader finds all writes that are kept, whole and in order, or all but those of the oldest kept file |
| `RotationLog.CreatedReadable` | file/rotator.go:259-294 | So does a reader right after a new active file was created, before its first write |
| `RotationLog.PushMirrors` | file/rotator.go:378-397 | An exact shift keeps the files in step with the log |
| `RotationLog.SizesOfRun` | file/rotator.go:174-207 | With rotation on startup `size` is always the length of the active file and within maxSizeBytes, and no file that a run begins ever exceeds maxSizeBytes, whatever files were there before |
| `RotationLog.RunKeepsSizes` | file/rotator.go:174-207 | The invariant behind it, kept by every run from every state |
| `RotationLog.WriteSizeExactIff` | file/rotator.go:259-309 | A write leaves `size` equal to the file's length if and only if it does not reopen a non-empty file without rotating it |
| `RotationLog.AppendingOutgrowsLimit` | file/rotator.go:267-271 | Without rotation on startup two writes with a close in between make a file larger than the limit |
| `IntervalLogs.IntervalLogIndex` | file/interval.rotator.go:134-146 | The loop finds the trailing digits and their number, or an error when there is none that fits 64 bits |
| `IntervalLogs.IndexIs` | file/interval.rotator.go:134-146 | Every name, split before its trailing digits: its index is their number if there are any and it is below 2^64, and otherwise there is none |
| `IntervalLogs.IndexRoundTrip` | file/interval.rotator.go:121-146 | Reading the index back undoes its printing, for every prefix that ends in no digit |
| `IntervalLogs.OrderIsNumeric` | file/interval.rotator.go:124-131 | For names with one prefix, comparing the zero-padded order keys byte by byte is comparing the indices |
| `IntervalLogs.EarlierDateIsOlder` | file/interval.rotator.go:121-131 | All logs of an interval with an earlier date sort before those of a later one |
| `IntervalLogs.UnnumberedIsOlder` | file/interval.rotator.go:124-131 | Files whose names end in no index sort first |
| `IntervalLogs.SortIntervalLogs` | file/interval.rotator.go:112-119 | The result is a permutation of the names, sorted by their order keys |
| `IntervalLogs.SuccessorExact` | file/rotator.go:418-422 | Below 2^63 - 1 the converted index plus one prints as the next number, and from there on it is 2^64 less |
| `IntervalRotation.TargetIsNext` | file/rotator.go:407-423 | If the names that begin like a log of the interval and end in a digit are its logs, with printed indices, the target has the index after all of them, so renaming never overwrites a log, whatever other files there are |
| `IntervalRotation.TargetFollowsLast` | file/rotator.go:407-423 | In every directory the target is the prefix with the successor of the index of the last log in the order, or with 1 if there is no log |
| `IntervalRotation.LastIsGreatest` | file/rotator.go:417-421 | Under the same condition the last of the sorted logs has the greatest index of the interval |
| `IntervalRotation.RenamedFamily` | file/rotator.go:425-427 | After the renaming the new log comes last in the order of all logs |
| `IntervalRotation.PurgedFamily` | file/rotator.go:328-356 | The purge leaves a family of logs in which those of the last maxBackups indices are as they were |
| `IntervalRotation.NewestAreKept` | file/rotator.go:334-353 | Removing the oldest down to maxBackups spares every set of at most maxBackups names that come after all others |
| `IntervalRotation.RotatedFamily` | file/rotator.go:378-440 | What a rotation makes of a family: the next index, a family again, the greatest index last, the recent logs kept |
| `IntervalRotation.IndexAfter` | file/rotator.go:407-423 | The next index of an interval is one more than the last; with no backups kept it is 1 again |
| `IntervalRotation.Rotator.Glob` | file/rotator.go:408-408 | All names with the prefix, each once |
| `IntervalRotation.LastHasIndexIff` | file/rotator.go:417-421 | The last of the sorted logs has an index if and only if any of them has |
| `IntervalRotation.RotationStuck` | file/rotator.go:417-421 | A concrete directory in which the rotation fails |
| `IntervalRotation.Rotator.RotateByInterval` | file/rotator.go:399-440 | In every directory: it fails if and only if there is an active file and there are logs of the interval, but none with an index, and then changes nothing; otherwise the active file, if any, is renamed to the successor of the last log and everything else stays. If the names of the interval that end in a digit are logs with printed indices, the new name has the next index |
| `IntervalRotation.Rotator.RemoveFirst` | file/rotator.go:339-352 | The downward loop removes exactly the first names of the list |
| `IntervalRotation.Rotator.PurgeOldIntervalBackups` | file/rotator.go:328-356 | In every directory exactly the surplus over maxBackups is removed, and no removed file is newer than a kept one |
| `IntervalRotation.Rotator.Rotate` | file/rotator.go:378-397 | In every directory: the renaming and then the purge, or nothing when there is no index to go on from |
| `IntervalRotation.Rotator.WriteAndRotate` | file/rotator.go:174-226 | The same after the active file was begun anew and written |
| `IntervalRuns.LaterFamily` | file/interval.rotator.go:121-131 | The logs of an interval are the older files of every later one that has no logs yet |
| `IntervalRuns.TargetIsNewest` | file/rotator.go:407-423 | The log that a rotation makes comes after all other files in the order of the purge |
| `IntervalRuns.NewestSpared` | file/rotator.go:328-356 | The purge spares the logs of the last maxBackups rotations, of whichever intervals they are |
| `IntervalRuns.RunNextIndex` | file/rotator.go:407-423 | The next index of a run is one more than the last within an interval and 1 at the beginning of the next |
| `IntervalRuns.RotateNext` | file/rotator.go:399-440 | One more rotation of a run keeps all that |
| `IntervalRuns.RotateAll` | file/rotator.go:399-440 | Over every run of rotations with dates that do not go back, the first index follows all that were there, each further one is one more within an interval (or 1 when no backup is kept) and 1 at the beginning of the next, and the contents of the last maxBackups rotations, across intervals, are in their targets |
| `Trees.PutThenGet` | utils/smap/smap.go:151-159 | After a put that succeeds the key reads as what was put, in every tree and for every key |
| `Trees.PutFailsIff` | utils/smap/smap.go:366-399 | A put fails if and only if a lookup of the key meets something on the way that is no map |
| `Trees.PutLeavesOthers` | utils/smap/smap.go:151-159 | With dot-free stored keys, every key whose components are neither a prefix nor an extension of the put key's reads as before |
| `Trees.PutKeepsDotFree` | utils/smap/smap.go:151-159 | A put of a dot-free tree keeps the stored keys dot-free |
| `Trees.DeleteLikeGet` | utils/smap/smap.go:107-117 | Exactly what can be read can be deleted, and both fail in the same way |
| `Trees.DeleteThenGet` | utils/smap/smap.go:107-117 | With dot-free stored keys a deleted key is gone |
| `Trees.DeleteUncoversIff` | utils/smap/smap.go:107-117 | A deleted key can still be read if and only if, where it was stored with a dot, a nested value of the same name stood beside it |
| `Trees.DeleteMayUncover` | utils/smap/smap.go:107-117 | A concrete tree in which this happens |
| `Trees.DeleteLeavesOthers` | utils/smap/smap.go:107-117 | A deletion leaves every unrelated key as it was |
| `TreeWalk.PutByWalk` | utils/smap/smap.go:151-159 | A put is a change in the place where the creating walk ends, and fails where the walk does |
| `TreeWalk.GetByWalk` | utils/smap/smap.go:326-335 | A lookup is a read in the place where the walk ends, with the walk's errors |
| `TreeWalk.GetByCreatingWalk` | utils/smap/smap.go:151-159 | What stands where a creating walk ends is what a lookup of the same key would find |
| `TreeWalk.DeleteByWalk` | utils/smap/smap.go:107-117 | A deletion is a removal in the place where the walk ends |
| `TreeWalk.ArrivedStep` | utils/smap/smap.go:372-398 | One iteration of the walk, with the map it creates |
| `TreeWalk.ArrivedEnd` | utils/smap/smap.go:373-395 | Where and how the walk ends |
| `TreeMerge.OverwritingMergeLeaves` | utils/smap/smap.go:57-104 | After an overwriting update the leaves are those of the source and those of the target whose path the source does not touch |
| `TreeMerge.SourceLeavesWin` | utils/smap/smap.go:57-59 | Every leaf of the source reads with the source's value |
| `TreeMerge.GentleMergeLeaves` | utils/smap/smap.go:64-104 | After an update that is not to overwrite, exactly which leaves are there, with their values |
| `TreeMerge.NoOverwriteIff` | utils/smap/smap.go:61-66 | The promise not to overwrite is kept for a leaf if and only if the source has no map in its place |
| `TreeMerge.NoOverwriteFails` | utils/smap/smap.go:99-102 | A concrete pair of trees for which it is not kept |
| `TreeMerge.MergeTwice` | utils/smap/smap.go:57-104 | Applying the same update twice equals applying it once, overwriting or not |
| `TreeMerge.PartlyMergedStep` | utils/smap/smap.go:68-81 | Each key of the update adds its part to the merge in whatever order the keys are taken |
| `TreeFlat.WrittenIffLeaf` | utils/smap/smap.go:194-209 | What flattening writes are the leaves under their joined paths, all of them and nothing else |
| `TreeFlat.ComponentsOfJoin` | utils/smap/smap.go:194-209 | Splitting a joined path at the dots gives the path back, so distinct leaves never collide |
| `TreeFlat.GetJoined` | utils/smap/smap.go:326-335 | With plain keys the joined path leads a lookup to what is at the end of the path |
| `TreeFlat.FlatEntryIsRead` | utils/smap/smap.go:188-209 | With plain keys each entry of the flat form is what a lookup of the same key gives |
| `TreeFlat.LeafHasEntry` | utils/smap/smap.go:188-209 | Each leaf has an entry, under the key its path joins to |
| `TreeFlat.NeverAmbiguousIff` | utils/smap/smap.go:194-209 | A key without empty components can be stored beside plain keys without ever making the flat form ambiguous if and only if it has no dot |
| `TreeFlat.DottedKeyCollides` | utils/smap/smap.go:194-209 | For every such key with a dot, a tree in which two leaves have it as their flat key |
| `TreeFlat.JoinOfComponents` | utils/smap/smap.go:194-209 | Joining undoes the splitting of a key without empty components |
| `StringMaps.StringMap.Get` | utils/smap/smap.go:326-335 | The lookup in the heap is the lookup in the tree, errors included, and gives the very value that is linked there |
| `StringMaps.StringMap.Put` | utils/smap/smap.go:151-159 | The put in the heap is the put in the tree and gives back the value that could be read before, which then is no part of the tree any more; a failing one leaves the tree and its footprint as they were although the walk creates maps |
| `StringMaps.StringMap.Delete` | utils/smap/smap.go:107-117 | The deletion in the heap is the deletion in the tree, and what is deleted is no part of it any more; a failing one changes nothing |
| `StringMaps.MoveEntry` | utils/smap/smap.go:107-159 | So a map that was deleted can be put into the same tree again, under another key |
| `StringMaps.StringMap.Clone` | utils/smap/smap.go:133-142 | The copy is an equal tree made of new maps only |
| `StringMaps.StringMap.DeepUpdateMap` | utils/smap/smap.go:67-82 | The recursive loop leaves the merge of the two trees, whatever the iteration order, and the source as it was; from a source whose maps are already linked into the tree it changes nothing |
| `StringMaps.UpdateTwice` | utils/smap/smap.go:57-104 | A second update from the same source object changes nothing, although by then the two trees share maps |
| `StringMaps.HasSelf` | utils/smap/smap.go:57-104 | A map is always as an update with itself would leave it |
| `StringMaps.StringMap.UpdateEntry` | utils/smap/smap.go:67-104 | One key of an update: maps are merged in place, anything else is replaced or kept as overwrite says; an entry already updated stays |
| `StringMaps.StringMap.FlattenInto` | utils/smap/smap.go:194-209 | The recursion writes exactly the joined leaves over what the output held |
| `StringMaps.StringMap.Flatten` | utils/smap/smap.go:188-190 | With plain keys the result has exactly one entry per leaf and reads like the original under each of its keys |
| `StringMaps.MapFind` | utils/smap/smap.go:366-399 | The loop ends where the walk on the tree ends, on a path of maps of the tree, having created the missing maps on it and nothing else |
| `StringMaps.ReplaceAt` | utils/smap/smap.go:151-159 | The assignment at the end of a put, and the value it takes the place of |
| `StringMaps.SpineChanged` | utils/smap/smap.go:366-399 | A change in the last map of a path is that change in its place in the whole tree |
| `StringMaps.EditAll` | utils/smap/smap.go:57-159 | No sequence of puts, of maps too, deletions and updates on one tree, the edits bringing maps that are disjoint from each other, affects a tree that shares no map with it or with what they bring |
| `StringMaps.CloneAndEdit` | utils/smap/smap.go:133-142 | Neither a copy nor its original sees any later sequence of such edits to the other |
| `LimiterRegistry.CountConserved` | http/middleware/flowlimit/flowlimit.go:93-121 | Over every interleaving of any number of requests, count equals the number of map entries plus the number of adds that found their key present |
| `LimiterRegistry.CountExactIff` | http/middleware/flowlimit/flowlimit.go:93-121 | From an empty registry count is never below the map's size, and equal to it if and only if no add found its key present |
| `LimiterRegistry.AddEvictsIff` | http/middleware/flowlimit/flowlimit.go:108-121 | An add leaves the new limiter beside all others, or beside those that have not expired if and only if count was at least maxSize, and the count changes by just that |
| `LimiterRegistry.AddKeys` | http/middleware/flowlimit/flowlimit.go:108-121 | The same told on the keys |
| `LimiterRegistry.RaceFreeEvictsIff` | http/middleware/flowlimit/flowlimit.go:93-121 | Over every run without races an add evicts if and only if the map itself has maxSize limiters |
| `LimiterRegistry.DriftForcesEviction` | http/middleware/flowlimit/flowlimit.go:112-114 | Once such adds alone come to the limit, every add takes all expired limiters out, however few limiters there are |
| `LimiterRegistry.RaceFreeCountExact` | http/middleware/flowlimit/flowlimit.go:93-121 | In every run in which no two requests race for one key the count is the map's size |
| `LimiterRegistry.RaceDrifts` | http/middleware/flowlimit/flowlimit.go:97-121 | Two racing requests leave the count one ahead and the first limiter out of the map |
| `LimiterRegistry.ApplyBalanced` | http/middleware/flowlimit/flowlimit.go:72-121 | Every step, eviction included, keeps the conservation law |
| `LimiterRegistry.Limiter.RemoveExpired` | http/middleware/flowlimit/flowlimit.go:72-85 | The loop removes exactly the expired keys and takes their number off the count |
| `LimiterRegistry.Limiter.Find` | http/middleware/flowlimit/flowlimit.go:96-103 | The lookup step of a request |
| `LimiterRegistry.Limiter.AddLimiter` | http/middleware/flowlimit/flowlimit.go:108-121 | The add step: the old limiters, without the expired ones exactly when count was at least maxSize, and the new one |
| `LimiterRegistry.Limiter.ChangeMaxSize` | http/middleware/flowlimit/flowlimit.go:68-70 | A change of the limit |
| `SqlChains.BuildIs` | sqlbuilder/builder.go:104-157 | For every chain, the statement word for word: base, joins, "SET " with the assignments joined by ",", "WHERE " with the conditions of all calls in their order joined by " AND ", the last grouping, "HAVING " likewise, orders and "LIMIT ?,? ", each clause exactly if something was added to it; and the arguments in that order |
| `SqlChains.NewBaseBuildIs` | sqlbuilder/builder.go:166-171 | The same on another base, with joins, conditions and grouping only |
| `SqlChains.JoinConcat` | sqlbuilder/builder.go:117-117 | Joining two lists is joining each, with a separator between |
| `SqlChains.BuildAlignedIff` | sqlbuilder/builder.go:149-157 | For every chain of aligned calls the built statement has as many placeholders as arguments if and only if `Limit` was called at most once |
| `SqlChains.CallBound` | sqlbuilder/builder.go:149-157 | What each call added stands in the statement behind exactly as many placeholders as there are arguments before its own: those of earlier clauses and of earlier calls for the same clause |
| `SqlChains.LimitBound` | sqlbuilder/builder.go:77-81 | The two placeholders of the limit stand behind those of all clauses, for the arguments of the first call of `Limit`; if it is the only one, these are the last two arguments |
| `SqlChains.NewBaseAligned` | sqlbuilder/builder.go:166-171 | On another base the counts always agree |
| `SqlChains.SecondLimitMisaligns` | sqlbuilder/builder.go:77-81 | A concrete chain with two limits whose counts differ |
| `SqlChains.NewBaseCallBound` | sqlbuilder/builder.go:166-171 | On another base conditions stay bound to their arguments, which no longer follow those of what is set |
| `SqlChains.ChainGrows` | sqlbuilder/builder.go:42-81 | Later calls only add to a clause |
| `SqlChains.ClauseBound` | sqlbuilder/builder.go:104-136 | Within a clause, statements are bound to the arguments that were added with them |
| `SqlText.BoundInWhole` | sqlbuilder/builder.go:149-157 | What is bound within one part of a statement is bound in the whole |
| `SqlChains.Builder.Set` | sqlbuilder/builder.go:42-46 | The call on the object is the call of the specification |
| `SqlChains.Builder.Where` | sqlbuilder/builder.go:49-53 | A condition with its arguments |
| `SqlChains.Builder.WithWhere` | sqlbuilder/builder.go:56-60 | Several conditions with their arguments |
| `SqlChains.Builder.Having` | sqlbuilder/builder.go:63-67 | A group condition with its arguments |
| `SqlChains.Builder.WithHaving` | sqlbuilder/builder.go:70-74 | Several group conditions with their arguments |
| `SqlChains.Builder.Limit` | sqlbuilder/builder.go:77-81 | The text is replaced, but the arguments are added |
| `SqlChains.Builder.OrderBy` | sqlbuilder/order.go:10-20 | An order, with its direction |
| `SqlChains.Builder.JoinTable` | sqlbuilder/join.go:10-14 | A join, with its condition |
| `SqlChains.Builder.GroupOn` | sqlbuilder/builder.go:99-102 | The grouping is replaced |
| `SqlChains.Builder.Build` | sqlbuilder/builder.go:149-157 | The statement and arguments of the specification, put together from the fields |
| `SqlChains.Builder.BuildFromNewBase` | sqlbuilder/builder.go:166-171 | The same on another base, without what is set, orders and the limit |
| `HeaderList.ParseHeaderList` | http/middleware/cors/utils.go:17-60 | The loop over the bytes computes the one-pass scan, and so, up to the case of letters, the non-empty parts of the input without the characters of no header |
| `HeaderList.HeadersAreParts` | http/middleware/cors/utils.go:29-58 | For every input the headers, put into lower case, are the parts between spaces and commas, put into lower case and without the characters of no header, in order and without the empty ones |
| `HeaderList.CapitalsOnlyAtBreaks` | http/middleware/cors/utils.go:31-58 | For every input a capital is only at the beginning of a header or right after '-' or '_' |
| `HeaderList.PlainIsWellCased` | http/middleware/cors/utils.go:31-58 | On every input of letters, digits, '-', '_', commas and spaces a letter is a capital if and only if it is there |
| `HeaderList.NormalIsShown` | http/middleware/cors/utils.go:31-46 | Character by character, what the case rule makes of every part, junk included |
| `HeaderList.ScanIsSplitIff` | http/middleware/cors/utils.go:29-58 | The one pass equals splitting, dropping empty parts and normalizing each part on its own, if and only if no part without header characters comes right before a header that begins with a letter |
| `HeaderList.PlainScanIsSplit` | http/middleware/cors/utils.go:16-60 | So they are equal on every input of letters, digits, '-', '_', commas and spaces |
| `HeaderList.JunkMatters` | http/middleware/cors/utils.go:48-57 | A concrete input on which they differ |
| `HeaderList.CaseInsensitive` | http/middleware/cors/utils.go:31-46 | Inputs that differ in letter case only give the same list |
| `HeaderList.ParseJoinedIff` | http/middleware/cors/utils.go:16-60 | For every input, parsing the result joined with a comma and a space gives the same list back if and only if each header of it is normalized already |
| `HeaderList.ParseJoined` | http/middleware/cors/utils.go:16-60 | Which is so on every input of letters, digits, '-', '_', commas and spaces |
| `HeaderList.ScanIsCarried` | http/middleware/cors/utils.go:29-58 | For every input, exactly what the loop's flag carries from one part to the next |
| `Decimal.DigitsRoundTrip` | file/interval.rotator.go:134-146 | Reading a printed number gives the number |
| `Decimal.LessIsNumeric` | file/interval.rotator.go:124-131 | Among numerals of one width the byte order is the order of the numbers |
| `Decimal.DigitCount` | utils/ftime/time.go:60-64 | A number has k digits if and only if it lies between two powers of ten |
| `Timestamps.ParseTS` | utils/ftime/time.go:60-77 | The padding loop and the split at digit ten give the parsed time, or an error for bad seconds only |
| `Timestamps.ParseTSInt64` | utils/ftime/time.go:79-81 | Parsing a printed 64-bit timestamp |
| `Timestamps.RoundTripIff` | utils/ftime/time.go:60-122 | For every time in the range of 64-bit nanoseconds since 1970 and every length, parsing the timestamp gives the time truncated to that length if and only if the timestamp is zero or the time is at least 10^9 seconds |
| `Timestamps.ZeroTimeIsZero` | utils/ftime/time.go:104-106 | The first second of the year 1 prints as 0 in every length |
| `Timestamps.TimestampRounds` | utils/ftime/time.go:108-119 | Every other time, also before 1970: seconds are rounded down, milliseconds and microseconds toward 1970, nanoseconds are exact |
| `Timestamps.LengthsAreKept` | utils/ftime/time.go:108-119 | From 10^9 seconds on a timestamp has 10, 13, 16 or 19 digits, as its length says, and 13 for any other length |
| `Timestamps.TimestampIsQuotient` | utils/ftime/time.go:101-122 | A timestamp is the time divided by its unit, rounded down |
| `Timestamps.ParsedNanos` | utils/ftime/time.go:60-77 | Parsing reads the digits as nanoseconds of a number of nineteen digits |
| `Timestamps.ParsedIff` | utils/ftime/time.go:60-77 | For every text: it is accepted if and only if its first ten characters, padded, are an integer; the time is that of both numbers, or of the seconds alone when the rest is no integer, or the seconds with the greatest or least 64-bit number of nanoseconds when its digits are too many |
| `Timestamps.MalformedAcceptedIff` | utils/ftime/time.go:72-73 | A text of at least ten characters that is no integer is accepted if and only if its first ten are one; then what follows begins with a sign or its error goes unnoticed |
| `Timestamps.ExponentIsLost` | utils/ftime/time.go:60-77 | 1600000000e3 is read as 1600000000 seconds |
| `Timestamps.EarlyTimestampGrows` | utils/ftime/time.go:60-122 | The timestamp of one second after 1970 comes back as 10^9 seconds |
| `Timestamps.DigitsAreFullIff` | utils/ftime/time.go:101-122 | A timestamp other than zero has all digits of its length if and only if the time is at least 10^9 seconds |
| `Pager.OnePerSecond` | flowcontrol/tokenbucket/limiter.go:68-82 | The rate of one per second is found at once, with an interval of 10^9 ns |
| `Pager.BasePager.constructor` | pager/pager.go:31-38 | Twenty items a page, from the first page on, with a full bucket of one token a second |
| `Pager.BasePager.Next` | pager/pager.go:55-58 | Takes a token, says how long to wait for it, and whether there is another page |
| `Pager.BasePager.SetPageSize` | pager/pager.go:60-62 | Sets the page size only |
| `Pager.BasePager.CheckHasNext` | pager/pager.go:73-79 | A page that is not full is the last one; otherwise the page number goes up |
| `Pager.ReadAll` | pager/pager.go:55-79 | The loop of Next, scan and CheckHasNext visits every item exactly once and in order, stops after |items| / pageSize + 1 pages, and the bucket grants what it grants to takes of one token at the times of the calls |
| `Pager.PagesAreLimited` | pager/pager.go:55-58 | At most one page, and one more per full second, is let through, as long as the clock does not go back |

## Left out

- Integer width: times, tokens and sizes are unbounded integers, except where wrap-around or truncation decides a
  branch (the infinite wait, the conversion of log indices, the bound of the quantum search, parsed numbers). A
  saturating difference of two times is not modelled.
- Floating point: rates are real numbers, so rounding is left out. What a machine makes of a number that is no
  64-bit integer is the parameter `wild`, the same for all candidates of one search.
- TokenBucket.TakeNeverRefused: only as long as the end of the wait is a 64-bit number of nanoseconds, since beyond
  that the code's own product overflows.
- `SetCapacity`, and `SetRate` on a bucket in use: both change what a tick or the clamp means in the middle of a
  run. `Wait` and `WaitMaxDuration` only sleep for the wait that is modelled. The last take time is not kept.
- The constructor of the bucket panics, and that of the rotator fails, on arguments that the model's constructors
  exclude; both are preconditions there.
- Files are whole byte sequences by name, and the only failure is that a file is not there: directories,
  permissions, partial writes, syncing, redirected standard error and debug logging are left out, and so are
  changes of the files by others.
- Interval rotation: calendars and the decision that a new interval has begun are left out; the formatted date is a
  parameter. Glob patterns are taken as name prefixes.
- IntervalRuns.RotateAll: each rotation follows one write, the dates are of equal length and do not go back, and the
  run begins in a directory without logs of its later dates, in which the other names under the file name are older
  than the logs of its first date; `EarlierDateIsOlder` and `UnnumberedIsOlder` give sufficient conditions for that.
  What a single rotation does is stated for every directory.
- IntervalLogs.SortIntervalLogs: the library's sort is only known to sort, so an insertion sort stands for it.
- StringMaps.StringMap.Put: asks for a value that shares no map with the tree as it is at that moment. Maps with cycles or shared parts are
  left out, as are nil maps and values other than integers, which stand for every value that is no map.
- StringMaps.EditAll: edits that bring the same map twice are left out, since the second would change the tree through
  the maps that the first has linked into it.
- StringMaps.StringMap.DeepUpdateMap: from a source that shares no map with the tree, or one that has just been
  merged into it. Other ways of sharing are left out.
- `HasKey`, `CopyFieldsTo`, `MergeFields` and tags in utils/smap/smap.go, JSON and SQL scanning: they would only add
  easy members.
- Registry: which limiters have expired is arbitrary; how a request's key is found and the limiters themselves are
  left out.
- SQL: only texts and arguments are modelled, not their meaning. The base is the text after formatting, the column
  list of a grouping is given without the spaces around it, and `BuildCount` is left out.
- Header lists: the estimate of the result's capacity is left out.
- Parsing of timestamps from before 1970 back into their times, times whose nanoseconds since 1970 are no 64-bit
  integer, text formats and time zones in utils/ftime/time.go.
- Pages are scanned from a list that does not change. `SetRate` of the pager is that of its bucket.
- Cryptography, caches, tracing, logging, clients, services, code templates and the rest of the HTTP stack.
