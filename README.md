# Durability primitives of the IoTDB storage engine, modelled in Dafny

This project models two small stateful components of the storage engine.

- **The file-backed version controller** (`SimpleFileVersionController`). It hands out strictly
  increasing version numbers for one storage directory. It keeps `prevVersion`
  (the last checkpointed value) and `currVersion` (an upper bound on every value handed out; the
  next call returns `currVersion + 1`, and right after recovery `currVersion` itself has not been
  handed out). A checkpoint is an
  empty marker file `Version-<n>`. It is renamed forward whenever `currVersion - prevVersion`
  reaches `SAVE_INTERVAL` (100). On construction the controller recovers the largest marker,
  deletes the others (or creates `Version-0`), pre-advances `currVersion` by `SAVE_INTERVAL` and
  persists that value.
- **The per-data-file modification file** (`ModificationFile`). It keeps a lazily loaded list of
  deletion records (a `null` list until first use) in front of a record store. `write` appends to
  the store first and then to the list. `abort` retracts the last record from both.
  `getModifications` returns a copy of the list, and `close` drops the list so the next access reloads.

Layout:

- `wrappers.dfy`: module `Wrappers`, with the `Option` type that stands for a nullable reference.
- `version_control.dfy`: module `VersionControl`. It has the value-level state machine (`VersionState`,
  `Advance`, `Checkpoint`, `Recover`, and `Run`/`Issued` for runs of calls), the corrected step
  `NextChecked` with `RunChecked`/`IssuedChecked`, and the lemmas about them. It also has the
  classes `VersionDirectory` (the marker files, as a `set<nat>` of the versions they encode,
  created from the listing restore reads) and `SimpleFileVersionController`. Each class method states its new state
  as the matching function of the old state.
- `modification_log.dfy`: module `ModificationLog`. It has the value-level log (`LogState`: the
  optional cached list beside the committed records) with `Loaded`, `Written`, `Aborted`,
  `Closed` and `Listed`, and the lemmas about them. It also has the classes
  `ModificationAccessor` (an abstract stand-in for the store's writer and reader) and
  `ModificationFile`, whose methods are tied to those functions in the same way.

The outcome of every file-system or accessor call that can fail is a boolean parameter: the rename,
each delete, creating `Version-0`, and the accessor's read, write, abort and close. The directory
listing that `listFiles` returns is a parameter too: a sequence that names every marker once, in any
order.

## Model

| member | source | states |
|---|---|---|
| `VersionControl.RenameMarker` | iotdb/src/main/java/org/apache/iotdb/db/engine/version/SimpleFileVersionController.java:78-84 | the rename succeeds exactly when the file system allows it and marker `prev` exists; on success the target marker exists, the source is gone and no other marker changes |
| `VersionControl.Checkpoint` | iotdb/src/main/java/org/apache/iotdb/db/engine/version/SimpleFileVersionController.java:77-86 | persist succeeds exactly when the rename can; on success `prevVersion` becomes `currVersion` and marker prev is replaced by marker curr; on failure nothing changes; it keeps the state recoverable |
| `VersionControl.CheckpointIfDue` | iotdb/src/main/java/org/apache/iotdb/db/engine/version/SimpleFileVersionController.java:71-75 | a checkpoint is attempted exactly when `curr - prev >= SAVE_INTERVAL`; otherwise state and markers are unchanged |
| `VersionControl.Advance` | iotdb/src/main/java/org/apache/iotdb/db/engine/version/SimpleFileVersionController.java:52-60 | nextVersion raises `curr` by exactly one; below the interval, and whenever the rename fails, `prev` and the markers stay; `prev` only ever jumps to `curr`; recoverability is kept for every rename outcome, and the bounded gap is kept when the rename succeeds |
| `VersionControl.IssuedCounts` | iotdb/src/main/java/org/apache/iotdb/db/engine/version/SimpleFileVersionController.java:52-60 | the i-th call of any run returns `curr + i + 1`, and the run ends with `curr` raised by the number of calls |
| `VersionControl.IssuedStrictlyIncreasing` | iotdb/src/main/java/org/apache/iotdb/db/engine/version/SimpleFileVersionController.java:52-60 | successive calls return strictly increasing values, all above the starting `curr` and none above the final one |
| `VersionControl.RunAppend` | iotdb/src/main/java/org/apache/iotdb/db/engine/version/SimpleFileVersionController.java:52-60 | running two batches of calls one after the other equals one run of both, in state and in the versions returned |
| `VersionControl.RunRecoverable` | iotdb/src/main/java/org/apache/iotdb/db/engine/version/SimpleFileVersionController.java:52-86 | across any run, whatever the checkpoints do, `curr >= prev`, marker `prev` exists and no marker exceeds `prev` |
| `VersionControl.RunWithinInterval` | iotdb/src/main/java/org/apache/iotdb/db/engine/version/SimpleFileVersionController.java:35-40 | across a run whose checkpoints all succeed, the gap `curr - prev` stays below `SAVE_INTERVAL` |
| `VersionControl.RunWithoutCheckpoint` | iotdb/src/main/java/org/apache/iotdb/db/engine/version/SimpleFileVersionController.java:71-86 | a run in which no checkpoint succeeds only advances `curr`: `prev` and the markers are untouched |
| `VersionControl.MaxVersion` | iotdb/src/main/java/org/apache/iotdb/db/engine/version/SimpleFileVersionController.java:93-102 | the value restore's scan selects bounds every listed version from above, is one of them when the listing is non-empty, and is 0 when it is empty |
| `VersionControl.Deleted` | iotdb/src/main/java/org/apache/iotdb/db/engine/version/SimpleFileVersionController.java:104-108 | the set of markers deleted in restore's second loop never contains the kept version, only contains listed versions, and contains every other listed version whose deletion succeeds; a version is deleted exactly when some listing entry names it, it is not the kept version and that entry's delete succeeds |
| `VersionControl.Recover` | iotdb/src/main/java/org/apache/iotdb/db/engine/version/SimpleFileVersionController.java:88-117 | restore succeeds exactly when the final persist succeeds and either markers exist or `Version-0` could be created; a recovered controller has `prev == curr`, is within the interval, and resumes at 100 from an empty directory, or otherwise at the largest marker + `SAVE_INTERVAL` |
| `VersionControl.RecoverLeavesOneMarker` | iotdb/src/main/java/org/apache/iotdb/db/engine/version/SimpleFileVersionController.java:92-116 | when every stale marker is deleted, recovery leaves exactly one marker, the persisted `curr` |
| `VersionControl.FailedDeleteLeavesStaleMarker` | iotdb/src/main/java/org/apache/iotdb/db/engine/version/SimpleFileVersionController.java:104-116 | restore ignores a failed delete: from markers 5 and 7 with the delete of 5 failing, recovery still succeeds, resumes at 107 and leaves both marker 5 and marker 107 |
| `VersionControl.RecoverResumesAbovePrev` | iotdb/src/main/java/org/apache/iotdb/db/engine/version/SimpleFileVersionController.java:114-116 | recovering from a recoverable state resumes at exactly `prev + SAVE_INTERVAL` |
| `VersionControl.RecoveryExceedsCurrent` | iotdb/src/main/java/org/apache/iotdb/db/engine/version/SimpleFileVersionController.java:35-40 | recovering from a state within the interval resumes above its `curr`, so above every version already handed out |
| `VersionControl.RestartNeverReissues` | iotdb/src/main/java/org/apache/iotdb/db/engine/version/SimpleFileVersionController.java:35-40 | after a run with successful checkpoints, a crash and a recovery from the markers left on disk, every version handed out after the restart exceeds every version handed out before it |
| `VersionControl.FreshDirectory` | iotdb/src/main/java/org/apache/iotdb/db/engine/version/SimpleFileVersionController.java:109-116 | from an empty directory recovery ends with marker 100 only; the first call returns 101, the hundredth returns 200 and leaves marker 200 as the only marker |
| `VersionControl.CheckpointFailureReissues` | iotdb/src/main/java/org/apache/iotdb/db/engine/version/SimpleFileVersionController.java:53-59 | as written: with two swallowed checkpoint failures after 99 good calls, `curr` reaches 201 while marker 100 stays; recovery resumes at 200 and hands out 201 again |
| `VersionControl.NextChecked` | iotdb/src/main/java/org/apache/iotdb/db/engine/version/SimpleFileVersionController.java:52-60 | corrected nextVersion: it returns `curr + 1` or refuses and changes nothing; it refuses exactly when the due checkpoint cannot be made; it keeps the gap below `SAVE_INTERVAL` for every rename outcome |
| `VersionControl.RunCheckedWithinInterval` | iotdb/src/main/java/org/apache/iotdb/db/engine/version/SimpleFileVersionController.java:35-40 | a run of corrected calls stays within the interval whatever the renames do, and hands out strictly increasing versions above the starting `curr` and at most the final `curr` |
| `VersionControl.RestartNeverReissuesChecked` | iotdb/src/main/java/org/apache/iotdb/db/engine/version/SimpleFileVersionController.java:35-40 | for the corrected controller, with no assumption about the renames: after a run, a crash and a recovery from the markers left on disk, every version handed out after the restart exceeds every version handed out before it |
| `VersionControl.MaxMarker` | iotdb/src/main/java/org/apache/iotdb/db/engine/version/SimpleFileVersionController.java:93-102 | restore's first loop returns the largest listed version and the index of its first occurrence (index 0 when the largest is 0); every earlier entry is smaller |
| `VersionControl.VersionDirectory.constructor` | iotdb/src/main/java/org/apache/iotdb/db/engine/version/SimpleFileVersionController.java:89-90 | the storage directory holds exactly the given set of marker versions, the ones restore's listing finds |
| `VersionControl.VersionDirectory.RenameTo` | iotdb/src/main/java/org/apache/iotdb/db/engine/version/SimpleFileVersionController.java:80 | a rename succeeds exactly as `RenameMarker` says, and then moves the marker; on failure the directory is unchanged |
| `VersionControl.VersionDirectory.Delete` | iotdb/src/main/java/org/apache/iotdb/db/engine/version/SimpleFileVersionController.java:106 | deleting a marker removes it when the file system allows it; the result says whether a marker was removed |
| `VersionControl.VersionDirectory.CreateEmpty` | iotdb/src/main/java/org/apache/iotdb/db/engine/version/SimpleFileVersionController.java:110-112 | creating the empty marker adds it, or fails and changes nothing |
| `VersionControl.SimpleFileVersionController.constructor` | iotdb/src/main/java/org/apache/iotdb/db/engine/version/SimpleFileVersionController.java:42-47 | the controller is bound to its directory, with both counters at Java's default 0 |
| `VersionControl.SimpleFileVersionController.NextVersion` | iotdb/src/main/java/org/apache/iotdb/db/engine/version/SimpleFileVersionController.java:52-60 | the new counters and markers are `Advance` of the old ones; the result is the new `currVersion`, one above the old; validity is kept |
| `VersionControl.SimpleFileVersionController.CurrVersion` | iotdb/src/main/java/org/apache/iotdb/db/engine/version/SimpleFileVersionController.java:66-69 | returns `currVersion` and changes nothing |
| `VersionControl.SimpleFileVersionController.CheckPersist` | iotdb/src/main/java/org/apache/iotdb/db/engine/version/SimpleFileVersionController.java:71-75 | the new state is `CheckpointIfDue` of the old; a failure changes nothing |
| `VersionControl.SimpleFileVersionController.Persist` | iotdb/src/main/java/org/apache/iotdb/db/engine/version/SimpleFileVersionController.java:77-86 | the new state is `Checkpoint` of the old; a failure changes nothing |
| `VersionControl.SimpleFileVersionController.DeleteStaleMarkers` | iotdb/src/main/java/org/apache/iotdb/db/engine/version/SimpleFileVersionController.java:104-108 | the directory afterwards is the old one minus `Deleted` |
| `VersionControl.SimpleFileVersionController.Restore` | iotdb/src/main/java/org/apache/iotdb/db/engine/version/SimpleFileVersionController.java:88-117 | on success the controller's state is the `Recover` result; on failure the directory is what `Recover` says is left |
| `VersionControl.Open` | iotdb/src/main/java/org/apache/iotdb/db/engine/version/SimpleFileVersionController.java:46-49 | construction yields a fresh, valid controller in exactly the state `Recover` gives, or fails leaving the directory as `Recover` says |
| `ModificationLog.Contents` | iotdb/src/main/java/org/apache/iotdb/db/engine/modification/ModificationFile.java:106-111 | the list the next access works on equals the store whenever the log is consistent |
| `ModificationLog.DropLast` | iotdb/src/main/java/org/apache/iotdb/db/engine/modification/ModificationFile.java:80 | the accessor's abort removes exactly the last record, and leaves an empty store empty |
| `ModificationLog.Loaded` | iotdb/src/main/java/org/apache/iotdb/db/engine/modification/ModificationFile.java:55-65 | checkInit does nothing when the list is cached; otherwise it succeeds exactly when the read does and caches the store's records; it keeps consistency |
| `ModificationLog.Written` | iotdb/src/main/java/org/apache/iotdb/db/engine/modification/ModificationFile.java:93-99 | write succeeds exactly when the load (if needed) and the store write succeed; then the store and the list both gain `mod` at the end; on failure the store and the visible list are unchanged (an already cached list is untouched); it keeps consistency |
| `ModificationLog.Aborted` | iotdb/src/main/java/org/apache/iotdb/db/engine/modification/ModificationFile.java:77-84 | abort fails with a null-reference error when nothing is cached; on an empty list it is a no-op; on a non-empty list it succeeds exactly when the store's abort does, dropping exactly the last element of the list and the last record of the store; a failure changes nothing; it keeps consistency |
| `ModificationLog.Closed` | iotdb/src/main/java/org/apache/iotdb/db/engine/modification/ModificationFile.java:70-75 | close succeeds exactly when the writer closes; then the list is absent; the store is untouched; a failure changes nothing |
| `ModificationLog.Listed` | iotdb/src/main/java/org/apache/iotdb/db/engine/modification/ModificationFile.java:106-111 | getModifications succeeds exactly when a list is cached or the load succeeds; it returns the list the access works on, leaves it cached and never touches the store; on a consistent log it returns the store's records |
| `ModificationLog.WriteAllAppends` | iotdb/src/main/java/org/apache/iotdb/db/engine/modification/ModificationFile.java:86-99 | from a consistent log, a run of successful writes leaves the store and the visible list both equal to the old store followed by the written records, in order |
| `ModificationLog.ListAfterWritesAndReopen` | iotdb/src/main/java/org/apache/iotdb/db/engine/modification/ModificationFile.java:93-111 | after successful writes into a freshly opened file, getModifications returns the committed records followed by the written ones, and returns the same after close and reload |
| `ModificationLog.WriteThenAbortRestores` | iotdb/src/main/java/org/apache/iotdb/db/engine/modification/ModificationFile.java:77-99 | abort right after a successful write takes back exactly that record, from both the store and the list |
| `ModificationLog.AbortIsDurable` | iotdb/src/main/java/org/apache/iotdb/db/engine/modification/ModificationFile.java:77-84 | on a non-empty consistent log, a successful abort stays in effect: after close and reload the last record is no longer listed |
| `ModificationLog.FailedWriteKeepsList` | iotdb/src/main/java/org/apache/iotdb/db/engine/modification/ModificationFile.java:93-99 | a failed store write reports an I/O error, and a later listing still shows exactly the records committed before it |
| `ModificationLog.ModificationAccessor.constructor` | iotdb/src/main/java/org/apache/iotdb/db/engine/modification/ModificationFile.java:48-53 | the accessor opened at `filePath` holds the records already committed there |
| `ModificationLog.ModificationAccessor.Read` | iotdb/src/main/java/org/apache/iotdb/db/engine/modification/ModificationFile.java:57 | read returns every committed record in order, or fails |
| `ModificationLog.ModificationAccessor.Write` | iotdb/src/main/java/org/apache/iotdb/db/engine/modification/ModificationFile.java:96 | write appends exactly one record, or fails and changes nothing |
| `ModificationLog.ModificationAccessor.Abort` | iotdb/src/main/java/org/apache/iotdb/db/engine/modification/ModificationFile.java:80 | abort truncates the last record, or fails and changes nothing |
| `ModificationLog.ModificationAccessor.Close` | iotdb/src/main/java/org/apache/iotdb/db/engine/modification/ModificationFile.java:72 | close reports whether the handle was released |
| `ModificationLog.ModificationFile.constructor` | iotdb/src/main/java/org/apache/iotdb/db/engine/modification/ModificationFile.java:48-53 | a new file has a fresh accessor on its path, no cached list, and is consistent |
| `ModificationLog.ModificationFile.Init` | iotdb/src/main/java/org/apache/iotdb/db/engine/modification/ModificationFile.java:55-59 | init caches what the reader returns, or fails and leaves the cache as it was |
| `ModificationLog.ModificationFile.CheckInit` | iotdb/src/main/java/org/apache/iotdb/db/engine/modification/ModificationFile.java:61-65 | the new state is `Loaded` of the old; a failure changes nothing |
| `ModificationLog.ModificationFile.Close` | iotdb/src/main/java/org/apache/iotdb/db/engine/modification/ModificationFile.java:70-75 | the new state and outcome are `Closed` of the old; consistency is kept |
| `ModificationLog.ModificationFile.Abort` | iotdb/src/main/java/org/apache/iotdb/db/engine/modification/ModificationFile.java:77-84 | the new state and outcome are `Aborted` of the old; consistency is kept |
| `ModificationLog.ModificationFile.Write` | iotdb/src/main/java/org/apache/iotdb/db/engine/modification/ModificationFile.java:93-99 | the new state and outcome are `Written` of the old; consistency is kept |
| `ModificationLog.ModificationFile.GetModifications` | iotdb/src/main/java/org/apache/iotdb/db/engine/modification/ModificationFile.java:106-111 | the new state and result are `Listed` of the old; consistency is kept |
| `ModificationLog.ModificationFile.GetFilePath` | iotdb/src/main/java/org/apache/iotdb/db/engine/modification/ModificationFile.java:113-115 | returns the current path and changes nothing |
| `ModificationLog.ModificationFile.SetFilePath` | iotdb/src/main/java/org/apache/iotdb/db/engine/modification/ModificationFile.java:117-119 | sets the path, so a following `GetFilePath` returns it; the list and store are unchanged |

## Findings

| source | as written | input that shows it | evidently intended | confidence | as-written member | corrected member |
|---|---|---|---|---|---|---|
| iotdb/src/main/java/org/apache/iotdb/db/engine/version/SimpleFileVersionController.java:53-59 | a failed checkpoint inside `nextVersion` is only logged, and the call still hands out the incremented `currVersion`; with repeated failures `currVersion - prevVersion` grows past `SAVE_INTERVAL` while the marker on disk stays at `prevVersion` | fresh directory (marker 100 after recovery); 99 calls with working renames, then two calls whose renames fail (versions 200 and 201 handed out, marker still 100); crash; recovery resumes at 200 and the next call hands out 201 again | the class comment (lines 35-39) says the recovery increase by `SAVE_INTERVAL` avoids conflicts, i.e. no version is ever handed out twice | medium, not executed | `VersionControl.CheckpointFailureReissues` | `VersionControl.NextChecked` (with `VersionControl.RestartNeverReissuesChecked`) |

The corrected `NextChecked` rolls the increment back and reports the failure when the due
checkpoint cannot be made. It keeps the gap below `SAVE_INTERVAL` whatever the renames do, and
`RestartNeverReissuesChecked` shows, with no assumption about the renames, that a run of
corrected calls, a crash and a recovery never hand out a version twice. The class `SimpleFileVersionController` keeps the code's behaviour as written.

## Left out

- VersionControl.RecoverLeavesOneMarker: assumes every stale-marker delete succeeds. restore ignores the result of `delete()` (SimpleFileVersionController.java:106), so a failed delete leaves several markers on disk; `FailedDeleteLeavesStaleMarker` shows one such case. Recovery still resumes above all of them, because it keeps only the largest.
- VersionControl.RestartNeverReissues: assumes every checkpoint of the run before the crash succeeds. Without that assumption the property is false for the code as written (see Findings).
- Integer width: versions are `nat`. Java's 64-bit `long` overflow after 2^63 - 1 versions is not modelled.
- Concurrency: the `synchronized` blocks and locking in both classes are not modelled. Each method is treated as atomic.
- Real file-system calls (`listFiles`, `renameTo`, `delete`, `FileOutputStream`) are modelled as operations on a set of marker versions, with success given as a parameter.
- Marker names: decoding `Version-<n>` with `Long.parseLong` is not modelled. So is what happens to a name that does not parse (a `NumberFormatException`), or two names that encode the same number (`Version-07`, `Version-7`).
- `listFiles` returning `null` on an I/O error: the source then treats the directory as empty, even if markers exist. The model's listing always names every marker.
- `LocalTextModificationAccessor`, the `ModificationReader`/`ModificationWriter` interfaces and the `Modification` class are not part of this model. The accessor is an abstract sequence of committed records, so the text record format and the handling of a partial trailing record are not modelled.
- A failed accessor write or abort is assumed to leave the committed records unchanged. Partial writes and partial truncations are not modelled.
- `FILE_SUFFIX` is declared as a constant only. `ModificationFile` itself never uses it.
- Logging (`LOGGER.error`) is not modelled.
- `ModificationFile.abort` (ModificationFile.java:77-84) never calls `checkInit`, so on a `null` list it fails with a `NullPointerException`. The model keeps this as the `NullCache` error rather than loading the list first.
- The class comment (SimpleFileVersionController.java:35-39) says the increase by `SAVE_INTERVAL` on recovery avoids version conflicts. A failed checkpoint inside `nextVersion` breaks that; see Findings.
- The RPC service, the operator classes and `WALOverSizedException` in the same repository are outside this core.
