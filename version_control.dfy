/**
 * The file-backed version controller of a storage directory.
 *
 * The controller hands out strictly increasing version numbers. It keeps two
 * counters: `prev`, the last value checkpointed on disk, and `curr`, an upper
 * bound on every value handed out (the next call returns `curr` + 1; right
 * after recovery `curr` itself has not been handed out). A checkpoint is an empty marker file named FILE_PREFIX
 * followed by the version in decimal, so the directory is modelled as the set
 * of versions its marker files encode. Whether a file-system call succeeds is
 * outside the model's view and is given as a boolean parameter.
 */
module VersionControl {
  import opened Wrappers

  /** Increments between two checkpoints; also the pre-advance applied on recovery. */
  const SAVE_INTERVAL: nat := 100

  /** Prefix of a marker file's name; the rest of the name is the version in decimal. */
  const FILE_PREFIX: string := "Version-"

  /** The two counters together with the marker versions present in the directory. */
  datatype VersionState = VersionState(prev: nat, curr: nat, markers: set<nat>)

  /**
   * The disk holds the marker for `prev`, no marker encodes more than `prev`,
   * and `curr` has not fallen behind `prev`.
   */
  ghost predicate Recoverable(s: VersionState)
  {
    && s.prev <= s.curr
    && s.prev in s.markers
    && forall m :: m in s.markers ==> m <= s.prev
  }

  /**
   * The steady state: recoverable, and fewer than SAVE_INTERVAL versions have
   * been handed out since the last checkpoint.
   */
  ghost predicate WithinInterval(s: VersionState)
  {
    Recoverable(s) && s.curr - s.prev < SAVE_INTERVAL
  }

  /**
   * Renaming marker `from` to marker `to`: it fails when the source marker is
   * missing or the file system refuses; otherwise it moves the marker,
   * replacing a target that already exists.
   */
  function RenameMarker(markers: set<nat>, from: nat, to: nat, renameOk: bool): (r: Option<set<nat>>)
    ensures r.Some? <==> renameOk && from in markers
    ensures r.Some? ==> to in r.value && (from != to ==> from !in r.value)
    ensures r.Some? ==> forall m :: m != from && m != to ==> (m in r.value <==> m in markers)
  {
    if renameOk && from in markers then Some(markers - {from} + {to}) else None
  }

  /**
   * persist(): checkpoint `curr` by renaming marker `prev` to marker `curr`,
   * then set `prev` to `curr`. None is the IOException raised when the rename
   * fails, in which case nothing has changed.
   */
  function Checkpoint(s: VersionState, renameOk: bool): (r: Option<VersionState>)
    ensures r.Some? <==> renameOk && s.prev in s.markers
    ensures r.Some? ==> r.value.prev == r.value.curr == s.curr
    ensures r.Some? ==> r.value.markers == s.markers - {s.prev} + {s.curr}
    ensures r.Some? && Recoverable(s) ==> Recoverable(r.value)
  {
    match RenameMarker(s.markers, s.prev, s.curr, renameOk)
    case Some(moved) => Some(VersionState(s.curr, s.curr, moved))
    case None => None
  }

  /** checkPersist(): a checkpoint is attempted exactly when the gap has reached SAVE_INTERVAL. */
  function CheckpointIfDue(s: VersionState, renameOk: bool): (r: Option<VersionState>)
    ensures s.curr - s.prev < SAVE_INTERVAL ==> r == Some(s)
    ensures s.curr - s.prev >= SAVE_INTERVAL ==> r == Checkpoint(s, renameOk)
  {
    if s.curr - s.prev >= SAVE_INTERVAL then Checkpoint(s, renameOk) else Some(s)
  }

  /**
   * nextVersion(): increment `curr`, checkpoint if due, and hand out the new
   * `curr`. A failed checkpoint is swallowed: the increment stands and `prev`
   * and the markers stay as they were.
   */
  function Advance(s: VersionState, renameOk: bool): (r: VersionState)
    ensures r.curr == s.curr + 1
    ensures s.curr + 1 - s.prev < SAVE_INTERVAL ==> r.prev == s.prev && r.markers == s.markers
    ensures !renameOk ==> r.prev == s.prev && r.markers == s.markers
    ensures r.prev == s.prev || r.prev == r.curr
    ensures Recoverable(s) ==> Recoverable(r)
    ensures Recoverable(s) && renameOk && s.curr + 1 - s.prev >= SAVE_INTERVAL ==>
              r.prev == r.curr && r.markers == s.markers - {s.prev} + {r.curr}
    ensures WithinInterval(s) && renameOk ==> WithinInterval(r)
  {
    var bumped := s.(curr := s.curr + 1);
    match CheckpointIfDue(bumped, renameOk)
    case Some(t) => t
    case None => bumped
  }

  /** The state after a run of nextVersion() calls; `oks[i]` is the fate of the i-th call's rename. */
  function Run(s: VersionState, oks: seq<bool>): VersionState
    decreases |oks|
  {
    if oks == [] then s else Run(Advance(s, oks[0]), oks[1..])
  }

  /** The versions that run hands out, in order. */
  function Issued(s: VersionState, oks: seq<bool>): seq<nat>
    decreases |oks|
  {
    if oks == [] then [] else [Advance(s, oks[0]).curr] + Issued(Advance(s, oks[0]), oks[1..])
  }

  /** The i-th call of a run hands out curr + i + 1, whatever the checkpoints do. */
  lemma {:induction false} IssuedCounts(s: VersionState, oks: seq<bool>)
    ensures |Issued(s, oks)| == |oks|
    ensures Run(s, oks).curr == s.curr + |oks|
    ensures forall i :: 0 <= i < |oks| ==> Issued(s, oks)[i] == s.curr + i + 1
    decreases |oks|
  {
    if oks != [] {
      IssuedCounts(Advance(s, oks[0]), oks[1..]);
    }
  }

  /** Successive calls hand out strictly increasing versions, all above the start and none above the end. */
  lemma IssuedStrictlyIncreasing(s: VersionState, oks: seq<bool>)
    ensures forall i, j :: 0 <= i < j < |Issued(s, oks)| ==> Issued(s, oks)[i] < Issued(s, oks)[j]
    ensures forall v :: v in Issued(s, oks) ==> s.curr < v <= Run(s, oks).curr
  {
    IssuedCounts(s, oks);
  }

  /** Running calls one after the other is the same as one longer run. */
  lemma {:induction false} RunAppend(s: VersionState, a: seq<bool>, b: seq<bool>)
    ensures Run(s, a + b) == Run(Run(s, a), b)
    ensures Issued(s, a + b) == Issued(s, a) + Issued(Run(s, a), b)
    decreases |a|
  {
    if a != [] {
      assert (a + b)[0] == a[0];
      assert (a + b)[1..] == a[1..] + b;
      RunAppend(Advance(s, a[0]), a[1..], b);
    } else {
      assert a + b == b;
    }
  }

  /** Recoverability holds across any run, whether its checkpoints succeed or fail. */
  lemma {:induction false} RunRecoverable(s: VersionState, oks: seq<bool>)
    requires Recoverable(s)
    ensures Recoverable(Run(s, oks))
    decreases |oks|
  {
    if oks != [] {
      RunRecoverable(Advance(s, oks[0]), oks[1..]);
    }
  }

  /** The gap stays below SAVE_INTERVAL across a run whose checkpoints all succeed. */
  lemma {:induction false} RunWithinInterval(s: VersionState, oks: seq<bool>)
    requires WithinInterval(s)
    requires forall i :: 0 <= i < |oks| ==> oks[i]
    ensures WithinInterval(Run(s, oks))
    decreases |oks|
  {
    if oks != [] {
      RunWithinInterval(Advance(s, oks[0]), oks[1..]);
    }
  }

  /**
   * A run in which no checkpoint succeeds (none is due, or the due ones fail)
   * only moves `curr`.
   */
  lemma {:induction false} RunWithoutCheckpoint(s: VersionState, oks: seq<bool>)
    requires forall i :: 0 <= i < |oks| && s.curr + i + 1 - s.prev >= SAVE_INTERVAL ==> !oks[i]
    ensures Run(s, oks) == s.(curr := s.curr + |oks|)
    decreases |oks|
  {
    if oks != [] {
      var t := Advance(s, oks[0]);
      assert t == s.(curr := s.curr + 1);
      forall i | 0 <= i < |oks[1..]| && t.curr + i + 1 - t.prev >= SAVE_INTERVAL
        ensures !oks[1..][i]
      {
        assert oks[1..][i] == oks[i + 1];
      }
      RunWithoutCheckpoint(t, oks[1..]);
    }
  }

  /** `listing` names every marker of the set exactly once, in the order the file system lists them. */
  ghost predicate Enumerates(listing: seq<nat>, markers: set<nat>)
  {
    && (forall m :: m in markers <==> m in listing)
    && (forall i, j :: 0 <= i < j < |listing| ==> listing[i] != listing[j])
  }

  /**
   * The version restore() selects: it starts from 0 and takes every listed
   * version that is strictly greater than the best so far.
   */
  function MaxVersion(listing: seq<nat>): (m: nat)
    ensures forall i :: 0 <= i < |listing| ==> listing[i] <= m
    ensures listing != [] ==> m in listing
    ensures listing == [] ==> m == 0
    decreases |listing|
  {
    if listing == [] then 0
    else
      var best := MaxVersion(listing[..|listing| - 1]);
      var last := listing[|listing| - 1];
      if last > best then last else best
  }

  /**
   * The stale markers restore() manages to delete: the listed files that are
   * not the kept version and whose deletion succeeds.
   */
  function Deleted(listing: seq<nat>, keep: nat, deleteOk: seq<bool>): (d: set<nat>)
    requires |deleteOk| == |listing|
    ensures keep !in d
    ensures forall x :: x in d ==> x in listing
    ensures forall i :: 0 <= i < |listing| && listing[i] != keep && deleteOk[i] ==> listing[i] in d
    ensures forall x :: x in d <==> exists i :: 0 <= i < |listing| && listing[i] == x && x != keep && deleteOk[i]
    decreases |listing|
  {
    if listing == [] then {}
    else
      var n := |listing| - 1;
      var earlier := Deleted(listing[..n], keep, deleteOk[..n]);
      assert forall i :: 0 <= i < n ==> listing[..n][i] == listing[i] && deleteOk[..n][i] == deleteOk[i];
      if listing[n] != keep && deleteOk[n] then earlier + {listing[n]} else earlier
  }

  /** The result of restore(): a ready controller, or the failure with what is left on disk. */
  datatype Recovery = Recovered(state: VersionState) | RecoveryFailed(markers: set<nat>)

  /**
   * restore(): with markers present, take the largest as `prev` and delete the
   * others; with none, create marker 0 and take `prev` = 0. Then pre-advance
   * `curr` to `prev` + SAVE_INTERVAL and persist it. Failing to create marker 0
   * or to persist aborts construction.
   */
  function Recover(markers: set<nat>, listing: seq<nat>, deleteOk: seq<bool>, createOk: bool, renameOk: bool): (r: Recovery)
    requires Enumerates(listing, markers) && |deleteOk| == |listing|
    ensures r.Recovered? <==> renameOk && (markers != {} || createOk)
    ensures r.Recovered? ==> WithinInterval(r.state) && r.state.prev == r.state.curr
    ensures r.Recovered? && markers == {} ==> r.state.curr == SAVE_INTERVAL
    ensures r.Recovered? && markers != {} ==>
              r.state.curr - SAVE_INTERVAL in markers &&
              forall m :: m in markers ==> m + SAVE_INTERVAL <= r.state.curr
  {
    if |listing| == 0 && !createOk then RecoveryFailed(markers)
    else
      var base := if |listing| > 0 then MaxVersion(listing) else 0;
      var onDisk := if |listing| > 0 then markers - Deleted(listing, base, deleteOk) else markers + {0};
      match Checkpoint(VersionState(base, base + SAVE_INTERVAL, onDisk), renameOk)
      case Some(t) => Recovered(t)
      case None => RecoveryFailed(onDisk)
  }

  /** When every stale marker is deleted, recovery leaves exactly one marker: the persisted `curr`. */
  lemma RecoverLeavesOneMarker(markers: set<nat>, listing: seq<nat>, deleteOk: seq<bool>, createOk: bool, renameOk: bool)
    requires Enumerates(listing, markers) && |deleteOk| == |listing|
    requires forall i :: 0 <= i < |deleteOk| ==> deleteOk[i]
    requires Recover(markers, listing, deleteOk, createOk, renameOk).Recovered?
    ensures Recover(markers, listing, deleteOk, createOk, renameOk).state.markers
         == {Recover(markers, listing, deleteOk, createOk, renameOk).state.curr}
  {
  }

  /**
   * restore() ignores the result of deleting a stale marker: with markers 5
   * and 7 and a failing delete of 5, recovery succeeds and leaves two markers.
   */
  lemma FailedDeleteLeavesStaleMarker()
    ensures Recover({5, 7}, [5, 7], [false, true], true, true) == Recovered(VersionState(107, 107, {5, 107}))
  {
  }

  /** From a recoverable state, recovery resumes at exactly `prev` + SAVE_INTERVAL. */
  lemma RecoverResumesAbovePrev(s: VersionState, listing: seq<nat>, deleteOk: seq<bool>, createOk: bool, renameOk: bool)
    requires Recoverable(s)
    requires Enumerates(listing, s.markers) && |deleteOk| == |listing|
    requires Recover(s.markers, listing, deleteOk, createOk, renameOk).Recovered?
    ensures Recover(s.markers, listing, deleteOk, createOk, renameOk).state.curr == s.prev + SAVE_INTERVAL
  {
  }

  /**
   * From a state within the interval, recovery resumes above every version
   * handed out so far (all of which are at most `curr`).
   */
  lemma RecoveryExceedsCurrent(s: VersionState, listing: seq<nat>, deleteOk: seq<bool>, createOk: bool, renameOk: bool)
    requires WithinInterval(s)
    requires Enumerates(listing, s.markers) && |deleteOk| == |listing|
    requires Recover(s.markers, listing, deleteOk, createOk, renameOk).Recovered?
    ensures s.curr < Recover(s.markers, listing, deleteOk, createOk, renameOk).state.curr
  {
  }

  /**
   * Restart safety: run from a state within the interval with every
   * checkpoint succeeding, crash, recover from the markers left on disk; every
   * version handed out after the restart exceeds every version handed out
   * before it.
   */
  lemma RestartNeverReissues(s: VersionState, oks: seq<bool>, listing: seq<nat>, deleteOk: seq<bool>,
                             createOk: bool, renameOk: bool, later: seq<bool>)
    requires WithinInterval(s)
    requires forall i :: 0 <= i < |oks| ==> oks[i]
    requires Enumerates(listing, Run(s, oks).markers) && |deleteOk| == |listing|
    requires Recover(Run(s, oks).markers, listing, deleteOk, createOk, renameOk).Recovered?
    ensures forall a, b ::
              (a in Issued(s, oks) &&
               b in Issued(Recover(Run(s, oks).markers, listing, deleteOk, createOk, renameOk).state, later)) ==> a < b
  {
    var crashed := Run(s, oks);
    var restarted := Recover(crashed.markers, listing, deleteOk, createOk, renameOk).state;
    RunWithinInterval(s, oks);
    RecoveryExceedsCurrent(crashed, listing, deleteOk, createOk, renameOk);
    IssuedStrictlyIncreasing(s, oks);
    IssuedStrictlyIncreasing(restarted, later);
  }

  /**
   * From a fresh directory: recovery creates marker 0 and persists marker 100;
   * the first call hands out 101, the hundredth hands out 200 and leaves marker
   * 200 as the only one.
   */
  lemma FreshDirectory()
    ensures Recover({}, [], [], true, true) == Recovered(VersionState(100, 100, {100}))
    ensures |Issued(VersionState(100, 100, {100}), seq(100, _ => true))| == 100
    ensures Issued(VersionState(100, 100, {100}), seq(100, _ => true))[0] == 101
    ensures Issued(VersionState(100, 100, {100}), seq(100, _ => true))[99] == 200
    ensures Run(VersionState(100, 100, {100}), seq(100, _ => true)) == VersionState(200, 200, {200})
  {
    var s := VersionState(100, 100, {100});
    var first: seq<bool> := seq(99, _ => true);
    assert seq(100, _ => true) == first + [true];
    IssuedCounts(s, seq(100, _ => true));
    RunAppend(s, first, [true]);
    RunWithoutCheckpoint(s, first);
    assert Run(s, first) == VersionState(100, 199, {100});
    assert Advance(VersionState(100, 199, {100}), true) == VersionState(200, 200, {200});
  }

  /**
   * As written, a checkpoint failure lets `curr` run past `prev` +
   * SAVE_INTERVAL; after a crash, recovery resumes at `prev` + SAVE_INTERVAL
   * and hands out 201 a second time.
   */
  lemma CheckpointFailureReissues()
    ensures Recover({}, [], [], true, true) == Recovered(VersionState(100, 100, {100}))
    ensures Run(VersionState(100, 100, {100}), seq(99, _ => true) + [false, false]) == VersionState(100, 201, {100})
    ensures |Issued(VersionState(100, 100, {100}), seq(99, _ => true) + [false, false])| == 101
    ensures Issued(VersionState(100, 100, {100}), seq(99, _ => true) + [false, false])[100] == 201
    ensures Recover({100}, [100], [true], true, true) == Recovered(VersionState(200, 200, {200}))
    ensures Issued(VersionState(200, 200, {200}), [true]) == [201]
  {
    var s := VersionState(100, 100, {100});
    var oks := seq(99, _ => true) + [false, false];
    assert forall i :: 0 <= i < |oks| && s.curr + i + 1 - s.prev >= SAVE_INTERVAL ==> !oks[i];
    RunWithoutCheckpoint(s, oks);
    IssuedCounts(s, oks);
    assert MaxVersion([100]) == 100;
  }

  /** A call of the corrected nextVersion: the version handed out, or None when it refuses. */
  datatype Issue = Issue(state: VersionState, version: Option<nat>)

  /**
   * Corrected nextVersion: when the due checkpoint fails, the increment is
   * rolled back and the failure reported, so the gap never reaches
   * SAVE_INTERVAL and recovery always resumes above every version handed out.
   */
  function NextChecked(s: VersionState, renameOk: bool): (r: Issue)
    ensures r.version.Some? ==> r.version.value == s.curr + 1 == r.state.curr
    ensures r.version.None? ==> r.state == s
    ensures r.version.None? <==> s.curr + 1 - s.prev >= SAVE_INTERVAL && !(renameOk && s.prev in s.markers)
    ensures WithinInterval(s) ==> WithinInterval(r.state)
  {
    var bumped := s.(curr := s.curr + 1);
    match CheckpointIfDue(bumped, renameOk)
    case Some(t) => Issue(t, Some(t.curr))
    case None => Issue(s, None)
  }

  /** The state after a run of corrected calls; `oks[i]` is the fate of the i-th call's rename. */
  function RunChecked(s: VersionState, oks: seq<bool>): VersionState
    decreases |oks|
  {
    if oks == [] then s else RunChecked(NextChecked(s, oks[0]).state, oks[1..])
  }

  /** The versions a run of corrected calls hands out, in order; refused calls hand out nothing. */
  function IssuedChecked(s: VersionState, oks: seq<bool>): seq<nat>
    decreases |oks|
  {
    if oks == [] then []
    else
      var r := NextChecked(s, oks[0]);
      (if r.version.Some? then [r.version.value] else []) + IssuedChecked(r.state, oks[1..])
  }

  /**
   * A run of corrected calls keeps the gap below SAVE_INTERVAL whatever the
   * renames do, and hands out strictly increasing versions above the starting
   * `curr` and at most the final one.
   */
  lemma {:induction false} RunCheckedWithinInterval(s: VersionState, oks: seq<bool>)
    requires WithinInterval(s)
    ensures WithinInterval(RunChecked(s, oks)) && s.curr <= RunChecked(s, oks).curr
    ensures forall v :: v in IssuedChecked(s, oks) ==> s.curr < v <= RunChecked(s, oks).curr
    ensures forall i, j :: 0 <= i < j < |IssuedChecked(s, oks)| ==> IssuedChecked(s, oks)[i] < IssuedChecked(s, oks)[j]
    decreases |oks|
  {
    if oks != [] {
      var r := NextChecked(s, oks[0]);
      RunCheckedWithinInterval(r.state, oks[1..]);
      var head: seq<nat> := if r.version.Some? then [r.version.value] else [];
      var rest := IssuedChecked(r.state, oks[1..]);
      assert IssuedChecked(s, oks) == head + rest;
      assert RunChecked(s, oks) == RunChecked(r.state, oks[1..]);
      assert s.curr <= r.state.curr;
      forall v | v in head + rest ensures s.curr < v <= RunChecked(s, oks).curr {
        if v !in rest {
          assert v == r.version.value == r.state.curr;
        }
      }
      forall i, j | 0 <= i < j < |head + rest| ensures (head + rest)[i] < (head + rest)[j] {
        if i < |head| {
          assert (head + rest)[j] in rest;
        } else {
          assert (head + rest)[i] == rest[i - |head|] && (head + rest)[j] == rest[j - |head|];
        }
      }
    }
  }

  /**
   * Restart safety for the corrected controller, with no assumption about the
   * renames: run corrected calls, crash, recover from the markers left on
   * disk, run corrected calls again; every version handed out after the
   * restart exceeds every version handed out before it.
   */
  lemma RestartNeverReissuesChecked(s: VersionState, oks: seq<bool>, listing: seq<nat>, deleteOk: seq<bool>,
                                    createOk: bool, renameOk: bool, later: seq<bool>)
    requires WithinInterval(s)
    requires Enumerates(listing, RunChecked(s, oks).markers) && |deleteOk| == |listing|
    requires Recover(RunChecked(s, oks).markers, listing, deleteOk, createOk, renameOk).Recovered?
    ensures forall a, b ::
              (a in IssuedChecked(s, oks) &&
               b in IssuedChecked(Recover(RunChecked(s, oks).markers, listing, deleteOk, createOk, renameOk).state, later)) ==> a < b
  {
    var crashed := RunChecked(s, oks);
    var restarted := Recover(crashed.markers, listing, deleteOk, createOk, renameOk).state;
    RunCheckedWithinInterval(s, oks);
    RecoveryExceedsCurrent(crashed, listing, deleteOk, createOk, renameOk);
    RunCheckedWithinInterval(restarted, later);
  }

  /**
   * The scan of restore()'s first loop: the largest listed version, and the
   * index of its first occurrence (index 0 when the largest is 0).
   */
  method MaxMarker(listing: seq<nat>) returns (maxVersion: nat, maxVersionIndex: nat)
    ensures maxVersion == MaxVersion(listing)
    ensures listing != [] ==> maxVersionIndex < |listing| && listing[maxVersionIndex] == maxVersion
    ensures listing == [] ==> maxVersionIndex == 0
    ensures forall j :: 0 <= j < maxVersionIndex ==> listing[j] < maxVersion
  {
    maxVersion, maxVersionIndex := 0, 0;
    var i := 0;
    while i < |listing|
      invariant 0 <= i <= |listing|
      invariant maxVersion == MaxVersion(listing[..i])
      invariant i == 0 ==> maxVersionIndex == 0
      invariant i > 0 ==> maxVersionIndex < i && listing[maxVersionIndex] == maxVersion
      invariant forall j :: 0 <= j < maxVersionIndex ==> listing[j] < maxVersion
    {
      assert listing[..i + 1][..i] == listing[..i];
      if listing[i] > maxVersion {
        maxVersion := listing[i];
        maxVersionIndex := i;
      }
      i := i + 1;
    }
    assert listing[..i] == listing;
  }

  /** The storage directory, seen through the versions of the marker files it holds. */
  class VersionDirectory {
    var markers: set<nat>

    constructor (markers: set<nat>)
      ensures this.markers == markers
    {
      this.markers := markers;
    }

    /** File.renameTo from marker `from` to marker `to`. */
    method RenameTo(from: nat, to: nat, renameOk: bool) returns (renamed: bool)
      modifies this
      ensures RenameMarker(old(markers), from, to, renameOk) == if renamed then Some(markers) else None
      ensures !renamed ==> markers == old(markers)
    {
      renamed := renameOk && from in markers;
      if renamed {
        markers := markers - {from} + {to};
      }
    }

    /** File.delete of marker `v`; it reports whether the marker was removed. */
    method Delete(v: nat, deleteOk: bool) returns (deleted: bool)
      modifies this
      ensures deleted == (deleteOk && v in old(markers))
      ensures markers == if deleteOk then old(markers) - {v} else old(markers)
    {
      deleted := deleteOk && v in markers;
      if deleteOk {
        markers := markers - {v};
      }
    }

    /** Creating the empty marker file for `v`. */
    method CreateEmpty(v: nat, createOk: bool) returns (created: bool)
      modifies this
      ensures created == createOk
      ensures markers == if createOk then old(markers) + {v} else old(markers)
    {
      created := createOk;
      if createOk {
        markers := markers + {v};
      }
    }
  }

  class SimpleFileVersionController {
    var prevVersion: nat
    var currVersion: nat
    const directory: VersionDirectory

    ghost function State(): VersionState
      reads this, directory
    {
      VersionState(prevVersion, currVersion, directory.markers)
    }

    ghost predicate Valid()
      reads this, directory
    {
      Recoverable(State())
    }

    /** Binds the controller to its directory; the counters start at Java's default 0. */
    constructor (directory: VersionDirectory)
      ensures this.directory == directory && prevVersion == 0 && currVersion == 0
    {
      this.directory := directory;
      prevVersion, currVersion := 0, 0;
    }

    method NextVersion(renameOk: bool) returns (v: nat)
      modifies this, directory
      ensures State() == Advance(old(State()), renameOk)
      ensures v == currVersion == old(currVersion) + 1
      ensures old(Valid()) ==> Valid()
    {
      currVersion := currVersion + 1;
      var _ := CheckPersist(renameOk);
      v := currVersion;
    }

    /** Test-only accessor; it changes nothing. */
    method CurrVersion() returns (v: nat)
      ensures v == currVersion
    {
      v := currVersion;
    }

    /** False is the IOException of a failed persist. */
    method CheckPersist(renameOk: bool) returns (ok: bool)
      modifies this, directory
      ensures CheckpointIfDue(old(State()), renameOk) == if ok then Some(State()) else None
      ensures !ok ==> State() == old(State())
    {
      ok := true;
      if currVersion - prevVersion >= SAVE_INTERVAL {
        ok := Persist(renameOk);
      }
    }

    /** False is the IOException raised when the rename fails. */
    method Persist(renameOk: bool) returns (ok: bool)
      modifies this, directory
      ensures Checkpoint(old(State()), renameOk) == if ok then Some(State()) else None
      ensures !ok ==> State() == old(State())
    {
      ok := directory.RenameTo(prevVersion, currVersion, renameOk);
      if ok {
        prevVersion := currVersion;
      }
    }

    /** restore()'s second loop: delete every listed marker except the one at `maxVersionIndex`. */
    method DeleteStaleMarkers(listing: seq<nat>, maxVersion: nat, maxVersionIndex: nat, deleteOk: seq<bool>)
      requires |deleteOk| == |listing| && maxVersionIndex < |listing| && listing[maxVersionIndex] == maxVersion
      requires forall i, j :: 0 <= i < j < |listing| ==> listing[i] != listing[j]
      modifies directory
      ensures directory.markers == old(directory.markers) - Deleted(listing, maxVersion, deleteOk)
    {
      var i := 0;
      while i < |listing|
        invariant 0 <= i <= |listing|
        invariant directory.markers == old(directory.markers) - Deleted(listing[..i], maxVersion, deleteOk[..i])
      {
        assert listing[..i + 1][..i] == listing[..i];
        assert deleteOk[..i + 1][..i] == deleteOk[..i];
        if i != maxVersionIndex {
          var _ := directory.Delete(listing[i], deleteOk[i]);
        }
        i := i + 1;
      }
      assert listing[..i] == listing && deleteOk[..i] == deleteOk;
    }

    /** restore(); `listing` is what listFiles returns, `deleteOk[i]` the fate of deleting its i-th file. */
    method Restore(listing: seq<nat>, deleteOk: seq<bool>, createOk: bool, renameOk: bool) returns (ok: bool)
      requires Enumerates(listing, directory.markers) && |deleteOk| == |listing|
      modifies this, directory
      ensures var r := Recover(old(directory.markers), listing, deleteOk, createOk, renameOk);
              if ok then r == Recovered(State()) else r == RecoveryFailed(directory.markers)
    {
      if |listing| > 0 {
        var maxVersion, maxVersionIndex := MaxMarker(listing);
        prevVersion := maxVersion;
        DeleteStaleMarkers(listing, maxVersion, maxVersionIndex, deleteOk);
      } else {
        prevVersion := 0;
        ok := directory.CreateEmpty(0, createOk);
        if !ok {
          return;
        }
      }
      currVersion := prevVersion + SAVE_INTERVAL;
      ok := Persist(renameOk);
    }
  }

  /**
   * The constructor SimpleFileVersionController(directoryPath): bind to the
   * directory and restore. None is the IOException that aborts construction.
   */
  method Open(directory: VersionDirectory, listing: seq<nat>, deleteOk: seq<bool>, createOk: bool, renameOk: bool)
    returns (c: Option<SimpleFileVersionController>)
    requires Enumerates(listing, directory.markers) && |deleteOk| == |listing|
    modifies directory
    ensures var r := Recover(old(directory.markers), listing, deleteOk, createOk, renameOk);
            match c
            case Some(ctl) => fresh(ctl) && ctl.directory == directory && r == Recovered(ctl.State()) && ctl.Valid()
            case None => r == RecoveryFailed(directory.markers)
  {
    var ctl := new SimpleFileVersionController(directory);
    var ok := ctl.Restore(listing, deleteOk, createOk, renameOk);
    c := if ok then Some(ctl) else None;
  }
}
