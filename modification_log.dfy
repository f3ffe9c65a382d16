/**
 * The modification file of one data file: a lazily loaded in-memory list of
 * deletion records in front of a persistent record store.
 *
 * The store (a text accessor in the engine) is modelled as the sequence of
 * records it has committed; reading returns all of them, writing appends one,
 * aborting truncates the last one. Whether an accessor call succeeds is
 * outside the model's view and is given as a boolean parameter; a failed call
 * leaves the committed records as they were.
 */
module ModificationLog {
  import opened Wrappers

  /** Suffix appended to a data file's path to name its modification file. */
  const FILE_SUFFIX: string := ".mods"

  /** One tombstone: the series matching `path` lose their points in [startTime, endTime]. */
  datatype Modification = Deletion(path: string, startTime: int, endTime: int, version: nat)

  /** IOFailure is an IOException from the accessor; NullCache the NullPointerException of abort() before any load. */
  datatype Error = IOFailure | NullCache

  datatype Outcome = Done | Failed(error: Error)

  /** The cached list (None stands for the null reference) beside the records committed to the store. */
  datatype LogState = LogState(cache: Option<seq<Modification>>, store: seq<Modification>)

  /** A state-changing operation's new state and how it ended. */
  datatype Step = Step(log: LogState, outcome: Outcome)

  /** A listing's new state and its result; None when the load raised an IOException. */
  datatype Fetch = Fetch(log: LogState, result: Option<seq<Modification>>)

  /** Whenever the list is cached it equals what the store has committed. */
  ghost predicate Consistent(l: LogState)
  {
    l.cache.Some? ==> l.cache.value == l.store
  }

  /** The list the next access works on: the cached one, or else what a load would read. */
  function Contents(l: LogState): (c: seq<Modification>)
    ensures Consistent(l) ==> c == l.store
  {
    if l.cache.Some? then l.cache.value else l.store
  }

  /** The store with its last record truncated; an empty store stays empty. */
  function DropLast(s: seq<Modification>): (r: seq<Modification>)
    ensures s == [] ==> r == []
    ensures s != [] ==> r + [s[|s| - 1]] == s
  {
    if s == [] then [] else s[..|s| - 1]
  }

  /**
   * checkInit() (with init()): load the list from the store when nothing is
   * cached, do nothing otherwise. None is the IOException of a failed read,
   * which leaves the cache absent.
   */
  function Loaded(l: LogState, readOk: bool): (r: Option<LogState>)
    ensures l.cache.Some? ==> r == Some(l)
    ensures l.cache.None? ==> (r.Some? <==> readOk)
    ensures r.Some? ==> r.value.cache == Some(Contents(l)) && r.value.store == l.store
    ensures Consistent(l) && r.Some? ==> Consistent(r.value)
  {
    if l.cache.Some? then Some(l)
    else if readOk then Some(LogState(Some(l.store), l.store))
    else None
  }

  /**
   * write(mod): load if needed, append to the store, and only then append to
   * the cached list. A failure at either I/O step leaves the store and the
   * (possibly just loaded) list as they were.
   */
  function Written(l: LogState, mod: Modification, readOk: bool, writeOk: bool): (r: Step)
    ensures r.outcome.Done? <==> (l.cache.Some? || readOk) && writeOk
    ensures r.outcome.Done? ==> r.log.store == l.store + [mod] && r.log.cache == Some(Contents(l) + [mod])
    ensures r.outcome == Done || r.outcome == Failed(IOFailure)
    ensures r.outcome.Failed? ==> r.log.store == l.store && Contents(r.log) == Contents(l)
    ensures r.outcome.Failed? && l.cache.Some? ==> r.log == l
    ensures Consistent(l) ==> Consistent(r.log)
  {
    match Loaded(l, readOk)
    case None => Step(l, Failed(IOFailure))
    case Some(loaded) =>
      if !writeOk then Step(loaded, Failed(IOFailure))
      else Step(LogState(Some(loaded.cache.value + [mod]), loaded.store + [mod]), Done)
  }

  /**
   * abort(): with a non-empty cached list, truncate the store's last record and
   * only then drop the list's last element; with an empty list do nothing.
   * It does not load: with no cached list it fails with NullCache.
   */
  function Aborted(l: LogState, abortOk: bool): (r: Step)
    ensures l.cache.None? ==> r == Step(l, Failed(NullCache))
    ensures l.cache == Some([]) ==> r == Step(l, Done)
    ensures l.cache.Some? && l.cache.value != [] ==> (r.outcome.Done? <==> abortOk)
    ensures l.cache.Some? && l.cache.value != [] && r.outcome.Done? ==>
              r.log.cache.Some? && r.log.cache.value + [l.cache.value[|l.cache.value| - 1]] == l.cache.value &&
              r.log.store == DropLast(l.store)
    ensures r.outcome.Failed? ==> r.log == l
    ensures Consistent(l) ==> Consistent(r.log)
  {
    match l.cache
    case None => Step(l, Failed(NullCache))
    case Some(mods) =>
      if |mods| == 0 then Step(l, Done)
      else if !abortOk then Step(l, Failed(IOFailure))
      else Step(LogState(Some(mods[..|mods| - 1]), DropLast(l.store)), Done)
  }

  /**
   * close(): close the writer and then drop the cached list, so the next
   * access reloads. A failing close leaves the cache in place.
   */
  function Closed(l: LogState, closeOk: bool): (r: Step)
    ensures r.log.store == l.store
    ensures r.outcome.Done? <==> closeOk
    ensures r.outcome.Done? ==> r.log.cache.None? && Consistent(r.log)
    ensures r.outcome.Failed? ==> r == Step(l, Failed(IOFailure))
  {
    if closeOk then Step(l.(cache := None), Done) else Step(l, Failed(IOFailure))
  }

  /**
   * getModifications(): load if needed and return a copy of the cached list;
   * the store is never touched.
   */
  function Listed(l: LogState, readOk: bool): (r: Fetch)
    ensures r.log.store == l.store
    ensures r.result.Some? <==> l.cache.Some? || readOk
    ensures r.result.Some? ==> r.result.value == Contents(l) && r.log.cache == r.result
    ensures r.result.None? ==> r.log == l
    ensures Consistent(l) && r.result.Some? ==> r.result.value == l.store
  {
    match Loaded(l, readOk)
    case None => Fetch(l, None)
    case Some(loaded) => Fetch(loaded, loaded.cache)
  }

  /** A run of write() calls in which every load and every store write succeeds. */
  function WriteAll(l: LogState, mods: seq<Modification>): LogState
    decreases |mods|
  {
    if mods == [] then l else WriteAll(Written(l, mods[0], true, true).log, mods[1..])
  }

  /**
   * Appending a run of records to a consistent log leaves the store, and the
   * list the next access sees, both equal to the old store followed by those
   * records; after at least one write the list is cached.
   */
  lemma {:induction false} WriteAllAppends(l: LogState, mods: seq<Modification>)
    requires Consistent(l)
    ensures WriteAll(l, mods).store == l.store + mods
    ensures Contents(WriteAll(l, mods)) == l.store + mods
    ensures Consistent(WriteAll(l, mods))
    ensures mods != [] ==> WriteAll(l, mods).cache.Some?
    decreases |mods|
  {
    if mods == [] {
      assert l.store + mods == l.store;
    } else {
      var next := Written(l, mods[0], true, true).log;
      WriteAllAppends(next, mods[1..]);
      assert l.store + [mods[0]] + mods[1..] == l.store + mods;
    }
  }

  /**
   * The records listed after a run of successful writes are exactly the
   * records the store held before them followed by the written ones, in order;
   * the same holds after closing the file and loading it again.
   */
  lemma ListAfterWritesAndReopen(committed: seq<Modification>, mods: seq<Modification>)
    ensures Listed(WriteAll(LogState(None, committed), mods), true).result == Some(committed + mods)
    ensures Listed(Closed(WriteAll(LogState(None, committed), mods), true).log, true).result == Some(committed + mods)
  {
    WriteAllAppends(LogState(None, committed), mods);
  }

  /** abort() right after a successful write() takes back exactly that record, from the store and the list. */
  lemma WriteThenAbortRestores(l: LogState, mod: Modification, readOk: bool)
    requires Consistent(l)
    requires Written(l, mod, readOk, true).outcome.Done?
    ensures Aborted(Written(l, mod, readOk, true).log, true) == Step(LogState(Some(l.store), l.store), Done)
  {
  }

  /**
   * On a non-empty consistent log, a successful abort() removes the last
   * record for good: reloading after close() no longer lists it.
   */
  lemma AbortIsDurable(l: LogState)
    requires Consistent(l) && l.cache.Some? && l.store != []
    ensures Aborted(l, true).outcome.Done?
    ensures Listed(Closed(Aborted(l, true).log, true).log, true).result == Some(l.store[..|l.store| - 1])
  {
  }

  /** A failed store write changes nothing a later listing sees. */
  lemma FailedWriteKeepsList(l: LogState, mod: Modification, readOk: bool)
    requires Consistent(l)
    ensures Written(l, mod, readOk, false).outcome == Failed(IOFailure)
    ensures Listed(Written(l, mod, readOk, false).log, true).result == Some(l.store)
  {
  }

  /** The persistent record store behind one modification file, both its writer and its reader. */
  class ModificationAccessor {
    const filePath: string
    var records: seq<Modification>

    /** Opens the store at `filePath`, which already holds the records `committed`. */
    constructor (filePath: string, committed: seq<Modification>)
      ensures this.filePath == filePath && records == committed
    {
      this.filePath := filePath;
      records := committed;
    }

    /** Reads every committed record, in order; None is an IOException. */
    method Read(readOk: bool) returns (r: Option<seq<Modification>>)
      ensures r == if readOk then Some(records) else None
    {
      r := if readOk then Some(records) else None;
    }

    /** Appends one record and forces it to disk; false is an IOException. */
    method Write(mod: Modification, writeOk: bool) returns (written: bool)
      modifies this
      ensures written == writeOk
      ensures records == if writeOk then old(records) + [mod] else old(records)
    {
      written := writeOk;
      if writeOk {
        records := records + [mod];
      }
    }

    /** Truncates the last record; false is an IOException. */
    method Abort(abortOk: bool) returns (aborted: bool)
      modifies this
      ensures aborted == abortOk
      ensures records == if abortOk then DropLast(old(records)) else old(records)
    {
      aborted := abortOk;
      if abortOk {
        records := DropLast(records);
      }
    }

    /** Releases the file handle; false is an IOException. */
    method Close(closeOk: bool) returns (closed: bool)
      ensures closed == closeOk
    {
      closed := closeOk;
    }
  }

  class ModificationFile {
    var modifications: Option<seq<Modification>>
    /** The one accessor that serves as both writer and reader. */
    const accessor: ModificationAccessor
    var filePath: string

    ghost function Log(): LogState
      reads this, accessor
    {
      LogState(modifications, accessor.records)
    }

    ghost predicate Valid()
      reads this, accessor
    {
      Consistent(Log())
    }

    /** A modification file stored at `filePath`, whose store already holds `committed`; nothing is loaded yet. */
    constructor (filePath: string, committed: seq<Modification>)
      ensures fresh(accessor) && accessor.filePath == filePath && this.filePath == filePath
      ensures Log() == LogState(None, committed) && Valid()
    {
      accessor := new ModificationAccessor(filePath, committed);
      this.filePath := filePath;
      modifications := None;
    }

    /** init(): adopt what the reader reads as the cached list; false is an IOException. */
    method Init(readOk: bool) returns (ok: bool)
      modifies this`modifications
      ensures ok == readOk
      ensures modifications == if readOk then Some(accessor.records) else old(modifications)
    {
      var read := accessor.Read(readOk);
      ok := read.Some?;
      if ok {
        modifications := read;
      }
    }

    method CheckInit(readOk: bool) returns (ok: bool)
      modifies this`modifications
      ensures Loaded(old(Log()), readOk) == if ok then Some(Log()) else None
      ensures !ok ==> Log() == old(Log())
    {
      ok := true;
      if modifications.None? {
        ok := Init(readOk);
      }
    }

    method Close(closeOk: bool) returns (outcome: Outcome)
      modifies this`modifications
      ensures Closed(old(Log()), closeOk) == Step(Log(), outcome)
      ensures old(Valid()) ==> Valid()
    {
      var closed := accessor.Close(closeOk);
      if !closed {
        return Failed(IOFailure);
      }
      modifications := None;
      outcome := Done;
    }

    method Abort(abortOk: bool) returns (outcome: Outcome)
      modifies this`modifications, accessor
      ensures Aborted(old(Log()), abortOk) == Step(Log(), outcome)
      ensures old(Valid()) ==> Valid()
    {
      if modifications.None? {
        return Failed(NullCache);
      }
      var mods := modifications.value;
      if |mods| > 0 {
        var aborted := accessor.Abort(abortOk);
        if !aborted {
          return Failed(IOFailure);
        }
        modifications := Some(mods[..|mods| - 1]);
      }
      outcome := Done;
    }

    method Write(mod: Modification, readOk: bool, writeOk: bool) returns (outcome: Outcome)
      modifies this`modifications, accessor
      ensures Written(old(Log()), mod, readOk, writeOk) == Step(Log(), outcome)
      ensures old(Valid()) ==> Valid()
    {
      var loaded := CheckInit(readOk);
      if !loaded {
        return Failed(IOFailure);
      }
      var written := accessor.Write(mod, writeOk);
      if !written {
        return Failed(IOFailure);
      }
      modifications := Some(modifications.value + [mod]);
      outcome := Done;
    }

    /** Returns a copy of the list (a Dafny sequence is a value); None is an IOException. */
    method GetModifications(readOk: bool) returns (mods: Option<seq<Modification>>)
      modifies this`modifications
      ensures Listed(old(Log()), readOk) == Fetch(Log(), mods)
      ensures old(Valid()) ==> Valid()
    {
      var loaded := CheckInit(readOk);
      if !loaded {
        return None;
      }
      mods := modifications;
    }

    method GetFilePath() returns (p: string)
      ensures p == filePath
    {
      p := filePath;
    }

    method SetFilePath(p: string)
      modifies this`filePath
      ensures filePath == p
      ensures Log() == old(Log())
    {
      filePath := p;
    }
  }
}
