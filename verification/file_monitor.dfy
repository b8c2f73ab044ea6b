/** The inotify watcher `vfs::file_monitor` (src/vfs/vfs-file-monitor.cxx).
    The bytes returned by one `read` are modelled as the sequence of inotify
    records they hold; a record occupies `EVENT_SIZE + len` bytes, where `len`
    counts the (padded) name that follows the fixed header. */
module FileMonitor {
  import opened Wrappers
  import opened Strings
  import opened Paths

  // Linux inotify mask bits.
  const IN_MODIFY: bv32 := 0x2
  const IN_ATTRIB: bv32 := 0x4
  const IN_MOVED_FROM: bv32 := 0x40
  const IN_MOVED_TO: bv32 := 0x80
  const IN_CREATE: bv32 := 0x100
  const IN_DELETE: bv32 := 0x200
  const IN_DELETE_SELF: bv32 := 0x400
  const IN_MOVE_SELF: bv32 := 0x800
  const IN_UNMOUNT: bv32 := 0x2000
  const IN_IGNORED: bv32 := 0x8000
  const IN_ISDIR: bv32 := 0x4000_0000
  const IN_MOVE: bv32 := IN_MOVED_FROM | IN_MOVED_TO

  /** The mask the watch is added with. */
  const WATCH_MASK: bv32 :=
    IN_MODIFY | IN_CREATE | IN_DELETE | IN_DELETE_SELF | IN_MOVE | IN_MOVE_SELF | IN_UNMOUNT | IN_ATTRIB

  /** `sizeof(inotify_event)`: the fixed record header. */
  const EVENT_SIZE: nat := 16
  /** Size of the read buffer. */
  const EVENT_BUF_LEN: nat := 1024 * (EVENT_SIZE + 16)

  // GLib IOCondition bits.
  const IO_IN: bv32 := 1
  const IO_PRI: bv32 := 2
  const IO_ERR: bv32 := 8
  const IO_HUP: bv32 := 16

  const CREATED_BITS: bv32 := IN_CREATE | IN_MOVED_TO
  const DELETED_BITS: bv32 := IN_DELETE | IN_MOVED_FROM | IN_DELETE_SELF | IN_UNMOUNT
  const CHANGED_BITS: bv32 := IN_MODIFY | IN_ATTRIB

  /** `vfs::file_monitor_event`. */
  datatype Event = Created | Deleted | Changed | Other

  /** One inotify record: its mask, the length of its name field and the name. */
  datatype Record = Record(mask: bv32, len: nat, name: string)

  /** Classification of a mask, by priority: created, then deleted, then
      changed, then other. */
  function Classify(mask: bv32): (e: Event)
    ensures e == Created <==> mask & CREATED_BITS != 0
    ensures e == Deleted <==> mask & CREATED_BITS == 0 && mask & DELETED_BITS != 0
    ensures e == Changed <==> mask & (CREATED_BITS | DELETED_BITS) == 0 && mask & CHANGED_BITS != 0
  {
    if mask & CREATED_BITS != 0 then Created
    else if mask & DELETED_BITS != 0 then Deleted
    else if mask & CHANGED_BITS != 0 then Changed
    else Other
  }

  /** The classification of every single bit the watch can report, and of the
      two bits that need attention: a moved watched directory and a removed
      watch both come out as `Other`. */
  lemma ClassifyEachBit()
    ensures Classify(IN_CREATE) == Created && Classify(IN_MOVED_TO) == Created
    ensures Classify(IN_DELETE) == Deleted && Classify(IN_MOVED_FROM) == Deleted
    ensures Classify(IN_DELETE_SELF) == Deleted && Classify(IN_UNMOUNT) == Deleted
    ensures Classify(IN_MODIFY) == Changed && Classify(IN_ATTRIB) == Changed
    ensures Classify(IN_MOVE_SELF) == Other && Classify(IN_IGNORED) == Other
  {
  }

  /** A record carrying both a creation and a deletion bit is a creation; the
      directory flag never changes a classification. */
  lemma ClassifyPriority(mask: bv32)
    ensures Classify(mask | IN_CREATE) == Created
    ensures mask & CREATED_BITS == 0 ==> Classify(mask | IN_DELETE) == Deleted
    ensures Classify(mask | IN_ISDIR) == Classify(mask)
  {
    assert (mask | IN_CREATE) & CREATED_BITS != 0;
    DeleteBitPriority(mask);
    DirFlagIgnored(mask);
  }

  lemma DeleteBitPriority(mask: bv32)
    ensures mask & CREATED_BITS == 0 ==> (mask | IN_DELETE) & CREATED_BITS == 0
    ensures (mask | IN_DELETE) & DELETED_BITS != 0
  {
  }

  lemma DirFlagIgnored(mask: bv32)
    ensures (mask | IN_ISDIR) & CREATED_BITS == mask & CREATED_BITS
    ensures (mask | IN_ISDIR) & DELETED_BITS == mask & DELETED_BITS
    ensures (mask | IN_ISDIR) & CHANGED_BITS == mask & CHANGED_BITS
  {
  }

  /** The path reported for a name: next to it in the watched directory, or
      next to the watched file when a single file is watched. */
  function EventPath(watchedIsDir: bool, watched: Path, name: string): (p: Path)
    ensures EndsWith(p, name)
  {
    if watchedIsDir then JoinPath(watched, name) else JoinPath(ParentPath(watched), name)
  }

  lemma NamedRecord(watchedIsDir: bool, watched: Path, name: string)
    ensures IsName(name) ==> Basename(EventPath(watchedIsDir, watched, name)) == name
    ensures IsName(name) && watchedIsDir ==> EventPath(watchedIsDir, watched, name) == JoinPath(watched, name)
  {
    if IsName(name) {
      EventPathNamesRecord(watchedIsDir, watched, name);
    }
  }

  lemma EventPathNamesRecord(watchedIsDir: bool, watched: Path, name: string)
    requires IsName(name)
    ensures Basename(EventPath(watchedIsDir, watched, name)) == name
    ensures watchedIsDir ==> EventPath(watchedIsDir, watched, name) == JoinPath(watched, name)
  {
    if watchedIsDir {
      BasenameJoin(watched, name);
    } else {
      BasenameJoin(ParentPath(watched), name);
    }
  }

  /** Number of bytes the records occupy in the buffer. */
  function Size(rs: seq<Record>): nat
  {
    if |rs| == 0 then 0 else Size(rs[..|rs| - 1]) + EVENT_SIZE + rs[|rs| - 1].len
  }

  /** A strict prefix of the records occupies strictly fewer bytes. */
  lemma {:induction false} SizePrefix(rs: seq<Record>, k: nat)
    requires k <= |rs|
    ensures k < |rs| ==> Size(rs[..k]) < Size(rs)
    ensures k == |rs| ==> Size(rs[..k]) == Size(rs)
    decreases |rs|
  {
    if k < |rs| {
      var init := rs[..|rs| - 1];
      if k < |init| {
        SizePrefix(init, k);
        assert init[..k] == rs[..k];
      } else {
        assert rs[..k] == init;
      }
    } else {
      assert rs[..k] == rs;
    }
  }

  /** One more record adds its header and its name to the size. */
  lemma SizeExtend(rs: seq<Record>, k: nat)
    requires k < |rs|
    ensures Size(rs[..k + 1]) == Size(rs[..k]) + EVENT_SIZE + rs[k].len
  {
    assert rs[..k + 1][..k] == rs[..k];
  }

  /** The records that carry a name, in buffer order. */
  function Named(rs: seq<Record>): (n: seq<Record>)
    ensures forall j :: 0 <= j < |n| ==> n[j].len > 0 && n[j] in rs
  {
    if |rs| == 0 then []
    else Named(rs[..|rs| - 1]) + (if rs[|rs| - 1].len > 0 then [rs[|rs| - 1]] else [])
  }

  /** Every named record is kept; a nameless one is kept only if an identical
      named one exists, which is impossible, so nameless records never appear. */
  lemma {:induction false} NamedKeepsNamed(rs: seq<Record>, r: Record)
    requires r in rs
    ensures r.len > 0 <==> r in Named(rs)
  {
    var i :| 0 <= i < |rs| && rs[i] == r;
    NamedKeepsIndex(rs, i);
  }

  lemma {:induction false} NamedKeepsIndex(rs: seq<Record>, i: nat)
    requires i < |rs|
    ensures rs[i].len > 0 ==> rs[i] in Named(rs)
    decreases |rs|
  {
    if i < |rs| - 1 {
      NamedKeepsIndex(rs[..|rs| - 1], i);
    }
  }

  /** A dispatch: the event kind and the composed path. */
  datatype Dispatch = Dispatch(event: Event, path: Path)

  function DispatchOf(watchedIsDir: bool, watched: Path, r: Record): (dp: Dispatch)
    ensures IsName(r.name) ==> Basename(dp.path) == r.name
    ensures watchedIsDir && IsName(r.name) ==> dp.path == JoinPath(watched, r.name)
  {
    NamedRecord(watchedIsDir, watched, r.name);
    Dispatch(Classify(r.mask), EventPath(watchedIsDir, watched, r.name))
  }

  /** What one `read` of GLib's IO watch produced. */
  datatype ReadResult = ReadFailed | ReadRecords(records: seq<Record>)

  /** `on_inotify_event`: stop on a condition exactly equal to HUP or ERR or on
      a failed read; otherwise walk the buffer, dispatching each named record
      once, in order, and keep watching. */
  method OnInotifyEvent(condition: bv32, read: ReadResult, watchedIsDir: bool, watched: Path)
    returns (keepWatching: bool, dispatched: seq<Dispatch>)
    ensures keepWatching <==> condition != IO_HUP && condition != IO_ERR && read.ReadRecords?
    ensures !keepWatching ==> dispatched == []
    ensures keepWatching ==>
      |dispatched| == |Named(read.records)| &&
      forall j :: 0 <= j < |dispatched| ==>
        dispatched[j] == DispatchOf(watchedIsDir, watched, Named(read.records)[j])
  {
    if condition == IO_HUP || condition == IO_ERR {
      return false, [];
    }
    if read.ReadFailed? {
      return false, [];
    }
    var records := read.records;
    var length := Size(records);
    var i: nat := 0;
    var k: nat := 0;
    dispatched := [];
    SizePrefix(records, k);
    while i < length
      invariant k <= |records|
      invariant i == Size(records[..k])
      invariant i < length <==> k < |records|
      invariant |dispatched| == |Named(records[..k])|
      invariant forall j :: 0 <= j < |dispatched| ==>
        dispatched[j] == DispatchOf(watchedIsDir, watched, Named(records[..k])[j])
      decreases length - i
    {
      var event := records[k];
      DispatchesExtend(watchedIsDir, watched, records, k, dispatched);
      SizeExtend(records, k);
      if event.len > 0 {
        dispatched := dispatched + [DispatchOf(watchedIsDir, watched, event)];
      }
      i := i + EVENT_SIZE + event.len;
      k := k + 1;
      SizePrefix(records, k);
    }
    assert records[..k] == records;
    return true, dispatched;
  }

  /** One more record of the buffer adds its dispatch when it is named. */
  lemma DispatchesExtend(watchedIsDir: bool, watched: Path, rs: seq<Record>, k: nat, ds: seq<Dispatch>)
    requires k < |rs|
    requires |ds| == |Named(rs[..k])|
    requires forall j :: 0 <= j < |ds| ==> ds[j] == DispatchOf(watchedIsDir, watched, Named(rs[..k])[j])
    ensures var ds' := if rs[k].len > 0 then ds + [DispatchOf(watchedIsDir, watched, rs[k])] else ds;
      && |ds'| == |Named(rs[..k + 1])|
      && forall j :: 0 <= j < |ds'| ==> ds'[j] == DispatchOf(watchedIsDir, watched, Named(rs[..k + 1])[j])
  {
    assert rs[..k + 1][..k] == rs[..k];
  }

  /** A buffer of self events (no names) dispatches nothing yet keeps watching. */
  lemma {:induction false} NamelessBufferDispatchesNothing(rs: seq<Record>)
    requires forall j :: 0 <= j < |rs| ==> rs[j].len == 0
    ensures Named(rs) == []
  {
    if |rs| > 0 {
      NamelessBufferDispatchesNothing(rs[..|rs| - 1]);
    }
  }

  /** A readable condition that also carries HUP is not an exact match, so the
      buffer is still read. */
  lemma HangUpWithDataStillReads()
    ensures IO_IN | IO_HUP != IO_HUP && IO_IN | IO_HUP != IO_ERR
  {
  }

  // ---- construction and teardown ----

  /** Kernel and main-loop resources a monitor holds. */
  datatype Resources = Resources(fdOpen: bool, ioConnected: bool, watchAdded: bool)

  const NoResources := Resources(false, false, false)

  /** A constructed monitor: the watched path and whether a callback was given. */
  datatype Monitor = Monitor(path: Path, hasCallback: bool)

  /** The outcome of the constructor: the monitor or the exception, and the
      resources held afterwards. */
  datatype Built = Built(monitor: Result<Monitor>, held: Resources)

  /** `std::filesystem::absolute` against the process working directory. */
  function Absolute(cwd: Path, p: Path): (r: Path)
    ensures IsAbsolute(cwd) ==> IsAbsolute(r)
  {
    if IsAbsolute(p) then p else JoinPath(cwd, p)
  }

  /** The constructor as written: the IO channel is created and its handler
      connected before the watch is added, and nothing is released when
      adding the watch fails. */
  function Construct(path: Path, cwd: Path, initOk: bool, addWatchOk: bool, hasCallback: bool): (b: Built)
    ensures !initOk ==> b.monitor.Err? && b.held == NoResources
    ensures initOk && !addWatchOk ==> b.monitor.Err? && b.held.fdOpen && b.held.ioConnected
    ensures b.monitor.Ok? <==> initOk && addWatchOk
    ensures b.monitor.Ok? ==> b.monitor.value.path == path && b.held == Resources(true, true, true)
  {
    if !initOk then Built(Err("failed to initialize inotify"), NoResources)
    else
      var live := Resources(true, true, false);
      if !addWatchOk then
        Built(Err("Failed to add inotify watch on '" + Absolute(cwd, path) + "' (" + path + ")"), live)
      else Built(Ok(Monitor(path, hasCallback)), live.(watchAdded := true))
  }

  /** One teardown action of the destructor. */
  datatype Teardown = DisconnectIo | RemoveWatch | CloseFd

  /** The destructor's actions, in order. */
  const DestructorSteps: seq<Teardown> := [DisconnectIo, RemoveWatch, CloseFd]

  function Release(r: Resources, t: Teardown): Resources
  {
    match t
    case DisconnectIo => r.(ioConnected := false)
    case RemoveWatch => r.(watchAdded := false)
    case CloseFd => r.(fdOpen := false)
  }

  /** A teardown step is legal when it does not use a closed descriptor:
      removing the watch needs the descriptor open, since `inotify_rm_watch`
      fails with `EBADF` once the descriptor is closed (inotify_rm_watch(2)). */
  predicate Legal(r: Resources, t: Teardown)
  {
    t == RemoveWatch ==> r.fdOpen
  }

  /** Apply teardown steps, failing on the first illegal one. */
  function Teardowns(r: Resources, ts: seq<Teardown>): Option<Resources>
    decreases |ts|
  {
    if |ts| == 0 then Some(r)
    else if !Legal(r, ts[0]) then None
    else Teardowns(Release(r, ts[0]), ts[1..])
  }

  /** The destructor of a successfully constructed monitor releases everything,
      and the IO handler is gone before the descriptor it reads is closed. */
  lemma DestructorReleasesAll(path: Path, cwd: Path, hasCallback: bool)
    ensures var b := Construct(path, cwd, true, true, hasCallback);
      Teardowns(b.held, DestructorSteps) == Some(NoResources)
    ensures DestructorSteps[0] == DisconnectIo && DestructorSteps[|DestructorSteps| - 1] == CloseFd
  {
  }

  /** Closing first would make the watch removal act on a closed descriptor. */
  lemma CloseFirstIsIllegal()
    ensures Teardowns(Resources(true, true, true), [CloseFd, RemoveWatch]) == None
  {
  }

  /** The constructor with the release the failure path is missing: on any
      exception no resource is left held. */
  function ConstructReleasing(path: Path, cwd: Path, initOk: bool, addWatchOk: bool, hasCallback: bool): (b: Built)
    ensures b.monitor.Err? ==> b.held == NoResources
    ensures b.monitor.Ok? <==> initOk && addWatchOk
    ensures b.monitor == Construct(path, cwd, initOk, addWatchOk, hasCallback).monitor
  {
    var b := Construct(path, cwd, initOk, addWatchOk, hasCallback);
    if b.monitor.Err? then
      match Teardowns(b.held, [DisconnectIo, CloseFd])
      case Some(r) => Built(b.monitor, r)
      case None => Built(b.monitor, NoResources)
    else b
  }

  /** As written, a failed `inotify_add_watch` leaves the descriptor open and the
      IO handler connected with no object left to release them. */
  lemma AddWatchFailureLeaks(path: Path, cwd: Path, hasCallback: bool)
    ensures var b := Construct(path, cwd, true, false, hasCallback);
      b.monitor.Err? && b.held != NoResources
    ensures ConstructReleasing(path, cwd, true, false, hasCallback).held == NoResources
  {
  }
}
