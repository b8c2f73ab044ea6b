/** The in-memory directory mirror `vfs::dir` (src/vfs/vfs-dir.cxx): a list of
    file entries, a buffer of created names and a buffer of changed entries,
    kept in step with the filesystem by the monitor's events.

    The filesystem is an oracle: the set of names that currently exist in the
    directory (which also decides whether `vfs::file::update` can re-stat an
    entry), and the set of names that `std::filesystem::equivalent` reports as
    the directory itself. Every operation returns the new state and the
    notices (`run_event<k>` emissions) it made, in order. */
module VfsDir {
  import opened Wrappers
  import opened Paths

  /** A `vfs::file` entry: its object identity and its name. */
  datatype File = File(id: nat, name: string)

  /** The five notice kinds of src/vfs/vfs-dir.hxx; `file_listed` carries the
      cancelled flag and the others a possibly-null file handle. */
  datatype Notice =
    | FileCreated(created: File)
    | FileChanged(changed: Option<File>)
    | FileDeleted(deleted: Option<File>)
    | FileListed(cancelled: bool)
    | ThumbnailLoaded(loaded: File)

  /** The filesystem as the mirror observes it. */
  datatype Fs = Fs(present: set<string>, selfNames: set<string>)

  datatype Dir = Dir(
    path: Path,
    files: seq<File>,            // files_
    createdFiles: seq<string>,   // created_files_: pending created names
    changedFiles: seq<File>,     // changed_files_: pending changed entries
    fileListed: bool,            // file_listed_
    loadComplete: bool,          // load_complete_
    avoidChanges: bool,          // avoid_changes_
    hiddenCount: nat,            // xhidden_count_
    hasTask: bool,               // task_ != nullptr
    nextId: nat)                 // identity for the next vfs::file::create

  datatype Out = Out(dir: Dir, notices: seq<Notice>)

  predicate NamesDistinct(files: seq<File>)
  {
    forall i, j :: 0 <= i < j < |files| ==> files[i].name != files[j].name
  }

  /** No two entries share a name, and every entry's identity predates `nextId`. */
  predicate WellFormed(d: Dir)
  {
    NamesDistinct(d.files) && forall i :: 0 <= i < |d.files| ==> d.files[i].id < d.nextId
  }

  /** Both pending buffers are empty. */
  predicate Quiet(d: Dir)
  {
    d.createdFiles == [] && d.changedFiles == []
  }

  /** `d'` differs from `d` at most in the entry list and the identity counter. */
  predicate ListOnly(d: Dir, d': Dir)
  {
    d' == d.(files := d'.files, nextId := d'.nextId) && d.nextId <= d'.nextId
  }

  /** Some entry carries `name`. */
  predicate Listed(files: seq<File>, name: string)
  {
    exists i :: 0 <= i < |files| && files[i].name == name
  }

  /** The mirror agrees with the filesystem about `name`. */
  predicate Agrees(d: Dir, fs: Fs, name: string)
  {
    Listed(d.files, name) <==> name in fs.present
  }

  /** The test of `find_file`: the same object as the handle, or the same name. */
  predicate Matches(f: File, name: string, handle: Option<File>)
  {
    (handle.Some? && handle.value == f) || f.name == name
  }

  /** `find_file`: the first entry that matches, or null. */
  function FindFile(files: seq<File>, name: string, handle: Option<File>): (r: Option<File>)
    ensures r.Some? ==> exists i :: (0 <= i < |files| && files[i] == r.value &&
      Matches(files[i], name, handle) && forall j :: 0 <= j < i ==> !Matches(files[j], name, handle))
    ensures r.None? ==> forall i :: 0 <= i < |files| ==> !Matches(files[i], name, handle)
  {
    if |files| == 0 then None
    else if Matches(files[0], name, handle) then Some(files[0])
    else
      var r := FindFile(files[1..], name, handle);
      if r.Some? then
        var i :| 0 <= i < |files[1..]| && files[1..][i] == r.value &&
          Matches(files[1..][i], name, handle) &&
          forall j :: 0 <= j < i ==> !Matches(files[1..][j], name, handle);
        assert files[i + 1] == r.value;
        assert forall j :: 1 <= j < i + 1 ==> files[j] == files[1..][j - 1];
        r
      else r
  }

  /** Looking up by name alone finds an entry exactly when one has that name,
      and it has that name. */
  lemma FindByName(files: seq<File>, name: string)
    ensures FindFile(files, name, None).Some? <==> Listed(files, name)
    ensures FindFile(files, name, None).Some? ==> FindFile(files, name, None).value.name == name
  {
    if Listed(files, name) {
      var i :| 0 <= i < |files| && files[i].name == name;
      assert Matches(files[i], name, None);
    }
  }

  /** `ztd::remove`: drop every element equal to `f`, keeping the order of the rest. */
  function Without(s: seq<File>, f: File): (r: seq<File>)
    ensures forall x :: x in r <==> x in s && x != f
    ensures |r| <= |s|
  {
    if |s| == 0 then []
    else (if s[0] == f then [] else [s[0]]) + Without(s[1..], f)
  }

  lemma {:induction false} WithoutDistinct(s: seq<File>, f: File)
    ensures NamesDistinct(s) ==> NamesDistinct(Without(s, f))
  {
    if |s| > 0 {
      WithoutDistinct(s[1..], f);
      var t := Without(s[1..], f);
      if NamesDistinct(s) && s[0] != f {
        forall j | 0 <= j < |t|
          ensures t[j].name != s[0].name
        {
          assert t[j] in s[1..];
          var k :| 0 <= k < |s[1..]| && s[1..][k] == t[j];
          assert s[k + 1] == t[j];
        }
        assert Without(s, f) == [s[0]] + t;
      }
    }
  }

  lemma WithoutWellFormed(d: Dir, f: File)
    ensures WellFormed(d) ==> WellFormed(d.(files := Without(d.files, f)))
  {
    WithoutDistinct(d.files, f);
    var w := Without(d.files, f);
    if WellFormed(d) {
      forall i | 0 <= i < |w|
        ensures w[i].id < d.nextId
      {
        assert w[i] in d.files;
      }
    }
  }

  /** An entry of a well-formed mirror is the only one with its name. */
  lemma OnlyOneNamed(d: Dir, f: File)
    requires WellFormed(d) && f in d.files
    ensures !Listed(Without(d.files, f), f.name)
  {
    var w := Without(d.files, f);
    forall i | 0 <= i < |w|
      ensures w[i].name != f.name
    {
      assert w[i] in d.files;
    }
  }

  /** The result of `update_file_info`: whether the entry is still valid, and
      the state and notices afterwards. */
  datatype Checked = Checked(valid: bool, dir: Dir, notices: seq<Notice>)

  /** `update_file_info`: re-stat the entry; on failure remove it from the list
      and announce its deletion, if it was listed. */
  function UpdateFileInfo(d: Dir, fs: Fs, f: File): (c: Checked)
    ensures c.valid <==> f.name in fs.present
    ensures ListOnly(d, c.dir) && c.dir.nextId == d.nextId
    ensures c.valid ==> c.dir == d && c.notices == []
    ensures !c.valid && f in d.files ==>
      c.dir.files == Without(d.files, f) && c.notices == [FileDeleted(Some(f))]
    ensures !c.valid && f !in d.files ==> c.dir == d && c.notices == []
    ensures WellFormed(d) ==> WellFormed(c.dir)
  {
    if f.name in fs.present then Checked(true, d, [])
    else if f in d.files then
      WithoutWellFormed(d, f);
      Checked(false, d.(files := Without(d.files, f)), [FileDeleted(Some(f))])
    else Checked(false, d, [])
  }

  /** One element of `update_changed_files`. */
  function ChangedStep(d: Dir, fs: Fs, f: File): (r: Out)
    ensures ListOnly(d, r.dir)
    ensures WellFormed(d) ==> WellFormed(r.dir)
    ensures r.notices == (if f.name in fs.present then [FileChanged(Some(f))]
                          else if f in d.files then [FileDeleted(Some(f))] else [])
    ensures f.name in fs.present ==> r.dir == d
  {
    var c := UpdateFileInfo(d, fs, f);
    Out(c.dir, c.notices + (if c.valid then [FileChanged(Some(f))] else []))
  }

  /** Every notice is a change or deletion of an entry of `buf`. */
  predicate AboutBuffer(notices: seq<Notice>, buf: seq<File>)
  {
    forall k :: 0 <= k < |notices| ==>
      (notices[k].FileChanged? && notices[k].changed.Some? && notices[k].changed.value in buf) ||
      (notices[k].FileDeleted? && notices[k].deleted.Some? && notices[k].deleted.value in buf)
  }

  function DrainChanged(d: Dir, fs: Fs, buf: seq<File>): (r: Out)
    ensures ListOnly(d, r.dir)
    ensures WellFormed(d) ==> WellFormed(r.dir)
    ensures AboutBuffer(r.notices, buf)
    ensures |r.notices| <= |buf|
    decreases |buf|
  {
    if |buf| == 0 then Out(d, [])
    else
      var o := ChangedStep(d, fs, buf[0]);
      var rest := DrainChanged(o.dir, fs, buf[1..]);
      AboutBufferJoin(o.notices, rest.notices, buf);
      Out(rest.dir, o.notices + rest.notices)
  }

  /** Notices about the head of a buffer followed by notices about its tail
      are about the buffer. */
  lemma AboutBufferJoin(head: seq<Notice>, tail: seq<Notice>, buf: seq<File>)
    requires |buf| > 0 && AboutBuffer(tail, buf[1..])
    requires head == [] || head == [FileChanged(Some(buf[0]))] || head == [FileDeleted(Some(buf[0]))]
    ensures AboutBuffer(head + tail, buf)
  {
    assert forall x :: x in buf[1..] ==> x in buf;
  }

  /** When every buffered entry is still present, draining changes nothing and
      announces a change of each entry, in buffer order. */
  lemma {:induction false} DrainChangedAllPresent(d: Dir, fs: Fs, buf: seq<File>)
    requires forall x :: x in buf ==> x.name in fs.present
    ensures DrainChanged(d, fs, buf).dir == d
    ensures |DrainChanged(d, fs, buf).notices| == |buf|
    ensures forall i :: 0 <= i < |buf| ==> DrainChanged(d, fs, buf).notices[i] == FileChanged(Some(buf[i]))
    decreases |buf|
  {
    if |buf| > 0 {
      assert forall x :: x in buf[1..] ==> x in buf;
      DrainChangedPresentHead(d, fs, buf);
      DrainChangedAllPresent(d, fs, buf[1..]);
      ChangedCons(DrainChanged(d, fs, buf[1..]).notices, buf);
    }
  }

  /** A present head is announced as changed and leaves the mirror as it was. */
  lemma DrainChangedPresentHead(d: Dir, fs: Fs, buf: seq<File>)
    requires |buf| > 0 && buf[0].name in fs.present
    ensures DrainChanged(d, fs, buf) ==
      Out(DrainChanged(d, fs, buf[1..]).dir, [FileChanged(Some(buf[0]))] + DrainChanged(d, fs, buf[1..]).notices)
  {
    assert ChangedStep(d, fs, buf[0]) == Out(d, [FileChanged(Some(buf[0]))]);
  }

  /** A change of the head followed by a change of each later entry is a
      change of each entry, in order. */
  lemma ChangedCons(ns: seq<Notice>, buf: seq<File>)
    requires |buf| > 0 && |ns| == |buf| - 1
    requires forall i :: 0 <= i < |ns| ==> ns[i] == FileChanged(Some(buf[1..][i]))
    ensures forall i :: 0 <= i < |buf| ==> ([FileChanged(Some(buf[0]))] + ns)[i] == FileChanged(Some(buf[i]))
  {
  }

  /** `update_changed_files`: re-stat every pending changed entry, announcing a
      change for each that is still valid, then empty the buffer. */
  function UpdateChangedFiles(d: Dir, fs: Fs): (r: Out)
    ensures r.dir.changedFiles == []
    ensures ListOnly(d.(changedFiles := []), r.dir)
    ensures WellFormed(d) ==> WellFormed(r.dir)
    ensures AboutBuffer(r.notices, d.changedFiles)
    ensures d.changedFiles == [] ==> r == Out(d, [])
  {
    if |d.changedFiles| == 0 then Out(d, [])
    else
      var o := DrainChanged(d, fs, d.changedFiles);
      Out(o.dir.(changedFiles := []), o.notices)
  }

  /** One element of `update_created_files`. */
  function CreatedStep(d: Dir, fs: Fs, name: string): (r: Out)
    ensures ListOnly(d, r.dir)
    ensures WellFormed(d) ==> WellFormed(r.dir)
    ensures !Listed(d.files, name) && name in fs.present ==>
      r.dir.files == d.files + [File(d.nextId, name)] && r.notices == [FileCreated(File(d.nextId, name))]
    ensures !Listed(d.files, name) && name !in fs.present ==> r == Out(d, [])
    ensures Listed(d.files, name) && name in fs.present ==>
      r.dir == d && r.notices == [FileChanged(FindFile(d.files, name, None))]
    ensures Listed(d.files, name) && name !in fs.present ==>
      r.dir.files == Without(d.files, FindFile(d.files, name, None).value) &&
      r.notices == [FileDeleted(FindFile(d.files, name, None))]
  {
    FindByName(d.files, name);
    match FindFile(d.files, name, None)
    case None =>
      if name in fs.present then
        var f := File(d.nextId, name);
        var r := Out(d.(files := d.files + [f], nextId := d.nextId + 1), [FileCreated(f)]);
        assert r.dir.files[|d.files|] == f;
        r
      else Out(d, [])
    case Some(found) =>
      var c := UpdateFileInfo(d, fs, found);
      Out(c.dir, c.notices + (if c.valid then [FileChanged(Some(found))] else []))
  }

  /** After settling a created name, the mirror agrees with the filesystem about it. */
  lemma CreatedStepAgrees(d: Dir, fs: Fs, name: string)
    requires WellFormed(d)
    ensures Agrees(CreatedStep(d, fs, name).dir, fs, name)
  {
    FindByName(d.files, name);
    var r := CreatedStep(d, fs, name);
    if !Listed(d.files, name) && name in fs.present {
      assert r.dir.files[|d.files|].name == name;
    } else if Listed(d.files, name) && name !in fs.present {
      OnlyOneNamed(d, FindFile(d.files, name, None).value);
    }
  }

  /** Every notice is a creation, change or deletion of an entry named in `buf`. */
  predicate AboutNames(notices: seq<Notice>, buf: seq<string>)
  {
    forall k :: 0 <= k < |notices| ==>
      (notices[k].FileCreated? && notices[k].created.name in buf) ||
      (notices[k].FileChanged? && notices[k].changed.Some? && notices[k].changed.value.name in buf) ||
      (notices[k].FileDeleted? && notices[k].deleted.Some? && notices[k].deleted.value.name in buf)
  }

  function DrainCreated(d: Dir, fs: Fs, buf: seq<string>): (r: Out)
    ensures ListOnly(d, r.dir)
    ensures WellFormed(d) ==> WellFormed(r.dir)
    decreases |buf|
  {
    if |buf| == 0 then Out(d, [])
    else
      var o := CreatedStep(d, fs, buf[0]);
      var rest := DrainCreated(o.dir, fs, buf[1..]);
      Out(rest.dir, o.notices + rest.notices)
  }

  /** Draining created names emits at most one notice per name, each the
      creation, change or deletion of an entry of that name. */
  lemma {:induction false} DrainCreatedAboutNames(d: Dir, fs: Fs, buf: seq<string>)
    ensures AboutNames(DrainCreated(d, fs, buf).notices, buf)
    ensures |DrainCreated(d, fs, buf).notices| <= |buf|
    decreases |buf|
  {
    if |buf| > 0 {
      FindByName(d.files, buf[0]);
      var o := CreatedStep(d, fs, buf[0]);
      DrainCreatedAboutNames(o.dir, fs, buf[1..]);
      assert forall x :: x in buf[1..] ==> x in buf;
    }
  }

  /** `update_created_files`: settle every pending created name (append and
      announce it, drop it, or re-stat the entry already listed under it),
      then empty the buffer. */
  function UpdateCreatedFiles(d: Dir, fs: Fs): (r: Out)
    ensures r.dir.createdFiles == []
    ensures ListOnly(d.(createdFiles := []), r.dir)
    ensures WellFormed(d) ==> WellFormed(r.dir)
    ensures d.createdFiles == [] ==> r == Out(d, [])
  {
    if |d.createdFiles| == 0 then Out(d, [])
    else
      var o := DrainCreated(d, fs, d.createdFiles);
      Out(o.dir.(createdFiles := []), o.notices)
  }

  /** One step of the drain: settling the name at `k` first, then the rest. */
  lemma DrainCreatedStep(d: Dir, fs: Fs, buf: seq<string>, k: nat)
    requires k < |buf|
    ensures DrainCreated(d, fs, buf[k..]).dir == DrainCreated(CreatedStep(d, fs, buf[k]).dir, fs, buf[k + 1..]).dir
    ensures DrainCreated(d, fs, buf[k..]).notices
         == CreatedStep(d, fs, buf[k]).notices + DrainCreated(CreatedStep(d, fs, buf[k]).dir, fs, buf[k + 1..]).notices
  {
    assert buf[k..][0] == buf[k];
    assert buf[k..][1..] == buf[k + 1..];
  }

  /** The loop of `update_created_files`, computing the same result as the fold. */
  method UpdateCreatedFilesLoop(d: Dir, fs: Fs) returns (r: Out)
    ensures r == UpdateCreatedFiles(d, fs)
  {
    if |d.createdFiles| == 0 {
      return Out(d, []);
    }
    var buf := d.createdFiles;
    var cur := d;
    var notices: seq<Notice> := [];
    var k := 0;
    while k < |buf|
      invariant 0 <= k <= |buf|
      invariant DrainCreated(cur, fs, buf[k..]).dir == DrainCreated(d, fs, buf).dir
      invariant notices + DrainCreated(cur, fs, buf[k..]).notices == DrainCreated(d, fs, buf).notices
    {
      DrainCreatedAdvance(d, fs, buf, k, cur, notices);
      var o := CreatedStep(cur, fs, buf[k]);
      notices := notices + o.notices;
      cur := o.dir;
      k := k + 1;
    }
    assert buf[k..] == [];
    return Out(cur.(createdFiles := []), notices);
  }

  /** The loop invariant of `UpdateCreatedFilesLoop` survives one step. */
  lemma DrainCreatedAdvance(d: Dir, fs: Fs, buf: seq<string>, k: nat, cur: Dir, notices: seq<Notice>)
    requires k < |buf|
    requires DrainCreated(cur, fs, buf[k..]).dir == DrainCreated(d, fs, buf).dir
    requires notices + DrainCreated(cur, fs, buf[k..]).notices == DrainCreated(d, fs, buf).notices
    ensures var o := CreatedStep(cur, fs, buf[k]);
      DrainCreated(o.dir, fs, buf[k + 1..]).dir == DrainCreated(d, fs, buf).dir &&
      (notices + o.notices) + DrainCreated(o.dir, fs, buf[k + 1..]).notices == DrainCreated(d, fs, buf).notices
  {
    var o := CreatedStep(cur, fs, buf[k]);
    DrainCreatedStep(cur, fs, buf, k);
    var rest := DrainCreated(o.dir, fs, buf[k + 1..]);
    assert (notices + o.notices) + rest.notices == notices + (o.notices + rest.notices);
  }

  /** Push onto the changed buffer and run both drains, as every non-trivial
      `emit_*` call does. */
  function Settle(d: Dir, fs: Fs): (r: Out)
    ensures Quiet(r.dir)
    ensures WellFormed(d) ==> WellFormed(r.dir)
  {
    var o1 := UpdateChangedFiles(d, fs);
    var o2 := UpdateCreatedFiles(o1.dir, fs);
    Out(o2.dir, o1.notices + o2.notices)
  }

  /** `emit_file_created`: ignored for the directory itself; otherwise the
      name is buffered and both buffers drained. `avoid_changes` never
      suppresses a creation. */
  function EmitCreated(d: Dir, fs: Fs, name: string): (r: Out)
    ensures name in fs.selfNames ==> r == Out(d, [])
    ensures name !in fs.selfNames ==> Quiet(r.dir)
    ensures Quiet(d) ==> Quiet(r.dir)
    ensures WellFormed(d) ==> WellFormed(r.dir)
  {
    if name in fs.selfNames then Out(d, [])
    else Settle(d.(createdFiles := d.createdFiles + [name]), fs)
  }

  /** `emit_file_deleted`: for the directory itself the whole list is cleared
      and a null deletion announced; otherwise a listed entry is re-checked
      through the changed buffer. */
  function EmitDeleted(d: Dir, fs: Fs, name: string, handle: Option<File>): (r: Out)
    ensures name in fs.selfNames ==> r == Out(d.(files := []), [FileDeleted(None)])
    ensures Quiet(d) ==> Quiet(r.dir)
    ensures WellFormed(d) ==> WellFormed(r.dir)
  {
    if name in fs.selfNames then Out(d.(files := []), [FileDeleted(None)])
    else match FindFile(d.files, name, handle)
      case None => Out(d, [])
      case Some(found) =>
        if found in d.changedFiles then Out(d, [])
        else Settle(d.(changedFiles := d.changedFiles + [found]), fs)
  }

  /** `emit_file_changed`: suppressed when not forced and `avoid_changes` is
      set; a null change for the directory itself; otherwise a listed entry
      is re-checked, and an unforced change that re-stats successfully is
      announced once more after the drains. */
  function EmitChanged(d: Dir, fs: Fs, name: string, handle: Option<File>, force: bool): (r: Out)
    ensures !force && d.avoidChanges ==> r == Out(d, [])
    ensures (force || !d.avoidChanges) && name in fs.selfNames ==> r == Out(d, [FileChanged(None)])
    ensures Quiet(d) ==> Quiet(r.dir)
    ensures WellFormed(d) ==> WellFormed(r.dir)
  {
    if !force && d.avoidChanges then Out(d, [])
    else if name in fs.selfNames then Out(d, [FileChanged(None)])
    else match FindFile(d.files, name, handle)
      case None => Out(d, [])
      case Some(found) =>
        if found in d.changedFiles then Out(d, [])
        else if force then Settle(d.(changedFiles := d.changedFiles + [found]), fs)
        else
          var c := UpdateFileInfo(d, fs, found);
          if c.valid then
            var o := Settle(c.dir.(changedFiles := c.dir.changedFiles + [found]), fs);
            Out(o.dir, o.notices + [FileChanged(Some(found))])
          else Out(c.dir, c.notices)
  }

  /** The event classes `vfs::monitor` reports to a mirror. That monitor is
      not part of this model, so its events are an unconstrained input. */
  datatype MonitorEvent = EventCreated | EventDeleted | EventChanged | EventOther

  /** One report from `vfs::monitor`: the event class and the path it is about. */
  datatype MonitorReport = MonitorReport(event: MonitorEvent, path: Path)

  /** `on_monitor_event`: route a monitor event by the basename of its path. */
  function OnMonitorEvent(d: Dir, fs: Fs, event: MonitorEvent, path: Path): (r: Out)
    ensures event == EventOther ==> r == Out(d, [])
    ensures Quiet(d) ==> Quiet(r.dir)
    ensures WellFormed(d) ==> WellFormed(r.dir)
  {
    var name := Basename(path);
    match event
    case EventCreated => EmitCreated(d, fs, name)
    case EventDeleted => EmitDeleted(d, fs, name, None)
    case EventChanged => EmitChanged(d, fs, name, None, false)
    case EventOther => Out(d, [])
  }

  /** Feed any sequence of monitor reports to the mirror, in order. */
  function OnMonitorEvents(d: Dir, fs: Fs, ds: seq<MonitorReport>): (r: Out)
    ensures Quiet(d) ==> Quiet(r.dir)
    ensures WellFormed(d) ==> WellFormed(r.dir)
    decreases |ds|
  {
    if |ds| == 0 then Out(d, [])
    else
      var o := OnMonitorEvent(d, fs, ds[0].event, ds[0].path);
      var rest := OnMonitorEvents(o.dir, fs, ds[1..]);
      Out(rest.dir, o.notices + rest.notices)
  }

  /** The process's working directory as `std::filesystem::equivalent` sees
      the bare name an `emit_file_*` handler receives: the names that exist
      there, and whether the mirror's own path still exists. */
  datatype WorkingDir = WorkingDir(existing: set<string>, dirExists: bool)

  /** Whether `std::filesystem::equivalent(filename, path_)` throws for a bare
      name: it reports an error when either path does not exist, and the
      name resolves against the working directory, not the mirror. */
  predicate EquivalentThrows(w: WorkingDir, name: string)
  {
    name !in w.existing || !w.dirExists
  }

  /** Whether a monitor report reaches the `equivalent` test as written: every
      report but an unforced change while `avoid_changes` is set, and a class
      the handler ignores. */
  predicate ReachesEquivalent(d: Dir, event: MonitorEvent)
  {
    event == EventCreated || event == EventDeleted || (event == EventChanged && !d.avoidChanges)
  }

  /** `on_monitor_event` as written: the `emit_file_*` handlers are `noexcept`
      yet call the throwing `equivalent` on the bare name, so a report whose
      name does not exist in the working directory, or any report once the
      directory itself is gone, ends the process (`None`). Every other report
      has the effect of `OnMonitorEvent`. */
  function OnMonitorEventAsWritten(d: Dir, fs: Fs, w: WorkingDir, event: MonitorEvent, path: Path): (r: Option<Out>)
    ensures r.None? <==> ReachesEquivalent(d, event) && EquivalentThrows(w, Basename(path))
    ensures r.Some? ==> r.value == OnMonitorEvent(d, fs, event, path)
  {
    var name := Basename(path);
    match event
    case EventOther => Some(Out(d, []))
    case EventChanged =>
      if d.avoidChanges then Some(Out(d, []))
      else if EquivalentThrows(w, name) then None
      else Some(EmitChanged(d, fs, name, None, false))
    case EventCreated =>
      if EquivalentThrows(w, name) then None else Some(EmitCreated(d, fs, name))
    case EventDeleted =>
      if EquivalentThrows(w, name) then None else Some(EmitDeleted(d, fs, name, None))
  }

  /** A sequence of monitor reports as written: the first report that throws
      ends the process; until then each report has its corrected effect. */
  function OnMonitorEventsAsWritten(d: Dir, fs: Fs, w: WorkingDir, ds: seq<MonitorReport>): (r: Option<Out>)
    ensures r.Some? ==> r.value == OnMonitorEvents(d, fs, ds)
    ensures w.dirExists && (forall i :: 0 <= i < |ds| ==> Basename(ds[i].path) in w.existing) ==> r.Some?
    ensures |ds| > 0 && ReachesEquivalent(d, ds[0].event) && EquivalentThrows(w, Basename(ds[0].path)) ==> r.None?
    decreases |ds|
  {
    if |ds| == 0 then Some(Out(d, []))
    else
      match OnMonitorEventAsWritten(d, fs, w, ds[0].event, ds[0].path)
      case None => None
      case Some(o) =>
        assert forall i :: 0 <= i < |ds[1..]| ==> ds[1..][i] == ds[i + 1];
        match OnMonitorEventsAsWritten(o.dir, fs, w, ds[1..])
        case None => None
        case Some(rest) => Some(Out(rest.dir, o.notices + rest.notices))
  }

  /** The counterexample: a file created in a watched directory while the
      process runs in a directory without that name ends the process, and
      once the watched directory is deleted every report that reaches the
      test does, including the deletion of the directory itself that the
      handler means to announce. */
  lemma MonitorReportTerminates(d: Dir, fs: Fs, path: Path, event: MonitorEvent, name: string)
    requires ReachesEquivalent(d, event)
    ensures OnMonitorEventAsWritten(d, fs, WorkingDir({}, true), EventCreated, path) == None
    ensures OnMonitorEventAsWritten(d, fs, WorkingDir({name}, false), event, path) == None
  {
  }

  /** `reload_mime_type`: every listed entry is announced as changed, in list
      order; the list itself is unchanged. */
  function ReloadMimeType(d: Dir): (r: Out)
    ensures r.dir == d
    ensures |r.notices| == |d.files|
    ensures forall k :: 0 <= k < |d.files| ==> r.notices[k] == FileChanged(Some(d.files[k]))
  {
    Out(d, ChangeNotices(d.files))
  }

  function ChangeNotices(files: seq<File>): (r: seq<Notice>)
    ensures |r| == |files|
    ensures forall k :: 0 <= k < |files| ==> r[k] == FileChanged(Some(files[k]))
  {
    if |files| == 0 then [] else [FileChanged(Some(files[0]))] + ChangeNotices(files[1..])
  }

  /** `emit_thumbnail_loaded`: announce the entry found for the handle. */
  function EmitThumbnailLoaded(d: Dir, f: File): (r: Out)
    ensures r.dir == d && |r.notices| <= 1
    ensures r.notices == [] <==> FindFile(d.files, f.name, Some(f)).None?
  {
    match FindFile(d.files, f.name, Some(f))
    case None => Out(d, [])
    case Some(found) => Out(d, [ThumbnailLoaded(found)])
  }

  // ---- the mirror stays in step with the filesystem ----

  /** Settling a single changed entry from quiet buffers is one changed step. */
  lemma SettleChanged(d: Dir, fs: Fs, f: File)
    requires Quiet(d)
    ensures Settle(d.(changedFiles := [f]), fs) == ChangedStep(d, fs, f)
  {
    var d1 := d.(changedFiles := [f]);
    DrainChangedOne(d1, fs, f);
    ChangedStepIgnoresBuffer(d, fs, f, [f]);
    SettleNothingCreated(d1, fs);
  }

  lemma DrainChangedOne(d: Dir, fs: Fs, f: File)
    ensures DrainChanged(d, fs, [f]) == ChangedStep(d, fs, f)
  {
    var s1 := ChangedStep(d, fs, f);
    assert [f][1..] == [];
    assert DrainChanged(s1.dir, fs, []) == Out(s1.dir, []);
    assert s1.notices + [] == s1.notices;
  }

  /** A changed step neither reads nor writes the changed buffer. */
  lemma ChangedStepIgnoresBuffer(d: Dir, fs: Fs, f: File, buf: seq<File>)
    ensures ChangedStep(d.(changedFiles := buf), fs, f).dir == ChangedStep(d, fs, f).dir.(changedFiles := buf)
    ensures ChangedStep(d.(changedFiles := buf), fs, f).notices == ChangedStep(d, fs, f).notices
  {
  }

  /** With nothing created pending, settling is draining the changed buffer. */
  lemma SettleNothingCreated(d: Dir, fs: Fs)
    requires d.createdFiles == []
    ensures Settle(d, fs) == UpdateChangedFiles(d, fs)
  {
    var o1 := UpdateChangedFiles(d, fs);
    assert UpdateCreatedFiles(o1.dir, fs) == Out(o1.dir, []);
    assert o1.notices + [] == o1.notices;
  }

  /** Settling a single created name from quiet buffers is one created step. */
  lemma SettleCreated(d: Dir, fs: Fs, name: string)
    requires Quiet(d)
    ensures Settle(d.(createdFiles := [name]), fs) == CreatedStep(d, fs, name)
  {
    var d1 := d.(createdFiles := [name]);
    assert UpdateChangedFiles(d1, fs) == Out(d1, []);
    var s1 := CreatedStep(d1, fs, name);
    assert [name][1..] == [];
    assert DrainCreated(s1.dir, fs, []) == Out(s1.dir, []);
    assert DrainCreated(d1, fs, [name]) == s1;
    FindByName(d.files, name);
    var s := CreatedStep(d, fs, name);
    assert s1.dir.(createdFiles := []) == s.dir;
  }

  /** A creation event settles exactly the created name. */
  lemma EmitCreatedIsStep(d: Dir, fs: Fs, name: string)
    requires Quiet(d) && name !in fs.selfNames
    ensures EmitCreated(d, fs, name) == CreatedStep(d, fs, name)
  {
    assert d.createdFiles + [name] == [name];
    SettleCreated(d, fs, name);
  }

  /** A creation event leaves the mirror agreeing with the filesystem about the
      name, without duplicating it. */
  lemma EmitCreatedAgrees(d: Dir, fs: Fs, name: string)
    requires WellFormed(d) && Quiet(d)
    requires name !in fs.selfNames
    ensures Agrees(EmitCreated(d, fs, name).dir, fs, name)
    ensures !Listed(d.files, name) && name in fs.present ==>
      EmitCreated(d, fs, name).notices == [FileCreated(File(d.nextId, name))]
  {
    EmitCreatedIsStep(d, fs, name);
    CreatedStepAgrees(d, fs, name);
  }

  /** A deletion event for a listed name is one changed step for its entry. */
  lemma EmitDeletedIsStep(d: Dir, fs: Fs, name: string)
    requires Quiet(d) && name !in fs.selfNames && Listed(d.files, name)
    ensures FindFile(d.files, name, None).Some?
    ensures EmitDeleted(d, fs, name, None) == ChangedStep(d, fs, FindFile(d.files, name, None).value)
  {
    FindByName(d.files, name);
    var f := FindFile(d.files, name, None).value;
    assert d.changedFiles + [f] == [f];
    SettleChanged(d, fs, f);
  }

  /** A deletion event for a listed name re-stats the entry: it is announced as
      deleted and removed if gone, or as changed if it is still there. */
  lemma EmitDeletedAgrees(d: Dir, fs: Fs, name: string)
    requires WellFormed(d) && Quiet(d)
    requires name !in fs.selfNames && Listed(d.files, name)
    ensures var f := FindFile(d.files, name, None);
      && Agrees(EmitDeleted(d, fs, name, None).dir, fs, name)
      && EmitDeleted(d, fs, name, None).notices ==
           (if name in fs.present then [FileChanged(f)] else [FileDeleted(f)])
  {
    EmitDeletedIsStep(d, fs, name);
    FindByName(d.files, name);
    var f := FindFile(d.files, name, None).value;
    assert f in d.files;
    if name !in fs.present {
      OnlyOneNamed(d, f);
    }
  }

  /** An unforced change of an entry that still exists is announced twice:
      once by the drain and once more after it. */
  lemma UnforcedChangeAnnouncedTwice(d: Dir, fs: Fs, name: string)
    requires WellFormed(d) && Quiet(d) && !d.avoidChanges
    requires name !in fs.selfNames && Listed(d.files, name) && name in fs.present
    ensures var f := FindFile(d.files, name, None);
      EmitChanged(d, fs, name, None, false) == Out(d, [FileChanged(f), FileChanged(f)])
  {
    FindByName(d.files, name);
    var f := FindFile(d.files, name, None).value;
    assert d.changedFiles + [f] == [f];
    SettleChanged(d, fs, f);
  }

  /** An unforced change of an entry that no longer exists removes it and
      announces exactly one deletion. */
  lemma ChangeOfVanishedFileDeletes(d: Dir, fs: Fs, name: string)
    requires WellFormed(d) && Quiet(d) && !d.avoidChanges
    requires name !in fs.selfNames && Listed(d.files, name) && name !in fs.present
    ensures var f := FindFile(d.files, name, None);
      && EmitChanged(d, fs, name, None, false).notices == [FileDeleted(f)]
      && !Listed(EmitChanged(d, fs, name, None, false).dir.files, name)
  {
    FindByName(d.files, name);
    var f := FindFile(d.files, name, None).value;
    OnlyOneNamed(d, f);
  }

  /** Creating a name and then deleting it again, as the events arrive, puts the
      list back as it was and announces the creation and then the deletion. */
  lemma CreateThenDelete(d: Dir, fs: Fs, fs2: Fs, name: string)
    requires WellFormed(d) && Quiet(d)
    requires name !in fs.selfNames && name !in fs2.selfNames
    requires !Listed(d.files, name) && name in fs.present && name !in fs2.present
    ensures var o1 := EmitCreated(d, fs, name);
      var o2 := EmitDeleted(o1.dir, fs2, name, None);
      && o2.dir.files == d.files
      && o1.notices + o2.notices == [FileCreated(File(d.nextId, name)), FileDeleted(Some(File(d.nextId, name)))]
  {
    var f := File(d.nextId, name);
    var d2 := d.(files := d.files + [f], nextId := d.nextId + 1);
    EmitCreatedIsStep(d, fs, name);
    assert EmitCreated(d, fs, name) == Out(d2, [FileCreated(f)]);
    DeleteAppended(d2, fs2, d.files, f);
  }

  /** Deleting the name of an entry appended under a new name drops exactly
      that entry and announces its deletion. */
  lemma DeleteAppended(d: Dir, fs: Fs, base: seq<File>, f: File)
    requires Quiet(d) && d.files == base + [f] && !Listed(base, f.name)
    requires f.name !in fs.selfNames && f.name !in fs.present
    ensures EmitDeleted(d, fs, f.name, None).dir.files == base
    ensures EmitDeleted(d, fs, f.name, None).notices == [FileDeleted(Some(f))]
  {
    assert d.files[|base|] == f;
    assert Listed(d.files, f.name);
    EmitDeletedIsStep(d, fs, f.name);
    AppendedFound(base, f);
    assert EmitDeleted(d, fs, f.name, None) == ChangedStep(d, fs, f);
    assert f !in base;
    WithoutAppended(base, f);
    VanishedStep(d, fs, f);
  }

  /** Re-reading a listed entry whose file is gone drops it and announces its
      deletion. */
  lemma VanishedStep(d: Dir, fs: Fs, f: File)
    requires f in d.files && f.name !in fs.present
    ensures ChangedStep(d, fs, f).dir.files == Without(d.files, f)
    ensures ChangedStep(d, fs, f).notices == [FileDeleted(Some(f))]
  {
  }

  /** An entry appended under a name no earlier entry has is what a lookup by
      that name finds. */
  lemma AppendedFound(files: seq<File>, f: File)
    requires !Listed(files, f.name)
    ensures FindFile(files + [f], f.name, None) == Some(f)
  {
    var s := files + [f];
    assert s[|files|] == f;
    FindByName(s, f.name);
    var g := FindFile(s, f.name, None).value;
    var i :| 0 <= i < |s| && s[i] == g && Matches(s[i], f.name, None);
    assert i == |files|;
  }

  /** Removing a just-appended entry that no earlier entry equals restores the list. */
  lemma {:induction false} WithoutAppended(s: seq<File>, f: File)
    requires f !in s
    ensures Without(s + [f], f) == s
  {
    if |s| == 0 {
      assert [f][1..] == [];
    } else {
      assert (s + [f])[1..] == s[1..] + [f];
      WithoutAppended(s[1..], f);
    }
  }

  /** A change notice while `avoid_changes` is set does nothing, but a creation
      still goes through. */
  lemma AvoidChangesSuppressesOnlyChanges(d: Dir, fs: Fs, name: string)
    requires WellFormed(d) && Quiet(d) && d.avoidChanges && IsName(name)
    requires name !in fs.selfNames && !Listed(d.files, name) && name in fs.present
    ensures OnMonitorEvent(d, fs, EventChanged, name) == Out(d, [])
    ensures EmitCreated(d, fs, name).notices == [FileCreated(File(d.nextId, name))]
  {
    EmitCreatedAgrees(d, fs, name);
    assert Basename(name) == name by {
      BasenameJoin("", name);
    }
  }

  /** A thumbnail notice for a listed handle announces that handle; for a stale
      handle whose name has been re-created it announces the new entry. */
  lemma ThumbnailForHandle(d: Dir, f: File)
    requires WellFormed(d)
    ensures f in d.files ==> EmitThumbnailLoaded(d, f).notices == [ThumbnailLoaded(f)]
  {
    if f in d.files {
      var r := FindFile(d.files, f.name, Some(f));
      var i :| 0 <= i < |d.files| && d.files[i] == f;
      assert Matches(d.files[i], f.name, Some(f));
      var j :| 0 <= j < |d.files| && d.files[j] == r.value && Matches(d.files[j], f.name, Some(f));
      assert d.files[j].name == d.files[i].name;
    }
  }

  lemma StaleThumbnailHandle()
    ensures var d := Dir("/d", [File(2, "a")], [], [], true, true, false, 0, false, 3);
      EmitThumbnailLoaded(d, File(1, "a")).notices == [ThumbnailLoaded(File(2, "a"))]
  {
  }
}
