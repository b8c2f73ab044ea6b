/** Loading a directory: the `.hidden` list (`get_hidden_files`), the listing
    loop (`load_thread`), the constructor that runs the load task to
    completion, and the path-keyed cache of directories (`vfs::dir::create`),
    all in src/vfs/vfs-dir.cxx. */
module DirLoad {
  import opened Wrappers
  import opened Strings
  import opened Paths
  import opened VfsDir
  import AsyncThread

  /** What the `.hidden` path of the directory turns out to be. */
  datatype HiddenFile = NotRegular | NoAccess | OpenFails | Readable(content: string)

  /** The lines `std::getline` reads: the text split at newlines, where the
      empty piece after a final newline (or of an empty text) is not a line. */
  function Lines(text: string): (ls: seq<string>)
    ensures forall k :: 0 <= k < |ls| ==> '\n' !in ls[k]
  {
    var parts := Split(text, '\n');
    if parts[|parts| - 1] == "" then parts[..|parts| - 1] else parts
  }

  /** Each line stripped, absolute paths dropped, order kept; empty lines stay. */
  function HiddenEntries(lines: seq<string>): (r: seq<string>)
    ensures |r| <= |lines|
  {
    if |lines| == 0 then []
    else
      var e := Strip(lines[0]);
      (if IsAbsolute(e) then [] else [e]) + HiddenEntries(lines[1..])
  }

  /** Every kept entry is stripped and relative. */
  lemma {:induction false} HiddenEntriesClean(lines: seq<string>)
    ensures forall k :: 0 <= k < |HiddenEntries(lines)| ==>
              Stripped(HiddenEntries(lines)[k]) && !IsAbsolute(HiddenEntries(lines)[k])
  {
    if |lines| > 0 {
      var e := Strip(lines[0]);
      StripIsStripped(lines[0]);
      HiddenEntriesClean(lines[1..]);
      var head := if IsAbsolute(e) then [] else [e];
      var rest := HiddenEntries(lines[1..]);
      assert HiddenEntries(lines) == head + rest;
      forall k | 0 <= k < |head + rest|
        ensures Stripped((head + rest)[k]) && !IsAbsolute((head + rest)[k])
      {
        if k < |head| {
          assert (head + rest)[k] == e;
        } else {
          assert (head + rest)[k] == rest[k - |head|];
        }
      }
    }
  }

  /** `get_hidden_files`: nothing unless `.hidden` is a regular, accessible,
      openable file; otherwise its entries in file order. */
  function GetHiddenFiles(h: HiddenFile): (r: Option<seq<string>>)
    ensures r.Some? <==> h.Readable?
    ensures r.Some? ==> forall k :: 0 <= k < |r.value| ==> Stripped(r.value[k]) && !IsAbsolute(r.value[k])
  {
    match h
    case Readable(text) => HiddenEntriesClean(Lines(text)); Some(HiddenEntries(Lines(text)))
    case _ => None
  }

  /** The text `add_hidden` writes for one entry's name. */
  function AddHidden(name: string): (text: string)
    ensures EndsWith(text, "\n")
  {
    name + "\n"
  }

  /** A name that survives a round trip through `.hidden`. */
  predicate HiddenName(n: string)
  {
    '\n' !in n && Stripped(n) && !IsAbsolute(n)
  }

  lemma {:induction false} HiddenEntriesOfClean(ls: seq<string>)
    requires forall k :: 0 <= k < |ls| ==> HiddenName(ls[k])
    ensures HiddenEntries(ls) == ls
  {
    if |ls| > 0 {
      StripIdentity(ls[0]);
      HiddenEntriesOfClean(ls[1..]);
    }
  }

  /** Names written one per line, each line ending in a newline, are read back
      as the same names in the same order. */
  lemma HiddenRoundTrip(names: seq<string>)
    requires |names| >= 1
    requires forall k :: 0 <= k < |names| ==> HiddenName(names[k])
    ensures GetHiddenFiles(Readable(JoinWith(names, '\n') + "\n")) == Some(names)
  {
    LinesOfTerminated(names);
    HiddenEntriesOfClean(names);
  }

  /** Newline-free names, each ending in a newline, are read back as lines. */
  lemma LinesOfTerminated(names: seq<string>)
    requires |names| >= 1
    requires forall k :: 0 <= k < |names| ==> HiddenName(names[k])
    ensures Lines(JoinWith(names, '\n') + "\n") == names
  {
    assert forall k :: 0 <= k < |names| ==> '\n' !in names[k] by {
      forall k | 0 <= k < |names| ensures '\n' !in names[k] {
        assert HiddenName(names[k]);
      }
    }
    SplitTerminated(names, '\n');
    var parts := names + [""];
    assert parts[..|parts| - 1] == names;
  }

  /** What `add_hidden` writes is read back as that one name. */
  lemma AddHiddenRoundTrip(name: string)
    requires HiddenName(name)
    ensures GetHiddenFiles(Readable(AddHidden(name))) == Some([name])
  {
    HiddenRoundTrip([name]);
  }

  /** A `.hidden` file that is not readable hides nothing. */
  lemma UnreadableHiddenHidesNothing(h: HiddenFile)
    requires !h.Readable?
    ensures GetHiddenFiles(h) == None
  {
  }

  // ---- matching listed names against `.hidden` ----

  /** How a `.hidden` entry is compared with a listed name: as written, with
      `std::filesystem::equivalent` on the two bare names, which resolves
      both against the process working directory (`cwd` maps each name
      there to its file identity); or by name, as the commented-out
      comparison next to it does. */
  datatype Matcher = EquivalentInCwd(cwd: map<string, nat>) | SameName

  predicate Equivalent(m: Matcher, hidden: string, name: string)
  {
    match m
    case EquivalentInCwd(cwd) => hidden in cwd && name in cwd && cwd[hidden] == cwd[name]
    case SameName => hidden == name
  }

  /** Some entry of `hs` matches `name`, as the inner loop finds it. */
  predicate HiddenBy(m: Matcher, hs: seq<string>, name: string)
  {
    |hs| > 0 && (Equivalent(m, hs[0], name) || HiddenBy(m, hs[1..], name))
  }

  predicate IsHidden(m: Matcher, hidden: Option<seq<string>>, name: string)
  {
    hidden.Some? && HiddenBy(m, hidden.value, name)
  }

  /** The listed names that are not hidden, and how many were hidden. */
  datatype Split2 = Split2(kept: seq<string>, hiddenCount: nat)

  function Partition(m: Matcher, hidden: Option<seq<string>>, names: seq<string>): (p: Split2)
    ensures |p.kept| + p.hiddenCount == |names|
  {
    if |names| == 0 then Split2([], 0)
    else
      var rest := Partition(m, hidden, names[..|names| - 1]);
      var n := names[|names| - 1];
      if IsHidden(m, hidden, n) then Split2(rest.kept, rest.hiddenCount + 1)
      else Split2(rest.kept + [n], rest.hiddenCount)
  }

  /** A name is kept exactly when it is listed and not hidden. */
  lemma {:induction false} PartitionExact(m: Matcher, hidden: Option<seq<string>>, names: seq<string>, n: string)
    ensures n in Partition(m, hidden, names).kept <==> n in names && !IsHidden(m, hidden, n)
  {
    if |names| > 0 {
      var init := names[..|names| - 1];
      var last := names[|names| - 1];
      PartitionExact(m, hidden, init, n);
      assert names == init + [last];
      assert n in names <==> n in init || n == last;
    }
  }

  predicate Distinct(names: seq<string>)
  {
    forall i, j :: 0 <= i < j < |names| ==> names[i] != names[j]
  }

  lemma {:induction false} PartitionDistinct(m: Matcher, hidden: Option<seq<string>>, names: seq<string>)
    requires Distinct(names)
    ensures Distinct(Partition(m, hidden, names).kept)
  {
    if |names| > 0 {
      var init := names[..|names| - 1];
      PartitionDistinct(m, hidden, init);
      var kept := Partition(m, hidden, init).kept;
      forall k | 0 <= k < |kept|
        ensures kept[k] != names[|names| - 1]
      {
        PartitionExact(m, hidden, init, kept[k]);
        var i :| 0 <= i < |init| && init[i] == kept[k];
      }
    }
  }

  /** Entries created for `names`, with consecutive identities from `start`. */
  function Entries(start: nat, names: seq<string>): (r: seq<File>)
    ensures |r| == |names|
    ensures forall k :: 0 <= k < |r| ==> r[k] == File(start + k, names[k])
  {
    if |names| == 0 then [] else Entries(start, names[..|names| - 1]) + [File(start + |names| - 1, names[|names| - 1])]
  }

  /** `load_thread`: reset the listing flags and hidden count, then visit the
      directory's names in order until the task reports cancellation (here:
      from the `canceledAfter`-th check on), counting each hidden name once
      and appending an entry for every other one. */
  method LoadThread(d: Dir, listing: seq<string>, hidden: Option<seq<string>>, m: Matcher, canceledAfter: nat)
    returns (r: Dir)
    ensures var visited := if canceledAfter < |listing| then canceledAfter else |listing|;
      var p := Partition(m, hidden, listing[..visited]);
      && r.files == d.files + Entries(d.nextId, p.kept)
      && r.hiddenCount == p.hiddenCount
      && r.nextId == d.nextId + |p.kept|
    ensures !r.fileListed && !r.loadComplete
    ensures r == d.(files := r.files, nextId := r.nextId, hiddenCount := r.hiddenCount,
                    fileListed := false, loadComplete := false)
  {
    var kept: seq<string> := [];
    var count: nat := 0;
    var k := 0;
    while k < |listing|
      invariant k <= |listing| && k <= canceledAfter
      invariant Partition(m, hidden, listing[..k]) == Split2(kept, count)
    {
      if k >= canceledAfter {
        break;
      }
      var name := listing[k];
      PartitionStep(m, hidden, listing, k);
      if IsHidden(m, hidden, name) {
        count := count + 1;
      } else {
        kept := kept + [name];
      }
      k := k + 1;
    }
    assert k == (if canceledAfter < |listing| then canceledAfter else |listing|);
    var added := Entries(d.nextId, kept);
    r := d.(files := d.files + added, nextId := d.nextId + |added|, hiddenCount := count,
            fileListed := false, loadComplete := false);
  }

  /** One more visited name extends the partition by that name alone. */
  lemma PartitionStep(m: Matcher, hidden: Option<seq<string>>, names: seq<string>, k: nat)
    requires k < |names|
    ensures var before := Partition(m, hidden, names[..k]);
      Partition(m, hidden, names[..k + 1]) ==
        if IsHidden(m, hidden, names[k]) then Split2(before.kept, before.hiddenCount + 1)
        else Split2(before.kept + [names[k]], before.hiddenCount)
  {
    assert names[..k + 1][..k] == names[..k];
  }

  /** `on_list_task_finished`: drop the task, announce the listing, and mark
      the listing complete. */
  function OnListTaskFinished(d: Dir, cancelled: bool): (r: Out)
    ensures r.dir.fileListed && r.dir.loadComplete && !r.dir.hasTask
    ensures r.notices == [FileListed(cancelled)]
    ensures r.dir.files == d.files && r.dir.createdFiles == d.createdFiles && r.dir.changedFiles == d.changedFiles
  {
    Out(d.(hasTask := false, fileListed := true, loadComplete := true), [FileListed(cancelled)])
  }

  /** The constructor: create the load task, subscribe to its completion, and
      run it. `run` joins before it returns, so the whole listing and its
      `file_listed(false)` notice happen inside the constructor; `avoid` is
      `vfs_volume_dir_avoid_changes` for the path. */
  method Construct(path: Path, avoid: bool, listing: seq<string>, h: HiddenFile, m: Matcher)
    returns (d: Dir, notices: seq<Notice>)
    requires Distinct(listing)
    ensures d.fileListed && d.loadComplete && !d.hasTask
    ensures notices == [FileListed(false)]
    ensures Quiet(d) && WellFormed(d)
    ensures d.path == path && d.avoidChanges == avoid
    ensures |d.files| + d.hiddenCount == |listing|
    ensures ListsUnhidden(d.files, listing, m, GetHiddenFiles(h))
  {
    d, notices := RunLoad(path, avoid, listing, GetHiddenFiles(h), m);
  }

  /** `task_->run()` in the constructor, with `.hidden` already read: spawn
      the load thread over the listing, join it, and handle the task-finished
      notice. */
  method RunLoad(path: Path, avoid: bool, listing: seq<string>, hidden: Option<seq<string>>, m: Matcher)
    returns (d: Dir, notices: seq<Notice>)
    requires Distinct(listing)
    ensures d.fileListed && d.loadComplete && !d.hasTask
    ensures notices == [FileListed(false)]
    ensures Quiet(d) && WellFormed(d)
    ensures d.path == path && d.avoidChanges == avoid
    ensures |d.files| + d.hiddenCount == |listing|
    ensures ListsUnhidden(d.files, listing, m, hidden)
  {
    var task := AsyncThread.Create();
    var start := Dir(path, [], [], [], false, false, avoid, 0, true, 0);
    // The task body runs between the spawn and the join of `run`; it sees the
    // cancellation flag of the spawned task for every entry.
    var spawned := AsyncThread.Spawn(task);
    var canceledAfter := if AsyncThread.IsCanceled(spawned) then 0 else |listing|;
    assert !AsyncThread.IsCanceled(spawned) && canceledAfter == |listing|;
    var loaded := LoadThread(start, listing, hidden, m, canceledAfter);
    var p := Partition(m, hidden, listing);
    assert listing[..|listing|] == listing;
    assert [] + Entries(0, p.kept) == Entries(0, p.kept);
    assert loaded == Dir(path, Entries(0, p.kept), [], [], false, false, avoid, p.hiddenCount, true, |p.kept|);
    var step := AsyncThread.Run(task);
    assert step.finishes == [false];
    var finished := OnListTaskFinished(loaded, step.finishes[0]);
    d := finished.dir;
    notices := finished.notices;
    assert d == Dir(path, Entries(0, p.kept), [], [], true, true, avoid, p.hiddenCount, false, |p.kept|);
    FullLoad(m, hidden, listing, d);
  }

  /** The state a full load leaves: well formed, every name of the listing
      either listed or counted hidden, and exactly the unhidden ones listed. */
  lemma FullLoad(m: Matcher, hidden: Option<seq<string>>, listing: seq<string>, d: Dir)
    requires Distinct(listing)
    requires var p := Partition(m, hidden, listing);
      d.files == Entries(0, p.kept) && d.hiddenCount == p.hiddenCount && d.nextId == |p.kept|
    ensures WellFormed(d) && |d.files| + d.hiddenCount == |listing|
    ensures ListsUnhidden(d.files, listing, m, hidden)
  {
    var p := Partition(m, hidden, listing);
    ListedExactlyUnhidden(m, hidden, listing, d.files);
    PartitionDistinct(m, hidden, listing);
    EntriesWellFormed(p.kept);
  }

  /** Every entry comes from the listing, and a name of the listing is listed
      iff it is not hidden. */
  predicate ListsUnhidden(files: seq<File>, listing: seq<string>, m: Matcher, hidden: Option<seq<string>>)
  {
    && (forall k :: 0 <= k < |files| ==> files[k].name in listing)
    && (forall n :: n in listing ==> (Listed(files, n) <==> !IsHidden(m, hidden, n)))
  }

  /** A full load lists exactly the names of the listing that are not hidden. */
  lemma ListedExactlyUnhidden(m: Matcher, hidden: Option<seq<string>>, listing: seq<string>, files: seq<File>)
    requires files == Entries(0, Partition(m, hidden, listing).kept)
    ensures ListsUnhidden(files, listing, m, hidden)
  {
    var p := Partition(m, hidden, listing);
    forall k | 0 <= k < |files|
      ensures files[k].name in listing
    {
      assert files[k].name == p.kept[k];
      PartitionExact(m, hidden, listing, p.kept[k]);
    }
    forall n | n in listing
      ensures Listed(Entries(0, p.kept), n) <==> !IsHidden(m, hidden, n)
    {
      PartitionExact(m, hidden, listing, n);
      EntriesList(0, p.kept, n);
    }
  }

  /** Numbering names into entries lists exactly those names. */
  lemma EntriesList(start: nat, names: seq<string>, n: string)
    ensures Listed(Entries(start, names), n) <==> n in names
  {
    if n in names {
      var i :| 0 <= i < |names| && names[i] == n;
      assert Entries(start, names)[i].name == n;
    }
    if Listed(Entries(start, names), n) {
      var i :| 0 <= i < |names| && Entries(start, names)[i].name == n;
      assert names[i] == n;
    }
  }

  lemma EntriesWellFormed(names: seq<string>)
    requires Distinct(names)
    ensures NamesDistinct(Entries(0, names))
    ensures forall k :: 0 <= k < |names| ==> Entries(0, names)[k].id < |names|
  {
  }

  /** Loading `{a, b, c}` with `.hidden` listing `b`: compared by name, `b` is
      hidden; compared with `equivalent` from a working directory that holds
      none of those names, nothing is hidden. */
  lemma HiddenMatchingExample()
    ensures Partition(SameName, Some(["b"]), ["a", "b", "c"]) == Split2(["a", "c"], 1)
    ensures Partition(EquivalentInCwd(map[]), Some(["b"]), ["a", "b", "c"]) == Split2(["a", "b", "c"], 0)
  {
    ByNameExample();
    ByCwdExample();
  }

  lemma ByNameExample()
    ensures Partition(SameName, Some(["b"]), ["a", "b", "c"]) == Split2(["a", "c"], 1)
  {
    var h := Some(["b"]);
    var names := ["a", "b", "c"];
    assert ["b"][1..] == [];
    assert !IsHidden(SameName, h, "a") && IsHidden(SameName, h, "b") && !IsHidden(SameName, h, "c");
    assert names[..2] == ["a", "b"] && names[..2][..1] == ["a"] && names[..2][..1][..0] == [];
    assert Partition(SameName, h, ["a"]) == Split2(["a"], 0);
    assert Partition(SameName, h, ["a", "b"]) == Split2(["a"], 1);
  }

  lemma ByCwdExample()
    ensures Partition(EquivalentInCwd(map[]), Some(["b"]), ["a", "b", "c"]) == Split2(["a", "b", "c"], 0)
  {
    var m := EquivalentInCwd(map[]);
    var h := Some(["b"]);
    var names := ["a", "b", "c"];
    forall k | 0 <= k < |names|
      ensures !IsHidden(m, h, names[k])
    {
      assert ["b"][1..] == [];
      assert !Equivalent(m, "b", names[k]);
    }
    PartitionNothingHidden(m, h, names);
  }

  /** When no listed name is hidden, every name is kept in order. */
  lemma {:induction false} PartitionNothingHidden(m: Matcher, hidden: Option<seq<string>>, names: seq<string>)
    requires forall k :: 0 <= k < |names| ==> !IsHidden(m, hidden, names[k])
    ensures Partition(m, hidden, names) == Split2(names, 0)
  {
    if |names| > 0 {
      var init := names[..|names| - 1];
      assert forall k :: 0 <= k < |init| ==> init[k] == names[k];
      PartitionNothingHidden(m, hidden, init);
      assert init + [names[|names| - 1]] == names;
    }
  }

  /** The comparison by `equivalent` does what the name comparison does only
      when the process working directory is the listed directory itself
      (every name there, with distinct identities). */
  lemma EquivalentAgreesInOwnDirectory(cwd: map<string, nat>, hidden: string, name: string)
    requires hidden in cwd && name in cwd
    requires forall a, b :: a in cwd && b in cwd && cwd[a] == cwd[b] ==> a == b
    ensures Equivalent(EquivalentInCwd(cwd), hidden, name) <==> Equivalent(SameName, hidden, name)
  {
  }

  // ---- the directory cache ----

  /** `dir_smart_cache`: directories by the exact path they were created with. */
  datatype Cache = Cache(entries: map<Path, nat>, next: nat)

  predicate CacheValid(c: Cache)
  {
    forall p :: p in c.entries ==> c.entries[p] < c.next
  }

  /** The result of `create`: the cache afterwards, the instance handed out,
      and whether a directory was constructed for it. */
  datatype Created = Created(cache: Cache, instance: nat, constructed: bool)

  /** `vfs::dir::create`: a cached path returns its instance and constructs
      nothing; any other path constructs a new directory and registers it
      under exactly that path. */
  function CacheCreate(c: Cache, path: Path): (r: Created)
    requires CacheValid(c)
    ensures CacheValid(r.cache)
    ensures path in c.entries ==> r == Created(c, c.entries[path], false)
    ensures path !in c.entries ==>
      r.constructed && r.cache.entries == c.entries[path := r.instance] &&
      forall p :: p in c.entries ==> c.entries[p] != r.instance
  {
    if path in c.entries then Created(c, c.entries[path], false)
    else Created(Cache(c.entries[path := c.next], c.next + 1), c.next, true)
  }

  /** The cache holds its directories weakly: when the last holder releases an
      instance, its entry lapses (and `~dir` runs). Which holder releases last
      is an input here. */
  function CacheExpire(c: Cache, instance: nat): (r: Cache)
    requires CacheValid(c)
    ensures CacheValid(r) && r.next == c.next
    ensures forall p :: p in r.entries <==> p in c.entries && c.entries[p] != instance
    ensures forall p :: p in r.entries ==> r.entries[p] == c.entries[p]
  {
    Cache(map p | p in c.entries && c.entries[p] != instance :: c.entries[p], c.next)
  }

  /** Once the directory created for a path has expired, creating that path
      again constructs a new directory, never the expired one. */
  lemma CreateAfterExpiryConstructs(c: Cache, path: Path)
    requires CacheValid(c)
    ensures var r1 := CacheCreate(c, path);
      var r2 := CacheCreate(CacheExpire(r1.cache, r1.instance), path);
      r2.constructed && r2.instance != r1.instance
  {
  }

  /** Expiring one directory leaves every other path's directory cached. */
  lemma ExpiryKeepsOthers(c: Cache, instance: nat, path: Path)
    requires CacheValid(c) && path in c.entries && c.entries[path] != instance
    ensures CacheCreate(CacheExpire(c, instance), path) == Created(CacheExpire(c, instance), c.entries[path], false)
  {
  }

  /** While its holders keep it alive, creating the same path twice hands out
      the same directory and constructs it once. */
  lemma CreateTwiceShares(c: Cache, path: Path)
    requires CacheValid(c)
    ensures var r1 := CacheCreate(c, path);
      var r2 := CacheCreate(r1.cache, path);
      r2.instance == r1.instance && !r2.constructed && r2.cache == r1.cache
  {
  }

  /** The key is not canonicalised: a path with a trailing separator is a
      second directory. */
  lemma TrailingSlashIsAnotherDirectory()
    ensures var r1 := CacheCreate(Cache(map[], 0), "/tmp/d");
      var r2 := CacheCreate(r1.cache, "/tmp/d/");
      r2.constructed && r2.instance != r1.instance
  {
  }
}
