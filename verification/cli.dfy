/** What the program does with its command-line paths (src/main.cxx): each
    argument of the first instance becomes a tab, a block device, a file to
    open, a network location or a warning; directories go to the requested
    panel, possibly reusing the current tab once; a second instance only
    forwards the directories to the running one. The file system is an
    oracle: which absolute paths are directories, exist, or are block
    devices. */
module Cli {
  import opened Wrappers
  import opened Strings
  import Paths
  import opened PanelTypes

  datatype FsView = FsView(dirs: set<Paths.Path>, existing: set<Paths.Path>, blocks: set<Paths.Path>)

  /** `std::filesystem::absolute`: relative arguments are taken from the
      working directory. */
  function Absolute(cwd: Paths.Path, arg: string): (r: Paths.Path)
    ensures Paths.IsAbsolute(arg) ==> r == arg
    ensures !Paths.IsAbsolute(arg) ==> EndsWith(r, arg)
  {
    if Paths.IsAbsolute(arg) then arg else Paths.JoinPath(cwd, arg)
  }

  /** An argument read as a network location: `//host/...`, or a relative
      text holding `:/` such as `smb://host/share`. */
  predicate IsNetworkLocation(arg: string): (r: bool)
    ensures StartsWith(arg, "//") ==> r
    ensures r && StartsWith(arg, "/") ==> StartsWith(arg, "//")
    ensures !Contains(arg, ":/") && !StartsWith(arg, "//") ==> !r
  {
    (!StartsWith(arg, "/") && Contains(arg, ":/")) || StartsWith(arg, "//")
  }

  datatype Action =
    | OpenDir(path: Paths.Path)
    | OpenBlock(path: Paths.Path)
    | OpenFile(path: Paths.Path)
    | OpenNetwork(location: string)
    | Warn(path: Paths.Path)

  /** The per-argument dispatch of `activate`: directory first, then an
      existing block device, then any other existing path; only a path that
      does not exist can be a network location; anything else is warned
      about. */
  function Classify(fs: FsView, cwd: Paths.Path, arg: string): (a: Action)
    ensures var resolved := Absolute(cwd, arg);
      && (a.OpenDir? <==> resolved in fs.dirs)
      && (a.OpenBlock? <==> resolved !in fs.dirs && resolved in fs.existing && resolved in fs.blocks)
      && (a.OpenFile? <==> resolved !in fs.dirs && resolved in fs.existing && resolved !in fs.blocks)
      && (a.OpenNetwork? <==> resolved !in fs.dirs && resolved !in fs.existing && IsNetworkLocation(arg))
      && (a.Warn? <==> resolved !in fs.dirs && resolved !in fs.existing && !IsNetworkLocation(arg))
    ensures a.OpenNetwork? ==> a.location == arg
    ensures !a.OpenNetwork? ==> a.path == Absolute(cwd, arg)
  {
    var resolved := Absolute(cwd, arg);
    if resolved in fs.dirs then OpenDir(resolved)
    else if resolved in fs.existing then
      if resolved in fs.blocks then OpenBlock(resolved) else OpenFile(resolved)
    else if IsNetworkLocation(arg) then OpenNetwork(arg)
    else Warn(resolved)
  }

  /** A local path shadows a location of the same spelling: `smb://host`
      names the network share only while no such relative path exists, and
      an absolute path other than `//...` is never a network location. */
  lemma LocalPathsWin(fs: FsView, cwd: Paths.Path, arg: string)
    ensures Absolute(cwd, arg) in fs.existing ==> !Classify(fs, cwd, arg).OpenNetwork?
    ensures Paths.IsAbsolute(arg) && !StartsWith(arg, "//") ==> !Classify(fs, cwd, arg).OpenNetwork?
  {
  }

  /** `//server/share` that is not a local path opens as a network location. */
  lemma DoubleSlashIsNetwork(fs: FsView, cwd: Paths.Path, rest: string)
    requires "//" + rest !in fs.dirs && "//" + rest !in fs.existing
    ensures Classify(fs, cwd, "//" + rest) == OpenNetwork("//" + rest)
  {
    var arg := "//" + rest;
    assert arg[..2] == "//";
    assert Paths.IsAbsolute(arg);
  }

  // ---------------------------------------------------------------------
  // Tabs

  /** What the window reports about the requested panel when an argument is
      handled: whether its notebook has no pages, and whether it is
      visible. */
  datatype PanelView = PanelView(pageless: bool, visible: bool)

  datatype Effect =
    | ShowPanel(panel: int)
    | Preload(panel: int, path: Paths.Path)
    | SetCurrent(panel: int)
    | ReuseTab(path: Paths.Path)
    | NewTab(path: Paths.Path)
    | FocusPanel(panel: int)

  /** `open_in_tab` for one directory: with a valid panel requested, an
      empty panel is shown with the directory as its preload (no tab is
      added), a hidden one is shown, and the panel becomes current; unless
      preloaded, the directory replaces the current tab while reuse is
      pending, which clears it, or opens in a new tab. */
  function OpenInTab(panel: int, view: PanelView, reuse: bool, path: Paths.Path): (r: (seq<Effect>, bool))
    ensures IsValidPanel(panel) && view.pageless ==>
      r == ([Preload(panel, path), ShowPanel(panel), SetCurrent(panel)], reuse)
    ensures !(IsValidPanel(panel) && view.pageless) ==>
      |r.0| >= 1 && r.0[|r.0| - 1] == (if reuse then ReuseTab(path) else NewTab(path)) && !r.1
    ensures !IsValidPanel(panel) ==> |r.0| == 1
  {
    if IsValidPanel(panel) && view.pageless then
      ([Preload(panel, path), ShowPanel(panel), SetCurrent(panel)], reuse)
    else
      var panelEffects :=
        if !IsValidPanel(panel) then []
        else if !view.visible then [ShowPanel(panel), SetCurrent(panel)]
        else [SetCurrent(panel)];
      if reuse then (panelEffects + [ReuseTab(path)], false)
      else (panelEffects + [NewTab(path)], reuse)
  }

  /** Options of the first instance that the loop reads. */
  datatype Options = Options(panel: int, reuseTab: bool)

  function HandleArg(fs: FsView, cwd: Paths.Path, opt: Options, view: PanelView, arg: string): (r: (seq<Effect>, Options, Action))
    ensures r.2 == Classify(fs, cwd, arg)
    ensures r.1.panel == opt.panel
    ensures !r.2.OpenDir? ==> r.0 == [] && r.1 == opt
  {
    var a := Classify(fs, cwd, arg);
    if a.OpenDir? then
      var (effects, reuse) := OpenInTab(opt.panel, view, opt.reuseTab, a.path);
      (effects, opt.(reuseTab := reuse), a)
    else ([], opt, a)
  }

  /** The argument loop of `activate`: the actions of all arguments, the tab
      effects of the directories, and the options left afterwards.
      `views[i]` is the requested panel as argument `i` finds it. */
  function ArgLoop(fs: FsView, cwd: Paths.Path, opt: Options, views: seq<PanelView>, args: seq<string>)
    : (r: (seq<Action>, seq<Effect>, Options))
    requires |views| == |args|
    ensures |r.0| == |args|
    ensures forall i :: 0 <= i < |args| ==> r.0[i] == Classify(fs, cwd, args[i])
    ensures r.2.panel == opt.panel
    ensures !opt.reuseTab ==> !r.2.reuseTab
    decreases |args|
  {
    if |args| == 0 then ([], [], opt)
    else
      var (effects, opt1, a) := HandleArg(fs, cwd, opt, views[0], args[0]);
      var (actions, rest, opt2) := ArgLoop(fs, cwd, opt1, views[1..], args[1..]);
      assert forall i :: 1 <= i < |args| ==> args[1..][i - 1] == args[i];
      ([a] + actions, effects + rest, opt2)
  }

  function CountReuse(effects: seq<Effect>): nat
  {
    if |effects| == 0 then 0 else (if effects[0].ReuseTab? then 1 else 0) + CountReuse(effects[1..])
  }

  lemma {:induction false} CountReuseAppend(a: seq<Effect>, b: seq<Effect>)
    ensures CountReuse(a + b) == CountReuse(a) + CountReuse(b)
    decreases |a|
  {
    if |a| > 0 {
      assert (a + b)[0] == a[0];
      assert (a + b)[1..] == a[1..] + b;
      CountReuseAppend(a[1..], b);
    } else {
      assert a + b == b;
    }
  }

  lemma OpenInTabReuse(panel: int, view: PanelView, reuse: bool, path: Paths.Path)
    ensures var r := OpenInTab(panel, view, reuse, path);
      CountReuse(r.0) == (if reuse && !r.1 then 1 else 0) && (r.1 ==> reuse)
  {
    var r := OpenInTab(panel, view, reuse, path);
    if IsValidPanel(panel) && view.pageless {
      NoReuse(r.0);
    } else {
      var k := |r.0| - 1;
      assert r.0 == r.0[..k] + [r.0[k]];
      assert forall j :: 0 <= j < k ==> !r.0[j].ReuseTab?;
      NoReuse(r.0[..k]);
      CountReuseAppend(r.0[..k], [r.0[k]]);
    }
  }

  lemma {:induction false} NoReuse(effects: seq<Effect>)
    requires forall j :: 0 <= j < |effects| ==> !effects[j].ReuseTab?
    ensures CountReuse(effects) == 0
    decreases |effects|
  {
    if |effects| > 0 {
      NoReuse(effects[1..]);
    }
  }

  /** The current tab is reused at most once, and only when asked for: the
      request is spent by the first directory that is not preloaded. */
  lemma {:induction false} ReuseAtMostOnce(fs: FsView, cwd: Paths.Path, opt: Options, views: seq<PanelView>, args: seq<string>)
    requires |views| == |args|
    ensures var r := ArgLoop(fs, cwd, opt, views, args);
      CountReuse(r.1) == (if opt.reuseTab && !r.2.reuseTab then 1 else 0)
    decreases |args|
  {
    if |args| > 0 {
      var (effects, opt1, a) := HandleArg(fs, cwd, opt, views[0], args[0]);
      ReuseAtMostOnce(fs, cwd, opt1, views[1..], args[1..]);
      var (actions, rest, opt2) := ArgLoop(fs, cwd, opt1, views[1..], args[1..]);
      CountReuseAppend(effects, rest);
      if a.OpenDir? {
        OpenInTabReuse(opt.panel, views[0], opt.reuseTab, a.path);
      }
    }
  }

  /** Without a valid panel the first directory replaces the current tab
      when asked to, and every later one opens a new tab. */
  lemma FirstDirectoryReuses(fs: FsView, cwd: Paths.Path, opt: Options, view: PanelView, arg: string)
    requires !IsValidPanel(opt.panel) && opt.reuseTab
    requires Absolute(cwd, arg) in fs.dirs
    ensures HandleArg(fs, cwd, opt, view, arg).0 == [ReuseTab(Absolute(cwd, arg))]
    ensures !HandleArg(fs, cwd, opt, view, arg).1.reuseTab
  {
  }

  /** The end of `activate`: a requested valid panel is shown if hidden and
      then focused. */
  function FinishPanel(panel: int, visible: bool): (r: seq<Effect>)
    ensures !IsValidPanel(panel) ==> r == []
    ensures IsValidPanel(panel) ==> |r| >= 1 && r[|r| - 1] == FocusPanel(panel)
    ensures (ShowPanel(panel) in r) <==> IsValidPanel(panel) && !visible
  {
    if !IsValidPanel(panel) then []
    else if !visible then [ShowPanel(panel), FocusPanel(panel)]
    else [FocusPanel(panel)]
  }

  // ---------------------------------------------------------------------
  // Second instance

  const NewTabCommand: string := " socket set new-tab "

  /** The directory arguments, in order. */
  function DirArgs(fs: FsView, cwd: Paths.Path, args: seq<string>): (r: seq<string>)
    ensures |r| <= |args|
    ensures forall x :: x in r ==> x in args && Absolute(cwd, x) in fs.dirs
    ensures forall x :: x in args && Absolute(cwd, x) in fs.dirs ==> x in r
  {
    if |args| == 0 then []
    else
      var rest := DirArgs(fs, cwd, args[1..]);
      assert forall x :: x in args[1..] ==> x in args;
      assert forall x :: x in args ==> x == args[0] || x in args[1..];
      if Absolute(cwd, args[0]) in fs.dirs then [args[0]] + rest else rest
  }

  /** Directory arguments are kept per occurrence and in order: those of a
      joined command line are those of its parts, joined. */
  lemma {:induction false} DirArgsAppend(fs: FsView, cwd: Paths.Path, a: seq<string>, b: seq<string>)
    ensures DirArgs(fs, cwd, a + b) == DirArgs(fs, cwd, a) + DirArgs(fs, cwd, b)
    decreases |a|
  {
    if |a| == 0 {
      assert a + b == b;
    } else {
      assert (a + b)[0] == a[0];
      assert (a + b)[1..] == a[1..] + b;
      DirArgsAppend(fs, cwd, a[1..], b);
    }
  }

  /** One argument gives itself exactly when it names a directory. */
  lemma DirArgsSingle(fs: FsView, cwd: Paths.Path, x: string)
    ensures DirArgs(fs, cwd, [x]) == if Absolute(cwd, x) in fs.dirs then [x] else []
  {
    assert [x][1..] == [];
  }

  /** A second instance runs one `socket set new-tab` per directory argument,
      with the argument as given (quoted), and skips everything else. */
  function ForwardCommands(fs: FsView, cwd: Paths.Path, exe: string, args: seq<string>, quote: string -> string)
    : (r: seq<string>)
    ensures |r| == |DirArgs(fs, cwd, args)|
    ensures forall i :: 0 <= i < |r| ==> r[i] == exe + NewTabCommand + quote(DirArgs(fs, cwd, args)[i])
  {
    var dirs := DirArgs(fs, cwd, args);
    seq(|dirs|, i requires 0 <= i < |dirs| => exe + NewTabCommand + quote(dirs[i]))
  }

  /** Forwarding is a filter: a run with no directory arguments sends
      nothing, and adding a non-directory argument changes nothing. */
  lemma ForwardSkipsNonDirectories(fs: FsView, cwd: Paths.Path, exe: string, args: seq<string>, extra: string,
                                   quote: string -> string)
    requires Absolute(cwd, extra) !in fs.dirs
    ensures ForwardCommands(fs, cwd, exe, [extra] + args, quote) == ForwardCommands(fs, cwd, exe, args, quote)
    ensures (forall x :: x in args ==> Absolute(cwd, x) !in fs.dirs) ==> ForwardCommands(fs, cwd, exe, args, quote) == []
  {
    assert ([extra] + args)[1..] == args;
    if forall x :: x in args ==> Absolute(cwd, x) !in fs.dirs {
      if |DirArgs(fs, cwd, args)| > 0 {
        assert DirArgs(fs, cwd, args)[0] in DirArgs(fs, cwd, args);
      }
    }
  }
}
