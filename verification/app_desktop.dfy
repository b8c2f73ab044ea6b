/** Desktop entries and the expansion of their `Exec` field codes
    (src/vfs/vfs-app-desktop.cxx), following the field codes of the
    freedesktop.org Desktop Entry Specification, section "The Exec key":
    `%f`/`%u` one file, `%F`/`%U` the file list, `%c` the display name, `%i`
    the icon. Key-file parsing, shell quoting (`bash_quote`), icon loading
    and process spawning are parameters; a launch is returned as data. */
module AppDesktop {
  import opened Wrappers
  import opened Strings
  import Paths
  import MimeCache

  /** The `[Desktop Entry]` values the key file yields; `None` is a missing
      key (a `KeyFileError`), and `terminal` is already parsed as a boolean. */
  datatype Entry = Entry(
    name: Option<string>,
    exec: Option<string>,
    icon: Option<string>,
    path: Option<string>,
    terminal: Option<bool>)

  /** `VFSAppDesktop`. */
  datatype Desktop = Desktop(
    fileName: string,
    fullPath: string,
    dispName: string,
    exec: string,
    iconName: string,
    path: string,
    terminal: bool)

  function ValueOr(o: Option<string>): (r: string)
    ensures o.None? ==> r == ""
    ensures o.Some? ==> r == o.value
  {
    if o.Some? then o.value else ""
  }

  /** The constructor. An absolute name is loaded directly and its basename
      becomes the file name; a relative one is searched for under the data
      directories, `found` being the path that search reports. `entry` is the
      loaded group, `None` when loading failed: the file name then doubles as
      the command. This is the fallback the code spells out; `LoadAsWritten`
      is what glibmm's throwing loaders make of it. */
  function Load(openFileName: string, found: string, entry: Option<Entry>): (d: Desktop)
    ensures Paths.IsAbsolute(openFileName) ==>
      d.fileName == Paths.Basename(openFileName) && d.fullPath == openFileName
    ensures !Paths.IsAbsolute(openFileName) ==> d.fileName == openFileName && d.fullPath == found
    ensures entry.None? ==>
      d.exec == d.fileName && d.dispName == "" && d.iconName == "" && d.path == "" && !d.terminal
    ensures entry.Some? ==> d.exec == ValueOr(entry.value.exec) && d.dispName == ValueOr(entry.value.name)
    ensures entry.Some? ==> d.terminal == (entry.value.terminal == Some(true))
    ensures entry.Some? ==> d.iconName == ValueOr(entry.value.icon) && d.path == ValueOr(entry.value.path)
  {
    var fileName := if Paths.IsAbsolute(openFileName) then Paths.Basename(openFileName) else openFileName;
    var fullPath := if Paths.IsAbsolute(openFileName) then openFileName else found;
    match entry
    case None => Desktop(fileName, fullPath, "", fileName, "", "", false)
    case Some(e) =>
      Desktop(fileName, fullPath, ValueOr(e.name), ValueOr(e.exec), ValueOr(e.icon), ValueOr(e.path),
              e.terminal == Some(true))
  }

  /** `get_disp_name`: the `Name` value, or the file name when it is empty. */
  function DispName(d: Desktop): (r: string)
    ensures d.dispName != "" ==> r == d.dispName
    ensures d.dispName == "" ==> r == d.fileName
  {
    if d.dispName != "" then d.dispName else d.fileName
  }

  /** The constructor as written: glibmm's `load_from_file` and
      `load_from_data_dirs` report a failed load by throwing
      `Glib::FileError` or `Glib::KeyFileError`, never by returning false,
      and the throw leaves the `noexcept` constructor, which ends the process
      (`None`). The branch that runs the file name is never reached. */
  function LoadAsWritten(openFileName: string, found: string, entry: Option<Entry>): (r: Option<Desktop>)
    ensures r.None? <==> entry.None?
    ensures r.Some? ==> r.value == Load(openFileName, found, entry)
  {
    if entry.None? then None else Some(Load(openFileName, found, entry))
  }

  /** A desktop file that cannot be loaded ends the process, where the
      fallback the constructor spells out would have run the file name. */
  lemma UnloadableEnds(openFileName: string, found: string)
    ensures LoadAsWritten(openFileName, found, None) == None
    ensures Load(openFileName, found, None).exec == Load(openFileName, found, None).fileName
  {
  }

  /** An entry that failed to load shows its file name and runs it. */
  lemma UnloadableRunsFileName(openFileName: string, found: string)
    ensures var d := Load(openFileName, found, None); DispName(d) == d.fileName && d.exec == d.fileName
  {
  }

  /** The generic icons `get_icon` falls back to, in order. */
  const GenericIcons: seq<string> := ["application-x-executable", "gnome-mime-application-x-executable"]

  /** The names `get_icon` tries: the entry's icon when set, then the generic
      ones. */
  function IconCandidates(d: Desktop): (r: seq<string>)
    ensures d.iconName != "" ==> |r| == 3 && r[0] == d.iconName && r[1..] == GenericIcons
    ensures d.iconName == "" ==> r == GenericIcons
  {
    (if d.iconName != "" then [d.iconName] else []) + GenericIcons
  }

  /** `get_icon`: the first candidate that loads, if any. */
  function GetIcon(d: Desktop, canLoad: string -> bool): (r: Option<string>)
    ensures d.iconName != "" && canLoad(d.iconName) ==> r == Some(d.iconName)
    ensures r.Some? ==> r.value in IconCandidates(d) && canLoad(r.value)
    ensures r.None? <==> forall n :: n in IconCandidates(d) ==> !canLoad(n)
  {
    MimeCache.FirstLoadable(IconCandidates(d), canLoad)
  }

  /** Some file-list code (`%U` or `%F`) occurs in `s`. */
  predicate HasListCode(s: string)
  {
    Contains(s, "%F") || Contains(s, "%U")
  }

  /** Some single-file code (`%f` or `%u`) occurs in `s`. */
  predicate HasFileCode(s: string)
  {
    Contains(s, "%f") || Contains(s, "%u")
  }

  /** `open_multiple_files`: the application takes all files in one launch. */
  function OpenMultipleFiles(d: Desktop): (r: bool)
    ensures r <==> d.exec != "" && HasListCode(d.exec)
  {
    if d.exec == "" then false else HasListCode(d.exec)
  }

  /** An empty command never opens several files: the emptiness test is
      implied by the code test. */
  lemma MultipleNeedsCommand(d: Desktop)
    ensures OpenMultipleFiles(d) <==> HasListCode(d.exec)
  {
    if d.exec == "" {
      assert !OccursAt(d.exec, "%F", 0);
      assert forall i: nat :: !OccursAt(d.exec, "%F", i) && !OccursAt(d.exec, "%U", i);
    }
  }

  // ---------------------------------------------------------------------
  // argv form

  /** `pop_back`: the vector without its last element. */
  function DropLast(s: seq<string>): (r: seq<string>)
    ensures |s| > 0 ==> r == s[..|s| - 1]
  {
    if |s| == 0 then [] else s[..|s| - 1]
  }

  /** `args[i]` is the first argument containing `pat`. */
  predicate FirstContaining(args: seq<string>, pat: string, i: int)
  {
    0 <= i < |args| && Contains(args[i], pat) && forall j :: 0 <= j < i ==> !Contains(args[j], pat)
  }

  /** Rewrite `pat` in the first argument that contains it, and nowhere else. */
  function RewriteFirst(args: seq<string>, pat: string, rep: string): (r: seq<string>)
    requires |pat| > 0
    ensures |r| == |args|
    ensures (forall i :: 0 <= i < |args| ==> !Contains(args[i], pat)) ==> r == args
  {
    if |args| == 0 then []
    else if Contains(args[0], pat) then [ReplaceAll(args[0], pat, rep)] + args[1..]
    else
      var rest := RewriteFirst(args[1..], pat, rep);
      assert forall i :: 1 <= i < |args| ==> args[i] == args[1..][i - 1];
      [args[0]] + rest
  }

  /** The argument rewritten is the first one containing `pat`; all others
      are kept. */
  lemma {:induction false} RewriteFirstAt(args: seq<string>, pat: string, rep: string, i: int)
    requires |pat| > 0 && FirstContaining(args, pat, i)
    ensures RewriteFirst(args, pat, rep) == args[i := ReplaceAll(args[i], pat, rep)]
  {
    var fixed := ReplaceAll(args[i], pat, rep);
    if i == 0 {
      assert [fixed] + args[1..] == args[0 := fixed];
    } else {
      var tail := args[1..];
      assert !Contains(args[0], pat);
      assert FirstContaining(tail, pat, i - 1) by {
        assert tail[i - 1] == args[i];
        forall j | 0 <= j < i - 1
          ensures !Contains(tail[j], pat)
        {
          assert tail[j] == args[j + 1];
        }
      }
      RewriteFirstAt(tail, pat, rep, i - 1);
      assert tail[i - 1] == args[i];
      assert [args[0]] + tail[i - 1 := fixed] == args[i := fixed];
    }
  }

  /** `app_exec_to_argv`. The command is split on single spaces. A file-list
      code anywhere in the command drops the LAST token and appends the
      files; so does a single-file code; `%c` and `%i` are rewritten in the
      first token containing them; without a file code the files are
      appended at the end. */
  function ExecToArgv(d: Desktop, files: seq<string>): (r: seq<string>)
    ensures !HasListCode(d.exec) && !HasFileCode(d.exec) ==>
      |r| == |Split(d.exec, ' ')| + |files| && r[|r| - |files|..] == files
  {
    var argv0 := Split(d.exec, ' ');
    var list := HasListCode(d.exec);
    var argv1 := if list then DropLast(argv0) + files else argv0;
    var single := HasFileCode(d.exec);
    var argv2 := if single then DropLast(argv1) + files else argv1;
    var argv3 := if Contains(d.exec, "%c") then RewriteFirst(argv2, "%c", DispName(d)) else argv2;
    var argv4 := if Contains(d.exec, "%i") then RewriteFirst(argv3, "%i", "--icon " + d.iconName) else argv3;
    if list || single then argv4 else argv4 + files
  }

  /** No field code occurs in `s`. */
  predicate NoCodes(s: string)
  {
    !HasListCode(s) && !HasFileCode(s) && !Contains(s, "%c") && !Contains(s, "%i")
  }

  /** Without field codes the argv is the split command followed by the files,
      in order. */
  lemma ArgvPlain(d: Desktop, files: seq<string>)
    requires NoCodes(d.exec)
    ensures ExecToArgv(d, files) == Split(d.exec, ' ') + files
  {
  }

  /** A file code that is the last token is replaced by the files, in order. */
  lemma ArgvCodeAtEnd(d: Desktop, files: seq<string>, tokens: seq<string>, code: string)
    requires code in ["%F", "%U", "%f", "%u"]
    requires Split(d.exec, ' ') == tokens + [code]
    requires HasListCode(d.exec) != HasFileCode(d.exec)
    requires !Contains(d.exec, "%c") && !Contains(d.exec, "%i")
    ensures ExecToArgv(d, files) == tokens + files
  {
    assert DropLast(tokens + [code]) == tokens;
  }

  /** A file code followed by another token is not where the files go: the
      trailing token is dropped instead and the code stays in the argv
      (`app %F --new` opens `app %F x` for the file `x`). */
  lemma ArgvCodeNotLast(d: Desktop, a: string, b: string, files: seq<string>)
    requires d.exec == a + " %F " + b
    requires ' ' !in a && ' ' !in b && '%' !in a && '%' !in b
    ensures ExecToArgv(d, files) == [a, "%F"] + files
  {
    SplitThree(a, b);
    ListInMiddle(a, b);
    ArgvListOnly(d, files);
    assert DropLast([a, "%F", b]) == [a, "%F"];
  }

  /** `a %F b` holds a list code and no other code. */
  lemma ListInMiddle(a: string, b: string)
    requires '%' !in a && '%' !in b
    ensures var e := a + " %F " + b;
      HasListCode(e) && !HasFileCode(e) && !Contains(e, "%c") && !Contains(e, "%i")
  {
    var pre := a + " ";
    var post := " " + b;
    assert a + " %F " + b == pre + "%F" + post;
    OnlyList(pre, post);
  }

  /** With a list code and no other code, the last token gives way to the files. */
  lemma ArgvListOnly(d: Desktop, files: seq<string>)
    requires HasListCode(d.exec) && !HasFileCode(d.exec)
    requires !Contains(d.exec, "%c") && !Contains(d.exec, "%i")
    ensures ExecToArgv(d, files) == DropLast(Split(d.exec, ' ')) + files
  {
  }

  lemma SplitThree(a: string, b: string)
    requires ' ' !in a && ' ' !in b
    ensures Split(a + " %F " + b, ' ') == [a, "%F", b]
  {
    assert a + " %F " + b == a + [' '] + ("%F" + [' '] + b);
    SplitAfterPlain(a, ' ', "%F" + [' '] + b);
    SplitAfterPlain("%F", ' ', b);
    SplitPlain(b, ' ');
  }

  /** A command whose only `%` is a `%F`: a list code and no other code. */
  lemma OnlyList(pre: string, post: string)
    requires '%' !in pre && '%' !in post
    ensures var s := pre + "%F" + post;
      HasListCode(s) && !HasFileCode(s) && !Contains(s, "%c") && !Contains(s, "%i") && !Contains(s, "%U")
  {
    var s := pre + "%F" + post;
    assert OccursAt(s, "%F", |pre|);
    assert s == pre + ['%', 'F'] + post;
    OnlyCodeAt(pre, 'F', post);
    assert "%U" == ['%', 'U'] && "%f" == ['%', 'f'] && "%u" == ['%', 'u'];
    assert "%c" == ['%', 'c'] && "%i" == ['%', 'i'];
  }

  /** A command whose only `%` is a `%f`: a file code and no other code. */
  lemma OnlyFile(pre: string, post: string)
    requires '%' !in pre && '%' !in post
    ensures var s := pre + "%f" + post;
      HasFileCode(s) && !HasListCode(s) && !Contains(s, "%c") && !Contains(s, "%i") && !Contains(s, "%u")
  {
    var s := pre + "%f" + post;
    assert OccursAt(s, "%f", |pre|);
    assert s == pre + ['%', 'f'] + post;
    OnlyCodeAt(pre, 'f', post);
    assert "%U" == ['%', 'U'] && "%F" == ['%', 'F'] && "%u" == ['%', 'u'];
    assert "%c" == ['%', 'c'] && "%i" == ['%', 'i'];
  }

  /** Replacing the only occurrence of a code. */
  lemma ReplaceOnly(pre: string, code: string, post: string, rep: string)
    requires |code| == 2 && code[0] == '%' && '%' !in pre && '%' !in post
    ensures ReplaceAll(pre + code + post, code, rep) == pre + rep + post
  {
    ReplaceAfterPlain(pre, code, rep, post);
    NotContainsWithoutFirst(post, code);
    ReplaceAbsent(post, code, rep);
  }

  /** A string whose only `%` starts the code `%c` contains no other code. */
  lemma OnlyCodeAt(pre: string, c: char, post: string)
    requires '%' !in pre && '%' !in post && c != '%'
    ensures forall c2 :: c2 != c ==> !Contains(pre + ['%', c] + post, ['%', c2])
  {
    var s := pre + ['%', c] + post;
    forall c2, i: nat | c2 != c && i + 2 <= |s|
      ensures !OccursAt(s, ['%', c2], i)
    {
      assert s[i..i + 2][0] == s[i] && s[i..i + 2][1] == s[i + 1];
      if i < |pre| {
        assert s[i] == pre[i] && pre[i] in pre;
      } else if i == |pre| {
        assert s[i + 1] == c;
      } else if i == |pre| + 1 {
        assert s[i] == c;
      } else {
        assert s[i] == post[i - |pre| - 2] && post[i - |pre| - 2] in post;
      }
    }
  }

  /** `%c` is rewritten only in the first token that contains it. */
  lemma ArgvNameInFirstTokenOnly(d: Desktop, files: seq<string>, i: nat)
    requires !HasListCode(d.exec) && !HasFileCode(d.exec) && !Contains(d.exec, "%i")
    requires Contains(d.exec, "%c")
    requires FirstContaining(Split(d.exec, ' '), "%c", i)
    ensures var t := Split(d.exec, ' ');
      ExecToArgv(d, files) == t[i := ReplaceAll(t[i], "%c", DispName(d))] + files
  {
    RewriteFirstAt(Split(d.exec, ' '), "%c", DispName(d), i);
  }

  // ---------------------------------------------------------------------
  // Command-line form

  /** Every file quoted and followed by a space (the `%F`/`%U` expansion). */
  function QuotedEach(files: seq<string>, quote: string -> string): (r: string)
    ensures |files| > 0 ==> |r| > 0
  {
    if |files| == 0 then "" else quote(files[0]) + " " + QuotedEach(files[1..], quote)
  }

  /** Every file quoted, with no separator (the `%f`/`%u` expansion). */
  function QuotedAll(files: seq<string>, quote: string -> string): string
  {
    if |files| == 0 then "" else quote(files[0]) + QuotedAll(files[1..], quote)
  }

  /** Replace `pat` in `s` when `s` contains it. */
  function ReplaceIfPresent(s: string, pat: string, rep: string): (r: string)
    requires |pat| > 0
    ensures !Contains(s, pat) ==> r == s
  {
    if Contains(s, pat) then ReplaceAll(s, pat, rep) else s
  }

  /** `app_exec_to_command_line` as written: each replacement is tested and
      made on the command as already rewritten, so quoted file names and the
      display name are scanned for the later codes. */
  function ExecToCommandLine(d: Desktop, files: seq<string>, quote: string -> string): (r: string)
    ensures !HasListCode(d.exec) && !HasFileCode(d.exec) ==> EndsWith(r, " " + QuotedEach(files, quote))
  {
    var each := QuotedEach(files, quote);
    var cmd1 := ListPass(d.exec, each);
    var cmd2 := FilePass(cmd1, QuotedAll(files, quote));
    var cmd3 := ReplaceIfPresent(cmd2, "%c", DispName(d));
    var cmd4 := ReplaceIfPresent(cmd3, "%i", "--icon " + d.iconName);
    if HasListCode(d.exec) || HasFileCode(cmd1) then cmd4 else cmd4 + " " + each
  }

  /** The `%F`/`%U` step of `app_exec_to_command_line`. */
  function ListPass(cmd: string, each: string): (r: string)
    ensures !HasListCode(cmd) ==> r == cmd
  {
    if HasListCode(cmd) then ReplaceIfPresent(ReplaceIfPresent(cmd, "%F", each), "%U", each) else cmd
  }

  /** The `%f`/`%u` step, applied to the command as the list step left it. */
  function FilePass(cmd: string, all: string): (r: string)
    ensures !HasFileCode(cmd) ==> r == cmd
  {
    if HasFileCode(cmd) then ReplaceIfPresent(ReplaceIfPresent(cmd, "%f", all), "%u", all) else cmd
  }

  /** Without field codes the command line is the command, a space, and the
      quoted files each followed by a space. */
  lemma CommandLinePlain(d: Desktop, files: seq<string>, quote: string -> string)
    requires NoCodes(d.exec)
    ensures ExecToCommandLine(d, files, quote) == d.exec + " " + QuotedEach(files, quote)
  {
  }

  /** A quoting that wraps its argument in single quotes. */
  function SingleQuote(s: string): (r: string)
    ensures |r| == |s| + 2 && r[0] == '\'' && r[|r| - 1] == '\''
  {
    "'" + s + "'"
  }

  /** A file whose quoted name contains `%f`, opened with a command ending in
      `%F`: the second pass expands that `%f` to the file list again, so the
      command names a file that was never selected (`app %F` with the file
      `50%foo`, single-quoted, gives `app '50'50%foo'oo' `). */
  lemma PercentInFileNameRewritten(d: Desktop, pre: string, f: string, quote: string -> string, x: string, y: string)
    requires d.exec == pre + "%F" && '%' !in pre
    requires quote(f) == x + "%f" + y && '%' !in x && '%' !in y
    ensures ExecToCommandLine(d, [f], quote) == pre + x + quote(f) + y + " "
  {
    var cmd2 := (pre + x + x) + "%f" + (y + y + " ");
    ListStage(d, pre, f, quote, x, y);
    FileStage(pre, f, quote, x, y);
    OnlyFile(pre + x + x, y + y + " ");
    ExecWithoutNameOrIcon(d, [f], quote, cmd2);
    NestedQuote(pre, x, y, quote(f));
  }

  /** The shape of the rewritten command: the quoted name around a second
      copy of itself. */
  lemma NestedQuote(pre: string, x: string, y: string, q: string)
    requires q == x + "%f" + y
    ensures (pre + x + x) + "%f" + (y + y + " ") == pre + x + q + y + " "
  {
  }

  /** For such a file the as-written command line differs from the one-pass
      expansion whenever the quoting adds anything around the `%f`. */
  lemma PercentInFileNameDiffers(d: Desktop, pre: string, f: string, quote: string -> string, x: string, y: string)
    requires d.exec == pre + "%F" && '%' !in pre
    requires quote(f) == x + "%f" + y && '%' !in x && '%' !in y
    requires |x| + |y| > 0
    ensures ExecToCommandLine(d, [f], quote) != CommandLine(d, [f], quote)
  {
    PercentInFileNameRewritten(d, pre, f, quote, x, y);
    ListCodeNamesVerbatim(pre, "%F", d, [f], quote);
    assert [f][1..] == [] && QuotedEach([], quote) == "";
    assert |ExecToCommandLine(d, [f], quote)| > |CommandLine(d, [f], quote)|;
  }

  /** The first pass of `PercentInFileNameRewritten`: `%F` becomes the quoted
      file and a space. */
  lemma ListStage(d: Desktop, pre: string, f: string, quote: string -> string, x: string, y: string)
    requires d.exec == pre + "%F" && '%' !in pre
    requires quote(f) == x + "%f" + y && '%' !in x && '%' !in y
    ensures HasListCode(d.exec)
    ensures ListPass(d.exec, QuotedEach([f], quote)) == (pre + x) + "%f" + (y + " ")
  {
    var each := QuotedEach([f], quote);
    assert [f][1..] == [] && QuotedEach([], quote) == "";
    assert each == x + "%f" + y + " ";
    OnlyList(pre, "");
    assert d.exec == pre + "%F" + "";
    ReplaceOnly(pre, "%F", "", each);
    var cmd1 := (pre + x) + "%f" + (y + " ");
    assert ReplaceIfPresent(d.exec, "%F", each) == cmd1;
    OnlyFile(pre + x, y + " ");
  }

  /** The second pass: the `%f` inside the quoted name becomes the quoted
      name again. */
  lemma FileStage(pre: string, f: string, quote: string -> string, x: string, y: string)
    requires '%' !in pre
    requires quote(f) == x + "%f" + y && '%' !in x && '%' !in y
    ensures var cmd1 := (pre + x) + "%f" + (y + " ");
      var all := QuotedAll([f], quote);
      HasFileCode(cmd1) && FilePass(cmd1, all) == (pre + x + x) + "%f" + (y + y + " ")
  {
    var p1 := pre + x;
    var s1 := y + " ";
    var cmd1 := p1 + "%f" + s1;
    var all := QuotedAll([f], quote);
    assert all == quote(f) by {
      assert [f][1..] == [] && QuotedAll([], quote) == "";
    }
    OnlyFile(p1, s1);
    assert Contains(cmd1, "%f");
    assert ReplaceAll(cmd1, "%f", all) == p1 + all + s1 by {
      ReplaceAfterPlain(p1, "%f", all, s1);
      NotContainsWithoutFirst(s1, "%f");
      ReplaceAbsent(s1, "%f", all);
    }
    var cmd2 := (pre + x + x) + "%f" + (y + y + " ");
    assert p1 + all + s1 == cmd2;
    assert ReplaceIfPresent(cmd1, "%f", all) == cmd2;
    OnlyFile(pre + x + x, y + y + " ");
    assert ReplaceIfPresent(cmd2, "%u", all) == cmd2;
  }

  /** The expansion in one left-to-right pass over the command: every field
      code of the COMMAND is expanded once and expansions are never rescanned,
      which is what the Desktop Entry Specification asks of the six codes
      handled here. It covers those codes only: `%%` is not read as a literal
      percent (`%%f` expands the files after a `%`), and any other code is
      kept as text rather than removed, as in `app_exec_to_command_line`. */
  function Expand(s: string, d: Desktop, files: seq<string>, quote: string -> string): (r: string)
    ensures '%' !in s ==> r == s
    decreases |s|
  {
    if |s| < 2 then s
    else if s[0] == '%' && Expansion(s[1], d, files, quote).Some? then
      Expansion(s[1], d, files, quote).value + Expand(s[2..], d, files, quote)
    else
      assert forall c :: c in s[1..] ==> c in s;
      [s[0]] + Expand(s[1..], d, files, quote)
  }

  /** What the code `%c` expands to, for the six codes handled. */
  function Expansion(c: char, d: Desktop, files: seq<string>, quote: string -> string): Option<string>
  {
    match c
    case 'F' => Some(QuotedEach(files, quote))
    case 'U' => Some(QuotedEach(files, quote))
    case 'f' => Some(QuotedAll(files, quote))
    case 'u' => Some(QuotedAll(files, quote))
    case 'c' => Some(DispName(d))
    case 'i' => Some("--icon " + d.iconName)
    case _ => None
  }

  /** The command line built in one pass; the files are appended when the
      command has no file code. */
  function CommandLine(d: Desktop, files: seq<string>, quote: string -> string): (r: string)
    ensures '%' !in d.exec ==> r == d.exec + " " + QuotedEach(files, quote)
  {
    NoPercentNoCodes(d.exec);
    var body := Expand(d.exec, d, files, quote);
    if HasListCode(d.exec) || HasFileCode(d.exec) then body else body + " " + QuotedEach(files, quote)
  }

  /** Text without `%` is copied unchanged in front of the rest's expansion. */
  lemma {:induction false} ExpandPlainPrefix(pre: string, rest: string, d: Desktop, files: seq<string>, quote: string -> string)
    requires '%' !in pre
    ensures Expand(pre + rest, d, files, quote) == pre + Expand(rest, d, files, quote)
    decreases |pre|
  {
    if |pre| > 0 {
      var s := pre + rest;
      assert s[0] == pre[0] && pre[0] in pre;
      assert s[1..] == pre[1..] + rest;
      ExpandPlainStep(s, d, files, quote);
      PlainTail(pre);
      ExpandPlainPrefix(pre[1..], rest, d, files, quote);
      assert pre == [pre[0]] + pre[1..];
    } else {
      assert pre + rest == rest;
    }
  }

  lemma PlainTail(pre: string)
    requires |pre| > 0 && '%' !in pre
    ensures '%' !in pre[1..]
  {
    assert forall c :: c in pre[1..] ==> c in pre;
  }

  lemma ExpandPlainStep(s: string, d: Desktop, files: seq<string>, quote: string -> string)
    requires |s| > 0 && s[0] != '%'
    ensures Expand(s, d, files, quote) == [s[0]] + Expand(s[1..], d, files, quote)
  {
    if |s| < 2 {
      assert s == [s[0]] && s[1..] == [];
    }
  }

  /** With the one-pass expansion a file-list code at the end of a plain
      command becomes exactly the quoted files, whatever their names contain. */
  lemma ListCodeNamesVerbatim(pre: string, code: string, d: Desktop, files: seq<string>, quote: string -> string)
    requires '%' !in pre && code in ["%F", "%U"] && d.exec == pre + code
    ensures CommandLine(d, files, quote) == pre + QuotedEach(files, quote)
  {
    ExpandPlainPrefix(pre, code, d, files, quote);
    assert code[0] == '%' && code[2..] == "";
    assert Expand(code, d, files, quote) == QuotedEach(files, quote) + Expand("", d, files, quote);
    assert OccursAt(d.exec, code, |pre|);
  }

  /** With the one-pass expansion a single-file code at the end of a plain
      command becomes the quoted files run together with no separator. */
  lemma FileCodeConcatenates(pre: string, code: string, d: Desktop, files: seq<string>, quote: string -> string)
    requires '%' !in pre && code in ["%f", "%u"] && d.exec == pre + code
    ensures CommandLine(d, files, quote) == pre + QuotedAll(files, quote)
  {
    ExpandPlainPrefix(pre, code, d, files, quote);
    assert code[0] == '%' && code[2..] == "";
    assert Expand(code, d, files, quote) == QuotedAll(files, quote) + Expand("", d, files, quote);
    assert OccursAt(d.exec, code, |pre|);
  }

  /** The as-written command line for a plain command ending in `%f` or `%u`,
      when no quoted name holds a `%`: the quoted files run together. */
  lemma ExecFileCodeConcatenates(pre: string, code: string, d: Desktop, files: seq<string>, quote: string -> string)
    requires '%' !in pre && code in ["%f", "%u"] && d.exec == pre + code
    requires forall i :: 0 <= i < |files| ==> '%' !in quote(files[i])
    ensures ExecToCommandLine(d, files, quote) == pre + QuotedAll(files, quote)
    ensures ExecToCommandLine(d, files, quote) == CommandLine(d, files, quote)
  {
    var all := QuotedAll(files, quote);
    QuotedAllPlain(files, quote);
    FilePassOnly(pre, code, all);
    assert ListPass(d.exec, QuotedEach(files, quote)) == d.exec;
    ExecWithoutLaterCodes(d, files, quote);
    FileCodeConcatenates(pre, code, d, files, quote);
  }

  /** The as-written command line for a plain command ending in `%F` or `%U`,
      when no quoted name holds a `%`: each quoted file followed by a space. */
  lemma ExecListCodeEach(pre: string, code: string, d: Desktop, files: seq<string>, quote: string -> string)
    requires '%' !in pre && code in ["%F", "%U"] && d.exec == pre + code
    requires forall i :: 0 <= i < |files| ==> '%' !in quote(files[i])
    ensures ExecToCommandLine(d, files, quote) == pre + QuotedEach(files, quote)
    ensures ExecToCommandLine(d, files, quote) == CommandLine(d, files, quote)
  {
    var each := QuotedEach(files, quote);
    QuotedEachPlain(files, quote);
    ListPassOnly(pre, code, each);
    NoPercentNoCodes(pre + each);
    assert FilePass(pre + each, QuotedAll(files, quote)) == pre + each;
    ExecWithoutLaterCodes(d, files, quote);
    ListCodeNamesVerbatim(pre, code, d, files, quote);
  }

  /** When the two file passes leave no `%` and one of them applied, the
      as-written command line is what they left. */
  lemma ExecWithoutLaterCodes(d: Desktop, files: seq<string>, quote: string -> string)
    requires var cmd1 := ListPass(d.exec, QuotedEach(files, quote));
      '%' !in FilePass(cmd1, QuotedAll(files, quote)) && (HasListCode(d.exec) || HasFileCode(cmd1))
    ensures ExecToCommandLine(d, files, quote)
            == FilePass(ListPass(d.exec, QuotedEach(files, quote)), QuotedAll(files, quote))
  {
    var cmd2 := FilePass(ListPass(d.exec, QuotedEach(files, quote)), QuotedAll(files, quote));
    NoPercentNoCodes(cmd2);
    ExecWithoutNameOrIcon(d, files, quote, cmd2);
  }

  /** When the two file passes leave no `%c` or `%i` and one of them applied,
      the as-written command line is what they left. */
  lemma ExecWithoutNameOrIcon(d: Desktop, files: seq<string>, quote: string -> string, cmd2: string)
    requires var cmd1 := ListPass(d.exec, QuotedEach(files, quote));
      cmd2 == FilePass(cmd1, QuotedAll(files, quote))
      && !Contains(cmd2, "%c") && !Contains(cmd2, "%i") && (HasListCode(d.exec) || HasFileCode(cmd1))
    ensures ExecToCommandLine(d, files, quote) == cmd2
  {
  }

  /** The file pass on a command whose only code is a closing `%f` or `%u`. */
  lemma FilePassOnly(pre: string, code: string, all: string)
    requires '%' !in pre && '%' !in all && code in ["%f", "%u"]
    ensures !HasListCode(pre + code) && HasFileCode(pre + code)
    ensures FilePass(pre + code, all) == pre + all
  {
    var s := pre + code + "";
    assert s == pre + code;
    assert code == ['%', code[1]];
    OnlyCodeAt(pre, code[1], "");
    assert OccursAt(s, code, |pre|);
    assert "%F" == ['%', 'F'] && "%U" == ['%', 'U'] && "%f" == ['%', 'f'];
    ReplaceOnly(pre, code, "", all);
    NoPercentNoCodes(pre + all);
    if code == "%f" {
      assert ReplaceIfPresent(s, "%f", all) == pre + all;
      assert ReplaceIfPresent(pre + all, "%u", all) == pre + all;
    } else {
      assert ReplaceIfPresent(s, "%f", all) == s;
      assert ReplaceIfPresent(s, "%u", all) == pre + all;
    }
  }

  /** The list pass on a command whose only code is a closing `%F` or `%U`. */
  lemma ListPassOnly(pre: string, code: string, each: string)
    requires '%' !in pre && '%' !in each && code in ["%F", "%U"]
    ensures HasListCode(pre + code)
    ensures ListPass(pre + code, each) == pre + each
  {
    var s := pre + code + "";
    assert s == pre + code;
    assert code == ['%', code[1]];
    OnlyCodeAt(pre, code[1], "");
    assert OccursAt(s, code, |pre|);
    assert "%F" == ['%', 'F'];
    ReplaceOnly(pre, code, "", each);
    NoPercentNoCodes(pre + each);
    if code == "%F" {
      assert ReplaceIfPresent(s, "%F", each) == pre + each;
      assert ReplaceIfPresent(pre + each, "%U", each) == pre + each;
    } else {
      assert ReplaceIfPresent(s, "%F", each) == s;
      assert ReplaceIfPresent(s, "%U", each) == pre + each;
    }
  }

  /** Quoted names without `%` run together hold no `%`. */
  lemma {:induction false} QuotedAllPlain(files: seq<string>, quote: string -> string)
    requires forall i :: 0 <= i < |files| ==> '%' !in quote(files[i])
    ensures '%' !in QuotedAll(files, quote)
  {
    if |files| > 0 {
      assert forall i :: 0 <= i < |files[1..]| ==> files[1..][i] == files[i + 1];
      QuotedAllPlain(files[1..], quote);
    }
  }

  /** Quoted names without `%`, each followed by a space, hold no `%`. */
  lemma {:induction false} QuotedEachPlain(files: seq<string>, quote: string -> string)
    requires forall i :: 0 <= i < |files| ==> '%' !in quote(files[i])
    ensures '%' !in QuotedEach(files, quote)
  {
    if |files| > 0 {
      assert forall i :: 0 <= i < |files[1..]| ==> files[1..][i] == files[i + 1];
      QuotedEachPlain(files[1..], quote);
    }
  }

  /** Without codes both forms agree with the as-written command line. */
  lemma CommandLineAgreesWithoutCodes(d: Desktop, files: seq<string>, quote: string -> string)
    requires '%' !in d.exec
    ensures CommandLine(d, files, quote) == ExecToCommandLine(d, files, quote)
  {
    ExpandPlainPrefix(d.exec, "", d, files, quote);
    assert d.exec + "" == d.exec;
    NoPercentNoCodes(d.exec);
  }

  lemma NoPercentNoCodes(s: string)
    ensures '%' !in s ==> NoCodes(s)
  {
    if '%' !in s {
      NotContainsWithoutFirst(s, "%F");
      NotContainsWithoutFirst(s, "%U");
      NotContainsWithoutFirst(s, "%f");
      NotContainsWithoutFirst(s, "%u");
      NotContainsWithoutFirst(s, "%c");
      NotContainsWithoutFirst(s, "%i");
    }
  }

  // ---------------------------------------------------------------------
  // Launching

  /** One process start: spawned with an argv, or run in a terminal as a
      command line under the display name. */
  datatype Launch =
    | Spawn(cwd: string, argv: seq<string>)
    | InTerminal(appName: string, cwd: string, command: string)

  /** The directory a launch runs in: the entry's `Path` when set, else the
      caller's working directory. */
  function LaunchDir(d: Desktop, workingDir: string): (r: string)
    ensures d.path != "" ==> r == d.path
    ensures d.path == "" ==> r == workingDir
  {
    if d.path != "" then d.path else workingDir
  }

  /** `exec_desktop`: at most one launch; an empty command line or argv
      launches nothing. The terminal form runs the command line as
      `app_exec_to_command_line` writes it. */
  function ExecDesktop(d: Desktop, workingDir: string, files: seq<string>, quote: string -> string)
    : (r: seq<Launch>)
    ensures |r| <= 1
    ensures forall l :: l in r ==> l.cwd == LaunchDir(d, workingDir)
    ensures forall l :: l in r ==> (l.InTerminal? <==> d.terminal)
    ensures !d.terminal ==>
      r == (if ExecToArgv(d, files) == [] then [] else [Spawn(LaunchDir(d, workingDir), ExecToArgv(d, files))])
    ensures d.terminal ==>
      var command := ExecToCommandLine(d, files, quote);
      r == (if command == "" then [] else [InTerminal(DispName(d), LaunchDir(d, workingDir), command)])
  {
    if d.terminal then
      var command := ExecToCommandLine(d, files, quote);
      if command == "" then [] else [InTerminal(DispName(d), LaunchDir(d, workingDir), command)]
    else
      var argv := ExecToArgv(d, files);
      if argv == [] then [] else [Spawn(LaunchDir(d, workingDir), argv)]
  }

  /** One `exec_desktop` per file, in order. */
  function EachFile(d: Desktop, workingDir: string, files: seq<string>, quote: string -> string)
    : (r: seq<Launch>)
    ensures |r| <= |files|
    ensures forall l :: l in r ==> l.cwd == LaunchDir(d, workingDir)
    ensures forall l :: l in r ==> (l.InTerminal? <==> d.terminal)
  {
    if |files| == 0 then []
    else ExecDesktop(d, workingDir, [files[0]], quote) + EachFile(d, workingDir, files[1..], quote)
  }

  /** `open_files`: an error naming the file when there is no command;
      otherwise one launch with every file when the application takes several,
      else one launch per file. */
  function OpenFiles(d: Desktop, workingDir: string, files: seq<string>, quote: string -> string)
    : (r: Result<seq<Launch>>)
    ensures r.Err? <==> d.exec == ""
    ensures r.Err? ==> r.msg == "Command not found\n\n" + d.fileName
    ensures r.Ok? && OpenMultipleFiles(d) ==> |r.value| <= 1
    ensures r.Ok? && !OpenMultipleFiles(d) ==> |r.value| <= |files|
    ensures r.Ok? ==> forall l :: l in r.value ==> l.cwd == LaunchDir(d, workingDir)
    ensures r.Ok? ==> forall l :: l in r.value ==> (l.InTerminal? <==> d.terminal)
  {
    if d.exec == "" then Err("Command not found\n\n" + d.fileName)
    else if OpenMultipleFiles(d) then Ok(ExecDesktop(d, workingDir, files, quote))
    else Ok(EachFile(d, workingDir, files, quote))
  }

  /** A launch that `Glib::spawn_async_with_pipes` refuses: a spawn whose
      program cannot be started. `canStart` stands for the `PATH` search and
      the start of the child, which lie outside the model. */
  predicate SpawnFails(l: Launch, canStart: string -> bool)
  {
    l.Spawn? && |l.argv| > 0 && !canStart(l.argv[0])
  }

  /** Every launch of a list can be started. */
  function AllStart(ls: seq<Launch>, canStart: string -> bool): (r: bool)
    ensures r <==> forall i :: 0 <= i < |ls| ==> !SpawnFails(ls[i], canStart)
  {
    if |ls| == 0 then true
    else
      var rest := AllStart(ls[1..], canStart);
      assert forall i :: 1 <= i < |ls| ==> ls[i] == ls[1..][i - 1];
      !SpawnFails(ls[0], canStart) && rest
  }

  /** `open_files` as written: a program that cannot be started makes
      `spawn_async_with_pipes` throw `Glib::SpawnError` out of the `noexcept`
      `exec_desktop`, which ends the process (`None`). Otherwise the outcome
      is the one `OpenFiles` states. `None` records only that the process
      ended: the launches before the failing one (with `%f` alone each file
      names its own program) did start, and which they were is not kept. */
  function OpenFilesAsWritten(d: Desktop, workingDir: string, files: seq<string>, quote: string -> string,
                              canStart: string -> bool): (r: Option<Result<seq<Launch>>>)
    ensures var o := OpenFiles(d, workingDir, files, quote);
      r.None? <==> o.Ok? && exists i :: 0 <= i < |o.value| && SpawnFails(o.value[i], canStart)
    ensures r.Some? ==> r.value == OpenFiles(d, workingDir, files, quote)
    ensures d.terminal ==> r == Some(OpenFiles(d, workingDir, files, quote))
  {
    var o := OpenFiles(d, workingDir, files, quote);
    assert o.Ok? ==> forall i :: 0 <= i < |o.value| ==> o.value[i] in o.value;
    if o.Ok? && !AllStart(o.value, canStart) then None else Some(o)
  }

  /** A plain command whose program cannot be started ends the process at the
      first file: the files after it are never launched. */
  lemma UnstartableEnds(d: Desktop, workingDir: string, files: seq<string>, quote: string -> string,
                        canStart: string -> bool)
    requires !d.terminal && d.exec != "" && NoCodes(d.exec) && |files| > 0
    requires !canStart(Split(d.exec, ' ')[0])
    ensures OpenFilesAsWritten(d, workingDir, files, quote, canStart) == None
  {
    ArgvPlain(d, [files[0]]);
    var l := Spawn(LaunchDir(d, workingDir), Split(d.exec, ' ') + [files[0]]);
    assert ExecDesktop(d, workingDir, [files[0]], quote) == [l];
    assert EachFile(d, workingDir, files, quote)[0] == l;
    assert SpawnFails(l, canStart);
  }

  /** A plain command without codes is spawned once per file, each time with
      the split command and that one file. */
  lemma {:induction false} OneSpawnPerFile(d: Desktop, workingDir: string, files: seq<string>, quote: string -> string)
    requires !d.terminal && NoCodes(d.exec)
    ensures EachFile(d, workingDir, files, quote) ==
      seq(|files|, i requires 0 <= i < |files| => Spawn(LaunchDir(d, workingDir), Split(d.exec, ' ') + [files[i]]))
  {
    if |files| > 0 {
      ArgvPlain(d, [files[0]]);
      OneSpawnPerFile(d, workingDir, files[1..], quote);
    }
  }

  /** A terminal application whose command has no field codes is run once,
      in its launch directory and under its display name, with the command,
      a space and every quoted file; without `%` in the command this is also
      what the corrected command line gives. */
  lemma TerminalPlainCommand(d: Desktop, workingDir: string, files: seq<string>, quote: string -> string)
    requires d.terminal && NoCodes(d.exec)
    ensures ExecDesktop(d, workingDir, files, quote) ==
      [InTerminal(DispName(d), LaunchDir(d, workingDir), d.exec + " " + QuotedEach(files, quote))]
    ensures '%' !in d.exec ==>
      ExecDesktop(d, workingDir, files, quote) ==
        [InTerminal(DispName(d), LaunchDir(d, workingDir), CommandLine(d, files, quote))]
  {
    CommandLinePlain(d, files, quote);
    if '%' !in d.exec {
      CommandLineAgreesWithoutCodes(d, files, quote);
    }
  }

  /** A command that takes a file list is launched once with every file. */
  lemma ListTakesAllAtOnce(d: Desktop, workingDir: string, files: seq<string>, quote: string -> string)
    requires !d.terminal && d.exec != "" && HasListCode(d.exec)
    requires ExecToArgv(d, files) != []
    ensures OpenFiles(d, workingDir, files, quote) ==
      Ok([Spawn(LaunchDir(d, workingDir), ExecToArgv(d, files))])
  {
  }
}
