/** The decisions of the file properties dialog
    (src/ptk/ptk-file-properties.cxx): the type/directory scan over the
    selection, the three-state permission buttons from creation to the OK
    response, the `touch` command for edited dates, the separator rows of
    the "open with" list and the size-count label. Widgets are reduced to
    their state: a toggle button is its `active` and `inconsistent` flags,
    an entry is its text. */
module FileProperties {
  import opened Wrappers
  import opened Strings
  import Paths

  // ---------------------------------------------------------------------
  // Selection scan

  /** A selected file as the scan sees it: its MIME type handle (compared as
      a handle, not as text) and whether it is a directory. */
  datatype Selected = Selected(name: string, mimeHandle: nat, isDir: bool)

  predicate SameTypeAs(files: seq<Selected>, n: nat)
    requires n <= |files|
  {
    forall i :: 0 <= i < n ==> files[i].mimeHandle == files[0].mimeHandle
  }

  predicate SomeDirectory(files: seq<Selected>, n: nat)
    requires n <= |files|
  {
    exists i :: 0 <= i < n && files[i].isDir
  }

  /** The scan of the dialog constructor: `sameType` starts true and
      `isDirs` false; each file compares its type with the first file's and
      raises `isDirs` for a directory; the loop stops early once both
      answers are settled. */
  method ScanSelection(files: seq<Selected>) returns (sameType: bool, isDirs: bool)
    ensures sameType <==> SameTypeAs(files, |files|)
    ensures isDirs <==> SomeDirectory(files, |files|)
  {
    sameType := true;
    isDirs := false;
    var i := 0;
    while i < |files|
      invariant 0 <= i <= |files|
      invariant sameType <==> SameTypeAs(files, i)
      invariant isDirs <==> SomeDirectory(files, i)
      invariant isDirs && !sameType ==> i > 0
    {
      if files[i].isDir {
        isDirs := true;
      }
      if files[i].mimeHandle != files[0].mimeHandle {
        sameType := false;
      }
      i := i + 1;
      if isDirs && !sameType {
        break;
      }
    }
    if i < |files| {
      assert !SameTypeAs(files, |files|) by {
        var k :| 0 <= k < i && files[k].mimeHandle != files[0].mimeHandle;
      }
      assert SomeDirectory(files, |files|) by {
        var k :| 0 <= k < i && files[k].isDir;
        assert 0 <= k < |files|;
      }
    }
  }

  // ---------------------------------------------------------------------
  // Permission buttons

  /** The twelve permission bits, in button order: owner, group and others
      read/write/execute, then set-uid, set-gid and sticky. */
  const ChmodCount: nat := 12

  /** A state of 2 means "leave this bit alone"; 0 and 1 are the bit. */
  const Untouched: int := 2

  datatype Button = Button(active: bool, inconsistent: bool)

  function Bit(b: bool): int
  {
    if b then 1 else 0
  }

  /** Several files selected: every state is "leave alone" and every button
      shows the mixed look. */
  function InitMultiple(buttons: seq<Button>): (r: (seq<int>, seq<Button>))
    requires |buttons| == ChmodCount
    ensures |r.0| == ChmodCount && |r.1| == ChmodCount
    ensures forall i :: 0 <= i < ChmodCount ==> r.0[i] == Untouched && r.1[i].inconsistent
    ensures forall i :: 0 <= i < ChmodCount ==> r.1[i].active == buttons[i].active
  {
    (seq(ChmodCount, i => Untouched),
     seq(ChmodCount, i requires 0 <= i < ChmodCount => buttons[i].(inconsistent := true)))
  }

  /** One file selected: a state that is not "leave alone" takes the file's
      permission bit, and its button is set to it. `states` is what the
      dialog's state array holds beforehand. */
  function InitSingle(states: seq<int>, buttons: seq<Button>, perms: seq<bool>): (r: (seq<int>, seq<Button>))
    requires |states| == ChmodCount && |buttons| == ChmodCount && |perms| == ChmodCount
    ensures |r.0| == ChmodCount && |r.1| == ChmodCount
    ensures forall i :: 0 <= i < ChmodCount && states[i] != Untouched ==>
      (r.0[i] == 1 <==> perms[i]) && r.0[i] in {0, 1} && r.1[i].active == perms[i]
    ensures forall i :: 0 <= i < ChmodCount && states[i] == Untouched ==>
      r.0[i] == Untouched && r.1[i] == buttons[i]
    ensures forall i :: 0 <= i < ChmodCount ==> r.1[i].inconsistent == buttons[i].inconsistent
  {
    (seq(ChmodCount, i requires 0 <= i < ChmodCount =>
       if states[i] != Untouched then Bit(perms[i]) else states[i]),
     seq(ChmodCount, i requires 0 <= i < ChmodCount =>
       if states[i] != Untouched then buttons[i].(active := perms[i]) else buttons[i]))
  }

  /** The toggle handler, connected only when several files are selected and
      run after the click has flipped `active`: a mixed button becomes a
      plain inactive one; a plain button that went inactive becomes mixed; a
      plain button that went active stays as it is. */
  function OnToggled(b: Button): (r: Button)
    ensures b.inconsistent ==> !r.active && !r.inconsistent
    ensures !b.inconsistent && !b.active ==> r.inconsistent && r.active == b.active
    ensures !b.inconsistent && b.active ==> r == b
  {
    if b.inconsistent then Button(false, false)
    else if !b.active then b.(inconsistent := true)
    else b
  }

  /** One click with several files selected: GTK flips `active`, then the
      handler runs. */
  function Click(b: Button): (r: Button)
    ensures !(r.active && r.inconsistent)
    ensures Settled(b) ==> Settled(r) && r != b
  {
    OnToggled(b.(active := !b.active))
  }

  /** One click with a single file selected: no handler is connected, so the
      button is a plain on/off toggle. */
  function PlainClick(b: Button): (r: Button)
    ensures r.active != b.active && r.inconsistent == b.inconsistent
  {
    b.(active := !b.active)
  }

  /** The three reachable looks: mixed, off, on. */
  predicate Settled(b: Button)
  {
    b == Button(false, true) || b == Button(false, false) || b == Button(true, false)
  }

  /** With several files selected, clicking cycles mixed -> off -> on ->
      mixed, so three clicks come back to the start and every click of a
      settled button gives a settled one. */
  lemma ClickCycles(b: Button)
    requires Settled(b)
    ensures Settled(Click(b))
    ensures Click(Click(Click(b))) == b
    ensures b == Button(false, true) ==> Click(b) == Button(false, false)
    ensures b == Button(false, false) ==> Click(b) == Button(true, false)
    ensures b == Button(true, false) ==> Click(b) == Button(false, true)
  {
  }

  /** What the OK response does with one bit: a mixed button leaves it
      alone, a plain button whose value differs from the recorded state sets
      it (and marks a permission change), an unchanged one leaves it alone. */
  function ResolveBit(state: int, b: Button): (r: (int, bool))
    ensures r.0 in {0, 1, 2}
    ensures r.1 <==> !b.inconsistent && state != Bit(b.active)
    ensures r.1 ==> r.0 == Bit(b.active)
    ensures !r.1 ==> r.0 == Untouched
  {
    if b.inconsistent then (Untouched, false)
    else if state != Bit(b.active) then (Bit(b.active), true)
    else (Untouched, false)
  }

  /** The loop of the OK response over the twelve bits: the final states,
      and whether it set the permission-change flag. */
  function Resolve(states: seq<int>, buttons: seq<Button>): (r: (seq<int>, bool))
    requires |states| == |buttons|
    ensures |r.0| == |states|
    ensures forall i :: 0 <= i < |states| ==> r.0[i] in {0, 1, 2}
    ensures forall i :: 0 <= i < |states| ==> r.0[i] == ResolveBit(states[i], buttons[i]).0
    ensures r.1 <==> exists i :: 0 <= i < |states| && ResolveBit(states[i], buttons[i]).1
    decreases |states|
  {
    if |states| == 0 then ([], false)
    else
      var head := ResolveBit(states[0], buttons[0]);
      var tail := Resolve(states[1..], buttons[1..]);
      assert forall i :: 1 <= i < |states| ==> states[1..][i - 1] == states[i] && buttons[1..][i - 1] == buttons[i];
      ([head.0] + tail.0, head.1 || tail.1)
  }

  /** Pressing OK without touching a button changes nothing: for one file
      every recorded state matches its button or is already "leave alone",
      for several files every button is mixed. */
  lemma {:induction false} UntouchedSingleChangesNothing(states: seq<int>, buttons: seq<Button>, perms: seq<bool>)
    requires |states| == ChmodCount && |buttons| == ChmodCount && |perms| == ChmodCount
    requires forall i :: 0 <= i < ChmodCount && states[i] == Untouched ==> buttons[i].inconsistent
    ensures var init := InitSingle(states, buttons, perms);
      var res := Resolve(init.0, init.1);
      !res.1 && forall i :: 0 <= i < ChmodCount ==> res.0[i] == Untouched
  {
    var init := InitSingle(states, buttons, perms);
    forall i | 0 <= i < ChmodCount
      ensures !ResolveBit(init.0[i], init.1[i]).1
    {
      if states[i] != Untouched {
        assert init.0[i] == Bit(perms[i]);
      }
    }
  }

  lemma UntouchedMultipleChangesNothing(buttons: seq<Button>)
    requires |buttons| == ChmodCount
    ensures var init := InitMultiple(buttons);
      var res := Resolve(init.0, init.1);
      !res.1 && forall i :: 0 <= i < ChmodCount ==> res.0[i] == Untouched
  {
    var init := InitMultiple(buttons);
    assert forall i :: 0 <= i < ChmodCount ==> !ResolveBit(init.0[i], init.1[i]).1;
  }

  /** With a single file selected, one click on a bit's button flips that
      bit and marks a permission change; a second click restores the button,
      and then nothing changes. */
  lemma ClickingFlipsBit(perm: bool)
    ensures var b := Button(perm, false);
      ResolveBit(Bit(perm), PlainClick(b)) == (Bit(!perm), true)
    ensures var b := Button(perm, false);
      ResolveBit(Bit(perm), PlainClick(PlainClick(b))) == (Untouched, false)
  {
  }

  // ---------------------------------------------------------------------
  // Dates

  /** An edited date counts only when it is not empty and differs from the
      recorded original (several files record no original). */
  function EditedTime(entry: string, orig: Option<string>): (r: Option<string>)
    ensures r.Some? <==> entry != "" && orig != Some(entry)
    ensures r.Some? ==> r.value == entry
  {
    if entry == "" || orig == Some(entry) then None else Some(entry)
  }

  /** The originals the constructor records for one file, as written: the
      access-time original is taken from the modification-time text. */
  function OriginalsAsWritten(mtimeText: string, atimeText: string): (r: (Option<string>, Option<string>))
    ensures r.0 == r.1 == Some(mtimeText)
  {
    (Some(mtimeText), Some(mtimeText))
  }

  /** The originals as evidently intended: each field's own text. */
  function Originals(mtimeText: string, atimeText: string): (r: (Option<string>, Option<string>))
    ensures r.0 == OriginalsAsWritten(mtimeText, atimeText).0
    ensures r == OriginalsAsWritten(mtimeText, atimeText) <==> atimeText == mtimeText
  {
    (Some(mtimeText), Some(atimeText))
  }

  const TouchM: string := "touch --no-dereference --no-create -m -d "
  const TouchA: string := "touch --no-dereference --no-create -a -d "

  /** The quoted paths, each after a space. */
  function QuotedPaths(dir: Paths.Path, names: seq<string>, quote: string -> string): string
  {
    if |names| == 0 then "" else " " + quote(Paths.JoinPath(dir, names[0])) + QuotedPaths(dir, names[1..], quote)
  }

  /** The date command of the OK response: nothing unless a date was edited
      and a file is selected; otherwise the `-m` touch, then the `-a` touch
      on a line of its own, each over all the paths. */
  function TouchCommand(newM: Option<string>, newA: Option<string>, dir: Paths.Path, names: seq<string>,
                        quote: string -> string): (r: Option<string>)
    ensures r.None? <==> (newM.None? && newA.None?) || |names| == 0
  {
    if (newM.None? && newA.None?) || |names| == 0 then None
    else
      var paths := QuotedPaths(dir, names, quote);
      var cmd := if newM.Some? then TouchM + quote(newM.value) + paths else "";
      if newA.Some? then
        Some(cmd + (if cmd == "" then "" else "\n") + TouchA + quote(newA.value) + paths)
      else Some(cmd)
  }

  /** With line-free quoting the command reads back, line by line, as one
      touch per edited field, modification time first. */
  lemma TouchCommandLines(m: Option<string>, a: Option<string>, dir: Paths.Path, names: seq<string>,
                          quote: string -> string)
    requires |names| > 0 && (m.Some? || a.Some?)
    requires forall s :: '\n' !in quote(s)
    ensures var paths := QuotedPaths(dir, names, quote);
      var lines := (if m.Some? then [TouchM + quote(m.value) + paths] else [])
                 + (if a.Some? then [TouchA + quote(a.value) + paths] else []);
      Split(TouchCommand(m, a, dir, names, quote).value, '\n') == lines
  {
    var paths := QuotedPaths(dir, names, quote);
    if m.Some? && a.Some? {
      TouchTwoLines(m.value, a.value, dir, names, quote);
    } else if m.Some? {
      assert '\n' !in TouchM;
      assert TouchCommand(m, a, dir, names, quote).value == TouchM + quote(m.value) + paths;
      OneTouchLine(TouchM, m.value, dir, names, quote);
    } else {
      assert '\n' !in TouchA;
      var la := TouchA + quote(a.value) + paths;
      assert TouchCommand(m, a, dir, names, quote).value == "" + "" + la;
      assert "" + "" + la == la;
      OneTouchLine(TouchA, a.value, dir, names, quote);
    }
  }

  /** A single `touch` line has no line break inside. */
  lemma OneTouchLine(prefix: string, v: string, dir: Paths.Path, names: seq<string>, quote: string -> string)
    requires '\n' !in prefix
    requires forall s :: '\n' !in quote(s)
    ensures var l := prefix + quote(v) + QuotedPaths(dir, names, quote);
      Split(l, '\n') == [l]
  {
    NoNewlineInPaths(dir, names, quote);
    var l := prefix + quote(v) + QuotedPaths(dir, names, quote);
    assert '\n' !in l;
    SplitPlain(l, '\n');
  }

  /** `TouchCommandLines` with both times edited: two lines, modification
      time first. */
  lemma TouchTwoLines(m: string, a: string, dir: Paths.Path, names: seq<string>, quote: string -> string)
    requires |names| > 0
    requires forall s :: '\n' !in quote(s)
    ensures var paths := QuotedPaths(dir, names, quote);
      Split(TouchCommand(Some(m), Some(a), dir, names, quote).value, '\n') ==
        [TouchM + quote(m) + paths, TouchA + quote(a) + paths]
  {
    var paths := QuotedPaths(dir, names, quote);
    NoNewlineInPaths(dir, names, quote);
    var lm := TouchM + quote(m) + paths;
    var la := TouchA + quote(a) + paths;
    assert '\n' !in lm && '\n' !in la;
    assert TouchCommand(Some(m), Some(a), dir, names, quote).value == lm + "\n" + la;
    SplitAfterPlain(lm, '\n', la);
    SplitPlain(la, '\n');
  }

  lemma {:induction false} NoNewlineInPaths(dir: Paths.Path, names: seq<string>, quote: string -> string)
    requires forall s :: '\n' !in quote(s)
    ensures '\n' !in QuotedPaths(dir, names, quote)
    decreases |names|
  {
    if |names| > 0 {
      NoNewlineInPaths(dir, names[1..], quote);
      assert '\n' !in quote(Paths.JoinPath(dir, names[0]));
    }
  }

  /** The date part of the OK response for one selected file, given the
      texts shown at creation, the entries at OK, and how originals were
      recorded. */
  function DateCommand(originals: (Option<string>, Option<string>), entryM: string, entryA: string,
                       dir: Paths.Path, names: seq<string>, quote: string -> string): (r: Option<string>)
    ensures entryM == "" && entryA == "" ==> r.None?
    ensures originals == (Some(entryM), Some(entryA)) ==> r.None?
    ensures r.Some? <==>
      |names| > 0 && (EditedTime(entryM, originals.0).Some? || EditedTime(entryA, originals.1).Some?)
  {
    TouchCommand(EditedTime(entryM, originals.0), EditedTime(entryA, originals.1), dir, names, quote)
  }

  /** As written, pressing OK on one file without editing the dates still
      runs a `touch -a` when its access and modification times differ. */
  lemma UneditedAccessTimeTouched(mtimeText: string, atimeText: string, dir: Paths.Path, name: string,
                                  quote: string -> string)
    requires atimeText != "" && atimeText != mtimeText
    ensures DateCommand(OriginalsAsWritten(mtimeText, atimeText), mtimeText, atimeText, dir, [name], quote)
      == Some(TouchA + quote(atimeText) + QuotedPaths(dir, [name], quote))
  {
    var o := OriginalsAsWritten(mtimeText, atimeText);
    assert EditedTime(mtimeText, o.0) == None;
    assert EditedTime(atimeText, o.1) == Some(atimeText);
    AccessOnlyCommand(atimeText, dir, [name], quote);
  }

  /** With each field's own original, unedited dates run nothing, and an
      edited date alone is touched. */
  lemma UneditedDatesRunNothing(mtimeText: string, atimeText: string, entryM: string, entryA: string,
                                dir: Paths.Path, names: seq<string>, quote: string -> string)
    ensures entryM == mtimeText && entryA == atimeText ==>
      DateCommand(Originals(mtimeText, atimeText), entryM, entryA, dir, names, quote) == None
    ensures entryM == mtimeText && entryA != atimeText && entryA != "" && |names| > 0 ==>
      DateCommand(Originals(mtimeText, atimeText), entryM, entryA, dir, names, quote)
      == Some(TouchA + quote(entryA) + QuotedPaths(dir, names, quote))
  {
    if entryM == mtimeText && entryA != atimeText && entryA != "" && |names| > 0 {
      AccessOnlyCommand(entryA, dir, names, quote);
    }
  }

  /** An access time edited alone gives the `-a` touch alone. */
  lemma AccessOnlyCommand(a: string, dir: Paths.Path, names: seq<string>, quote: string -> string)
    requires |names| > 0
    ensures TouchCommand(None, Some(a), dir, names, quote) == Some(TouchA + quote(a) + QuotedPaths(dir, names, quote))
  {
    var paths := QuotedPaths(dir, names, quote);
    var e: string := "";
    assert e + e + TouchA == TouchA;
  }

  // ---------------------------------------------------------------------
  // The "open with" list and the count label

  /** `combo_sep`: a row is a separator when its columns 2 and 1 (looked at
      in that order) are both empty. */
  function SeparatorFrom(row: seq<Option<string>>, i: nat): (r: bool)
    requires i < |row|
    ensures r <==> forall j :: 1 <= j <= i ==> row[j].None?
  {
    if i == 0 then true
    else if row[i].Some? then false
    else SeparatorFrom(row, i - 1)
  }

  function ComboSep(row: seq<Option<string>>): (r: bool)
    requires |row| > 2
    ensures r <==> row[1].None? && row[2].None?
  {
    SeparatorFrom(row, 2)
  }

  /** `on_update_labels`: the count text, and whether to keep polling. */
  function CountLabel(files: nat, dirs: nat, done: bool): (r: (string, bool))
    ensures r.1 <==> !done
  {
    var text :=
      if dirs != 0 then NatToString(files) + " file, " + NatToString(dirs) + " directory"
      else NatToString(files) + " files";
    (text, !done)
  }

  /** The label reads back: its words are the file count, then either
      `files`, or `file,`, the directory count and `directory`. */
  lemma CountLabelWords(files: nat, dirs: nat, done: bool)
    ensures dirs == 0 ==>
      Split(CountLabel(files, dirs, done).0, ' ') == [NatToString(files), "files"]
    ensures dirs != 0 ==>
      Split(CountLabel(files, dirs, done).0, ' ') == [NatToString(files), "file,", NatToString(dirs), "directory"]
    ensures ParseNat(Split(CountLabel(files, dirs, done).0, ' ')[0]) == files
  {
    var f := NatToString(files);
    var d := NatToString(dirs);
    assert ' ' !in f && ' ' !in d;
    ParseNatToString(files);
    if dirs == 0 {
      FilesWords(f);
    } else {
      DirectoryWords(f, d);
    }
  }

  lemma FilesWords(f: string)
    requires ' ' !in f
    ensures Split(f + " files", ' ') == [f, "files"]
  {
    var w := "files";
    assert f + " files" == f + [' '] + w;
    TwoWords(f, w);
  }

  /** Two separator-free words joined by one space split back into them. */
  lemma TwoWords(f: string, w: string)
    requires ' ' !in f && ' ' !in w
    ensures Split(f + [' '] + w, ' ') == [f, w]
  {
    SplitAfterPlain(f, ' ', w);
    SplitPlain(w, ' ');
  }

  lemma DirectoryWords(f: string, d: string)
    requires ' ' !in f && ' ' !in d
    ensures Split(f + " file, " + d + " directory", ' ') == [f, "file,", d, "directory"]
  {
    var words := [f, "file,", d, "directory"];
    assert ' ' !in "file," && ' ' !in "directory";
    JoinDirectoryWords(f, d);
    SplitJoin(words, ' ');
  }

  /** The count line is its four words joined by spaces. */
  lemma JoinDirectoryWords(f: string, d: string)
    ensures JoinWith([f, "file,", d, "directory"], ' ') == f + " file, " + d + " directory"
  {
    var words := [f, "file,", d, "directory"];
    assert words[1..][1..] == [d, "directory"];
    assert JoinWith(words[1..][1..], ' ') == d + " directory";
    assert JoinWith(words[1..], ' ') == "file, " + d + " directory";
  }
}
