/** Small string and path helpers shared by the whole model.
    Strings are `seq<char>`; no encoding or normalisation is modelled. */
module Wrappers {

  /** The conventional optional value (a nullable pointer or `std::optional`). */
  datatype Option<+T> = None | Some(value: T)

  /** A value or an error message (an exception thrown by the source). */
  datatype Result<+T> = Ok(value: T) | Err(msg: string)
}

module Strings {
  import opened Wrappers

  /** `pat` occurs in `s` at position `i`. */
  predicate OccursAt(s: string, pat: string, i: nat)
  {
    i + |pat| <= |s| && s[i..i + |pat|] == pat
  }

  /** `pat` occurs somewhere in `s` (`ztd::contains`, `std::string::contains`). */
  predicate Contains(s: string, pat: string)
  {
    exists i: nat :: i + |pat| <= |s| && OccursAt(s, pat, i)
  }

  predicate StartsWith(s: string, pre: string)
  {
    |pre| <= |s| && s[..|pre|] == pre
  }

  predicate EndsWith(s: string, suf: string)
  {
    |suf| <= |s| && s[|s| - |suf|..] == suf
  }

  /** Index of the first occurrence of `c` in `s`, or `|s|` when absent. */
  function IndexOf(s: string, c: char): (i: nat)
    ensures i <= |s|
    ensures i < |s| ==> s[i] == c
    ensures forall j :: 0 <= j < i ==> s[j] != c
  {
    if |s| == 0 then 0
    else if s[0] == c then 0
    else 1 + IndexOf(s[1..], c)
  }

  /** Index of the last occurrence of `c` in `s`, or `None`. */
  function LastIndexOf(s: string, c: char): (r: Option<nat>)
    ensures r.Some? ==> r.value < |s| && s[r.value] == c
    ensures r.Some? ==> forall j :: r.value < j < |s| ==> s[j] != c
    ensures r.None? ==> forall j :: 0 <= j < |s| ==> s[j] != c
  {
    if |s| == 0 then None
    else if s[|s| - 1] == c then Some(|s| - 1)
    else LastIndexOf(s[..|s| - 1], c)
  }

  /** Replace every non-overlapping occurrence of a non-empty `pat`, scanning left
      to right (`ztd::replace`). */
  function ReplaceAll(s: string, pat: string, rep: string): string
    requires |pat| > 0
    decreases |s|
  {
    if |s| < |pat| then s
    else if s[..|pat|] == pat then rep + ReplaceAll(s[|pat|..], pat, rep)
    else [s[0]] + ReplaceAll(s[1..], pat, rep)
  }

  lemma {:induction false} ReplaceAbsent(s: string, pat: string, rep: string)
    requires |pat| > 0
    requires !Contains(s, pat)
    ensures ReplaceAll(s, pat, rep) == s
    decreases |s|
  {
    if |s| >= |pat| {
      assert !OccursAt(s, pat, 0);
      assert s[..|pat|] != pat;
      forall i: nat | i + |pat| <= |s[1..]|
        ensures !OccursAt(s[1..], pat, i)
      {
        assert s[1..][i..i + |pat|] == s[i + 1..i + 1 + |pat|];
        assert !OccursAt(s, pat, i + 1);
      }
      ReplaceAbsent(s[1..], pat, rep);
    }
  }

  /** A string without the pattern's first character does not contain it. */
  lemma NotContainsWithoutFirst(s: string, pat: string)
    requires |pat| > 0 && pat[0] !in s
    ensures !Contains(s, pat)
  {
    forall i: nat | i + |pat| <= |s|
      ensures !OccursAt(s, pat, i)
    {
      assert s[i] in s;
      assert s[i..i + |pat|][0] == s[i];
    }
  }

  /** Replacing in `pre + pat + post`, where `pre` cannot start a match, copies
      `pre`, replaces this occurrence, and continues after it. */
  lemma {:induction false} ReplaceAfterPlain(pre: string, pat: string, rep: string, post: string)
    requires |pat| > 0 && pat[0] !in pre
    ensures ReplaceAll(pre + pat + post, pat, rep) == pre + rep + ReplaceAll(post, pat, rep)
    decreases |pre|
  {
    if |pre| == 0 {
      assert pre + pat + post == pat + post;
      ReplaceHere(pat, rep, post);
    } else {
      var s := pre + pat + post;
      var tail := pre[1..];
      assert s[0] == pre[0] && pre[0] in pre;
      ReplaceSkip(s, pat, rep);
      assert s[1..] == tail + pat + post;
      assert pat[0] !in tail by {
        assert forall k :: 0 <= k < |tail| ==> tail[k] == pre[k + 1];
      }
      ReplaceAfterPlain(tail, pat, rep, post);
      var r := ReplaceAll(post, pat, rep);
      assert [pre[0]] + (tail + rep + r) == ([pre[0]] + tail) + rep + r;
      assert [pre[0]] + tail == pre;
    }
  }

  lemma ReplaceHere(pat: string, rep: string, post: string)
    requires |pat| > 0
    ensures ReplaceAll(pat + post, pat, rep) == rep + ReplaceAll(post, pat, rep)
  {
    var s := pat + post;
    assert s[..|pat|] == pat && s[|pat|..] == post;
  }

  lemma ReplaceSkip(s: string, pat: string, rep: string)
    requires 0 < |pat| <= |s| && s[0] != pat[0]
    ensures ReplaceAll(s, pat, rep) == [s[0]] + ReplaceAll(s[1..], pat, rep)
  {
    assert s[..|pat|][0] == s[0];
  }

  /** A separator-free first piece splits off on its own. */
  lemma SplitAfterPlain(a: string, sep: char, rest: string)
    requires sep !in a
    ensures Split(a + [sep] + rest, sep) == [a] + Split(rest, sep)
  {
    var s := a + [sep] + rest;
    var i := IndexOf(s, sep);
    assert s[|a|] == sep;
    assert forall j :: 0 <= j < |a| ==> s[j] == a[j] && a[j] in a;
    assert i == |a|;
    assert s[..i] == a && s[i + 1..] == rest;
  }

  /** A separator-free string is one piece. */
  lemma SplitPlain(a: string, sep: char)
    requires sep !in a
    ensures Split(a, sep) == [a]
  {
    assert forall j :: 0 <= j < |a| ==> a[j] in a;
  }

  /** Python-style split on one separator character: `k` separators give `k + 1`
      pieces, empty pieces included (`ztd::split(s, " ")`). */
  function Split(s: string, sep: char): (r: seq<string>)
    ensures |r| >= 1
    ensures forall k :: 0 <= k < |r| ==> sep !in r[k]
    decreases |s|
  {
    var i := IndexOf(s, sep);
    assert forall j :: 0 <= j < i ==> s[..i][j] == s[j];
    if i == |s| then [s] else [s[..i]] + Split(s[i + 1..], sep)
  }

  /** Joining with one more, empty, piece appends a separator. */
  lemma {:induction false} JoinWithEmptyLast(parts: seq<string>, sep: char)
    requires |parts| >= 1
    ensures JoinWith(parts + [""], sep) == JoinWith(parts, sep) + [sep]
  {
    if |parts| == 1 {
      assert (parts + [""])[1..] == [""];
    } else {
      assert (parts + [""])[1..] == parts[1..] + [""];
      JoinWithEmptyLast(parts[1..], sep);
    }
  }

  /** The separator-joined concatenation that `Split` undoes. */
  function JoinWith(parts: seq<string>, sep: char): string
    requires |parts| >= 1
  {
    if |parts| == 1 then parts[0] else parts[0] + [sep] + JoinWith(parts[1..], sep)
  }

  lemma {:induction false} SplitJoin(parts: seq<string>, sep: char)
    requires |parts| >= 1
    requires forall k :: 0 <= k < |parts| ==> sep !in parts[k]
    ensures Split(JoinWith(parts, sep), sep) == parts
  {
    var s := JoinWith(parts, sep);
    if |parts| == 1 {
      assert IndexOf(s, sep) == |s|;
    } else {
      var p := parts[0];
      assert s == p + [sep] + JoinWith(parts[1..], sep);
      var i := IndexOf(s, sep);
      assert s[|p|] == sep;
      assert forall j :: 0 <= j < |p| ==> s[j] == p[j];
      assert i == |p|;
      assert s[..i] == p;
      assert s[i + 1..] == JoinWith(parts[1..], sep);
      SplitJoin(parts[1..], sep);
      assert Split(s, sep) == [p] + parts[1..];
    }
  }

  /** Parts each followed by the separator split back into the parts and a
      final empty piece. */
  lemma SplitTerminated(parts: seq<string>, sep: char)
    requires |parts| >= 1
    requires forall k :: 0 <= k < |parts| ==> sep !in parts[k]
    ensures Split(JoinWith(parts, sep) + [sep], sep) == parts + [""]
  {
    var all := parts + [""];
    forall k | 0 <= k < |all|
      ensures sep !in all[k]
    {
      if k < |parts| {
        assert all[k] == parts[k];
      }
    }
    JoinWithEmptyLast(parts, sep);
    SplitJoin(all, sep);
  }

  /** Concatenation of a sequence of strings. */
  function Concat(xs: seq<string>): string
  {
    if |xs| == 0 then [] else xs[0] + Concat(xs[1..])
  }

  /** Decimal digit of `d`. */
  function Digit(d: nat): char
    requires d < 10
  {
    ['0', '1', '2', '3', '4', '5', '6', '7', '8', '9'][d]
  }

  /** Decimal rendering of a natural number (`std::to_string`, `fmt::format("{}")`). */
  function NatToString(n: nat): (r: string)
    ensures |r| >= 1
    ensures forall k :: 0 <= k < |r| ==> '0' <= r[k] <= '9'
    decreases n
  {
    if n < 10 then [Digit(n)] else NatToString(n / 10) + [Digit(n % 10)]
  }

  /** Decimal rendering of an integer, with a leading minus sign when negative. */
  function IntToString(i: int): string
  {
    if i < 0 then "-" + NatToString(-i) else NatToString(i)
  }

  /** Value of a string of decimal digits: the reference for `NatToString`. */
  function ParseNat(s: string): nat
    requires forall k :: 0 <= k < |s| ==> '0' <= s[k] <= '9'
  {
    if |s| == 0 then 0 else 10 * ParseNat(s[..|s| - 1]) + (s[|s| - 1] as int - '0' as int)
  }

  lemma {:induction false} ParseNatToString(n: nat)
    ensures ParseNat(NatToString(n)) == n
    decreases n
  {
    var r := NatToString(n);
    if n < 10 {
      DigitValue(n);
      assert r[..|r| - 1] == [];
    } else {
      var q := NatToString(n / 10);
      assert r == q + [Digit(n % 10)];
      assert r[..|r| - 1] == q;
      DigitValue(n % 10);
      ParseNatToString(n / 10);
    }
  }

  lemma DigitValue(d: nat)
    requires d < 10
    ensures Digit(d) as int - '0' as int == d
  {
  }

  /** Characters `ztd::strip` removes at either end. */
  predicate IsSpace(c: char)
  {
    c == ' ' || c == '\t' || c == '\n' || c == '\r' || c == '\U{000B}' || c == '\U{000C}'
  }

  function StripLeft(s: string): (r: string)
    ensures |r| <= |s|
    ensures |r| > 0 ==> !IsSpace(r[0])
    ensures r == s[|s| - |r|..]
  {
    if |s| > 0 && IsSpace(s[0]) then StripLeft(s[1..]) else s
  }

  function StripRight(s: string): (r: string)
    ensures |r| <= |s|
    ensures |r| > 0 ==> !IsSpace(r[|r| - 1])
    ensures r == s[..|r|]
  {
    if |s| > 0 && IsSpace(s[|s| - 1]) then StripRight(s[..|s| - 1]) else s
  }

  /** Remove leading and trailing white space. */
  function Strip(s: string): string
  {
    StripRight(StripLeft(s))
  }

  /** A string with no white space at either end. */
  predicate Stripped(s: string)
  {
    |s| > 0 ==> !IsSpace(s[0]) && !IsSpace(s[|s| - 1])
  }

  lemma StripIsStripped(s: string)
    ensures Stripped(Strip(s))
  {
    var l := StripLeft(s);
    var r := StripRight(l);
    if |r| > 0 {
      assert r == l[..|r|];
      assert r[0] == l[0];
    }
  }

  lemma {:induction false} StripIdentity(s: string)
    requires Stripped(s)
    ensures Strip(s) == s
  {
  }
}

/** Paths as strings, with `/` as the separator. */
module Paths {
  import opened Wrappers
  import opened Strings

  type Path = string

  predicate IsAbsolute(p: Path)
  {
    |p| > 0 && p[0] == '/'
  }

  /** A plain file name: one path component. */
  predicate IsName(n: string)
  {
    '/' !in n
  }

  /** `p / n` for a relative `n` (`std::filesystem::path::operator/`): a
      separator is inserted unless `p` is empty or already ends with one. */
  function JoinPath(p: Path, n: string): (r: Path)
    ensures EndsWith(r, n)
  {
    if |p| == 0 then n
    else if p[|p| - 1] == '/' then p + n
    else p + "/" + n
  }

  /** `path::filename()`: the text after the last separator. */
  function Basename(p: Path): (r: string)
    ensures IsName(r)
  {
    match LastIndexOf(p, '/')
    case None => p
    case Some(i) => p[i + 1..]
  }

  /** `path::parent_path()` for a path without repeated separators. */
  function ParentPath(p: Path): Path
  {
    match LastIndexOf(p, '/')
    case None => ""
    case Some(i) => if i == 0 then "/" else p[..i]
  }

  lemma BasenameJoin(p: Path, n: string)
    requires IsName(n)
    ensures Basename(JoinPath(p, n)) == n
  {
    var r := JoinPath(p, n);
    var k := |r| - |n|;
    assert r[k..] == n;
    forall j | k <= j < |r|
      ensures r[j] != '/'
    {
      assert r[j] == n[j - k];
    }
    if |p| > 0 {
      assert r[k - 1] == '/';
      assert LastIndexOf(r, '/') == Some(k - 1);
    } else {
      assert r == n;
      assert LastIndexOf(r, '/') == None;
    }
  }
}
