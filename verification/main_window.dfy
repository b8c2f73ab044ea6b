/** The decisions inside the main window (src/main-window.cxx): which panel
    the prev/next/hide commands move to, how a panel shares space with the
    others, which tab or panel a relative request names, the window title,
    the restored slider positions and the panel-menu switches. GTK state is
    reduced to what these decisions read: the panels whose show flag is set
    (`shown`), the panels whose notebook is visible (`visible`), and page
    counts. */
module MainWindow {
  import opened Wrappers
  import opened Strings
  import Paths
  import opened PanelTypes

  /** The `k`-th panel after `cur` in cyclic order 1, 2, 3, 4, 1, ... */
  function After(cur: int, k: int): (p: int)
    requires IsValidPanel(cur) && 0 <= k <= 4
    ensures IsValidPanel(p)
  {
    if cur + k > 4 then cur + k - 4 else cur + k
  }

  /** The `k`-th panel before `cur` in cyclic order. */
  function Before(cur: int, k: int): (p: int)
    requires IsValidPanel(cur) && 0 <= k <= 4
    ensures IsValidPanel(p)
  {
    if cur - k < 1 then cur - k + 4 else cur - k
  }

  /** The first panel of `order` whose show flag is set. */
  function FirstShown(order: seq<int>, shown: set<int>): (r: Option<int>)
    ensures r.Some? ==> r.value in order && r.value in shown
    ensures r.None? <==> forall i :: 0 <= i < |order| ==> order[i] !in shown
    ensures r.Some? && |order| > 0 && order[0] in shown ==> r.value == order[0]
  {
    if |order| == 0 then None
    else if order[0] in shown then Some(order[0])
    else
      assert forall i :: 1 <= i < |order| ==> order[i] == order[1..][i - 1];
      FirstShown(order[1..], shown)
  }

  // ---------------------------------------------------------------------
  // focus_panel

  /** The `next` and `hide` scans of `focus_panel` as written: wrap an
      invalid number to panel 1, stop at a shown panel, else step forward
      and repeat until the number reaches `stop`. `fuel` bounds the number
      of passes; `None` means the loop has not ended within it. */
  function ForwardScan(pf: int, stop: int, shown: set<int>, fuel: nat): (r: Option<int>)
    ensures r.Some? ==> r.value == stop || (r.value in shown && IsValidPanel(r.value))
    decreases fuel
  {
    if fuel == 0 then None
    else
      var p := if !IsValidPanel(pf) then 1 else pf;
      if p in shown then Some(p)
      else if p + 1 == stop then Some(p + 1)
      else ForwardScan(p + 1, stop, shown, fuel - 1)
  }

  /** The `prev` scan: wrap below panel 1 to panel 4, stop at a shown panel,
      else step back until the number reaches `stop`. */
  function BackwardScan(pf: int, stop: int, shown: set<int>, fuel: nat): (r: Option<int>)
    ensures r.Some? ==> r.value == stop || (r.value in shown && r.value >= MinPanels)
    decreases fuel
  {
    if fuel == 0 then None
    else
      var p := if pf < 1 then 4 else pf;
      if p in shown then Some(p)
      else if p - 1 == stop then Some(p - 1)
      else BackwardScan(p - 1, stop, shown, fuel - 1)
  }

  /** The four panels after `cur`, ending with `cur` itself. */
  function NextOrder(cur: int): seq<int>
    requires IsValidPanel(cur)
  {
    [After(cur, 1), After(cur, 2), After(cur, 3), After(cur, 4)]
  }

  function PrevOrder(cur: int): seq<int>
    requires IsValidPanel(cur)
  {
    [Before(cur, 1), Before(cur, 2), Before(cur, 3), Before(cur, 4)]
  }

  /** `FirstShown` on a literal order of four panels is the chain of tests. */
  lemma FirstShownOfFour(a: int, b: int, c: int, d: int, shown: set<int>)
    ensures FirstShown([a, b, c, d], shown) ==
      if a in shown then Some(a) else if b in shown then Some(b)
      else if c in shown then Some(c) else if d in shown then Some(d) else None
  {
    assert [a, b, c, d][1..] == [b, c, d];
    FirstShownOfThree(b, c, d, shown);
  }

  lemma FirstShownOfThree(a: int, b: int, c: int, shown: set<int>)
    ensures FirstShown([a, b, c], shown) ==
      if a in shown then Some(a) else if b in shown then Some(b)
      else if c in shown then Some(c) else None
  {
    assert [a, b, c][1..] == [b, c];
    assert [b, c][1..] == [c];
    assert [c][1..] == [];
    assert FirstShown([c], shown) == if c in shown then Some(c) else FirstShown([], shown);
    assert FirstShown([b, c], shown) == if b in shown then Some(b) else FirstShown([c], shown);
  }

  /** `next` ends within four passes on the first shown panel after the
      current one in cyclic order (the current one last); with nothing shown
      it ends on `cur + 1`, which is no panel when `cur` is 4. */
  lemma NextPicksFirstShown(cur: int, shown: set<int>)
    requires IsValidPanel(cur)
    ensures ForwardScan(cur + 1, cur + 1, shown, 4) ==
      match FirstShown(NextOrder(cur), shown)
      case Some(p) => Some(p)
      case None => Some(cur + 1)
  {
    var o := NextOrder(cur);
    assert o == [o[0], o[1], o[2], o[3]];
    FirstShownOfFour(o[0], o[1], o[2], o[3], shown);
    if cur == 1 {
      assert o == [2, 3, 4, 1];
    } else if cur == 2 {
      assert o == [3, 4, 1, 2];
    } else if cur == 3 {
      assert o == [4, 1, 2, 3];
    } else {
      assert o == [1, 2, 3, 4];
    }
  }

  /** `prev` ends within four passes on the first shown panel before the
      current one; with nothing shown it ends on `cur - 1`. */
  lemma PrevPicksFirstShown(cur: int, shown: set<int>)
    requires IsValidPanel(cur)
    ensures BackwardScan(cur - 1, cur - 1, shown, 4) ==
      match FirstShown(PrevOrder(cur), shown)
      case Some(p) => Some(p)
      case None => Some(cur - 1)
  {
    var o := PrevOrder(cur);
    assert o == [o[0], o[1], o[2], o[3]];
    FirstShownOfFour(o[0], o[1], o[2], o[3], shown);
    if cur == 1 {
      assert o == [4, 3, 2, 1];
    } else if cur == 2 {
      assert o == [1, 4, 3, 2];
    } else if cur == 3 {
      assert o == [2, 1, 4, 3];
    } else {
      assert o == [3, 2, 1, 4];
    }
  }

  /** The `hide` scan as written: start after the panel being hidden and
      stop on reaching it; ending on it means no other panel is shown (0). */
  function HideScan(cur: int, shown: set<int>, fuel: nat): (r: Option<int>)
    ensures r.Some? ==> r.value == InvalidPanel || (r.value != cur && r.value in shown && IsValidPanel(r.value))
  {
    match ForwardScan(cur + 1, cur, shown, fuel)
    case None => None
    case Some(p) => Some(if p == cur then 0 else p)
  }

  /** Panel 1 is the only start whose scan can pass over the hidden panel:
      with panel 1 current and no panel shown, the stop value 1 is never
      reached (the scan wraps from 5 to 1 and steps on to 2), so the loop
      never ends, however many passes are allowed. */
  lemma {:induction false} HideFromPanelOneNeverEnds(pf: int, shown: set<int>, fuel: nat)
    requires forall p :: IsValidPanel(p) ==> p !in shown
    requires 1 <= pf <= 5
    ensures ForwardScan(pf, 1, shown, fuel) == None
    decreases fuel
  {
    if fuel > 0 {
      var p := if !IsValidPanel(pf) then 1 else pf;
      assert p !in shown;
      HideFromPanelOneNeverEnds(p + 1, shown, fuel - 1);
    }
  }

  lemma HideLoopsWithNothingShown(fuel: nat)
    ensures HideScan(1, {}, fuel) == None
  {
    HideFromPanelOneNeverEnds(2, {}, fuel);
  }

  /** The target of `hide` as evidently intended: the first shown panel among
      the three others, in cyclic order after the hidden one. */
  function HideTarget(cur: int, shown: set<int>): (r: Option<int>)
    requires IsValidPanel(cur)
    ensures r.Some? ==> r.value != cur && r.value in shown && IsValidPanel(r.value)
    ensures r.None? <==> forall p :: IsValidPanel(p) && p != cur ==> p !in shown
  {
    var order := [After(cur, 1), After(cur, 2), After(cur, 3)];
    assert forall p :: IsValidPanel(p) && p != cur ==> p in order;
    FirstShown(order, shown)
  }

  /** Wherever the written scan ends — any current panel but 1, or panel 1
      while it is shown — it picks the intended target, or 0 for none. */
  lemma HideScanAgrees(cur: int, shown: set<int>)
    requires IsValidPanel(cur)
    requires cur != 1 || 1 in shown
    ensures HideScan(cur, shown, 4) ==
      match HideTarget(cur, shown)
      case Some(p) => Some(p)
      case None => Some(0)
  {
    var o := [After(cur, 1), After(cur, 2), After(cur, 3)];
    FirstShownOfThree(o[0], o[1], o[2], shown);
    if cur == 1 {
      assert o == [2, 3, 4];
    } else if cur == 2 {
      assert o == [3, 4, 1];
    } else if cur == 3 {
      assert o == [4, 1, 2];
    } else {
      assert o == [1, 2, 3];
    }
  }

  /** The window state `focus_panel` changes: the current panel and the show
      flags. */
  datatype Window = Window(cur: int, shown: set<int>)

  /** The tail of `focus_panel` as written, for a scan result `pf`: a visible
      target takes the focus; an invisible one is shown and focused, except
      for `hide`, which then clears the hidden panel's flag. Nothing happens
      for an invalid target. */
  function Settle(w: Window, code: int, pf: int, visible: set<int>): (r: Window)
    ensures !IsValidPanel(pf) ==> r == w
    ensures IsValidPanel(pf) && pf in visible ==> r == w.(cur := pf)
  {
    if !IsValidPanel(pf) then w
    else if pf in visible then w.(cur := pf)
    else if code != PanelHide then Window(pf, w.shown + {pf})
    else w.(shown := w.shown - {w.cur})
  }

  /** `MainWindow::focus_panel` as written; `None` when the hide scan does not
      end. Any code that is not a control code names the panel directly. */
  function FocusPanelAsWritten(w: Window, code: int, visible: set<int>): (r: Option<Window>)
    requires IsValidPanel(w.cur)
    ensures r.Some? ==> IsValidPanel(r.value.cur)
    ensures code == PanelHide && r.Some? ==> r.value.shown <= w.shown
    ensures code != PanelHide && r.Some? ==> w.shown <= r.value.shown
  {
    var pf :=
      if code == PanelPrev then BackwardScan(w.cur - 1, w.cur - 1, w.shown, 4)
      else if code == PanelNext then ForwardScan(w.cur + 1, w.cur + 1, w.shown, 4)
      else if code == PanelHide then HideScan(w.cur, w.shown, 4)
      else Some(code);
    match pf
    case None => None
    case Some(p) => Some(Settle(w, code, p, visible))
  }

  /** As written, `hide` with a visible target only moves the focus: the
      panel that was to be hidden keeps its show flag. */
  lemma HideKeepsPanelWhenTargetVisible()
    ensures FocusPanelAsWritten(Window(2, {1, 2}), PanelHide, {1, 2}) == Some(Window(1, {1, 2}))
  {
    HideScanAgrees(2, {1, 2});
    assert HideTarget(2, {1, 2}) == Some(1) by {
      assert [After(2, 1), After(2, 2), After(2, 3)] == [3, 4, 1];
    }
  }

  /** `focus_panel` as evidently intended: `hide` always clears the hidden
      panel's flag when another panel is shown, and moves the focus to that
      panel when its notebook is visible. */
  function FocusPanel(w: Window, code: int, visible: set<int>): (r: Window)
    requires IsValidPanel(w.cur)
    ensures code == PanelHide && HideTarget(w.cur, w.shown).Some? ==>
      w.cur !in r.shown && r.shown == w.shown - {w.cur}
    ensures code == PanelHide && HideTarget(w.cur, w.shown).None? ==> r == w
    ensures code == PanelHide && HideTarget(w.cur, w.shown).Some? && HideTarget(w.cur, w.shown).value in visible ==>
      r.cur == HideTarget(w.cur, w.shown).value && r.cur in r.shown
  {
    if code == PanelHide then
      match HideTarget(w.cur, w.shown)
      case None => w
      case Some(p) =>
        if p in visible then Window(p, w.shown - {w.cur}) else w.(shown := w.shown - {w.cur})
    else
      var pf :=
        if code == PanelPrev then BackwardScan(w.cur - 1, w.cur - 1, w.shown, 4)
        else if code == PanelNext then ForwardScan(w.cur + 1, w.cur + 1, w.shown, 4)
        else Some(code);
      match pf
      case None => w
      case Some(p) => Settle(w, code, p, visible)
  }

  /** The corrected command only differs from the written one on `hide`. */
  lemma FocusPanelAgreesOffHide(w: Window, code: int, visible: set<int>)
    requires IsValidPanel(w.cur) && code != PanelHide
    ensures FocusPanelAsWritten(w, code, visible) == Some(FocusPanel(w, code, visible))
  {
    if code == PanelPrev {
      PrevPicksFirstShown(w.cur, w.shown);
    } else if code == PanelNext {
      NextPicksFirstShown(w.cur, w.shown);
    }
  }

  /** `next` moves the focus to the first shown panel after the current one
      when that panel's notebook is visible. */
  lemma NextFocusesFirstShown(w: Window, visible: set<int>)
    requires IsValidPanel(w.cur)
    requires FirstShown(NextOrder(w.cur), w.shown).Some?
    requires FirstShown(NextOrder(w.cur), w.shown).value in visible
    ensures FocusPanel(w, PanelNext, visible) == w.(cur := FirstShown(NextOrder(w.cur), w.shown).value)
  {
    NextPicksFirstShown(w.cur, w.shown);
  }

  // ---------------------------------------------------------------------
  // Panel context (show_panels)

  datatype Context = Both | Horiz | Vert | Neither

  /** The panel sharing `p`'s row (1 with 2, 3 with 4). */
  function RowPartner(p: int): (q: int)
    requires IsValidPanel(p)
    ensures IsValidPanel(q) && q != p
  {
    if p == 1 then 2 else if p == 2 then 1 else if p == 3 then 4 else 3
  }

  /** Whether some panel of the other row is shown. */
  predicate OtherRowShown(p: int, shown: set<int>)
    requires IsValidPanel(p)
  {
    if p <= 2 then 3 in shown || 4 in shown else 1 in shown || 2 in shown
  }

  /** How panel `p` shares space: horizontally with its row partner,
      vertically with the other row. */
  function PanelContext(p: int, shown: set<int>): (c: Context)
    requires IsValidPanel(p)
    ensures c == Both <==> RowPartner(p) in shown && OtherRowShown(p, shown)
    ensures c == Horiz <==> RowPartner(p) in shown && !OtherRowShown(p, shown)
    ensures c == Vert <==> RowPartner(p) !in shown && OtherRowShown(p, shown)
    ensures c == Neither <==> RowPartner(p) !in shown && !OtherRowShown(p, shown)
  {
    var horiz := RowPartner(p) in shown;
    var vert := OtherRowShown(p, shown);
    if horiz && vert then Both else if horiz then Horiz else if vert then Vert else Neither
  }

  /** A panel's own show flag never changes its context. */
  lemma ContextIgnoresOwnFlag(p: int, shown: set<int>)
    requires IsValidPanel(p)
    ensures PanelContext(p, shown + {p}) == PanelContext(p, shown - {p})
  {
  }

  /** Row partners agree on the vertical split: both or neither share
      vertical space. */
  lemma PartnersShareVertical(p: int, shown: set<int>)
    requires IsValidPanel(p)
    ensures PanelContext(p, shown) in {Both, Vert} <==> PanelContext(RowPartner(p), shown) in {Both, Vert}
  {
  }

  // ---------------------------------------------------------------------
  // Tab and panel lookups

  /** What the lookups read through a file browser: the panel it sits in,
      the panels of its window whose notebook is visible, its 0-based page
      number in its panel's notebook and the working directory of each page
      there. */
  datatype BrowserView = BrowserView(panel: int, visible: set<int>, pageNum: nat, tabCwds: seq<Paths.Path>)

  /** The page a tab request names, counting from 0, for a requesting page
      `pageNum`; tab numbers count from 1. */
  function TabIndex(tab: int, pageNum: int): (x: int)
    ensures tab == TabPrev ==> x == pageNum - 1
    ensures tab == TabNext ==> x == pageNum + 1
    ensures tab != TabPrev && tab != TabNext ==> x + 1 == tab
  {
    if tab == TabPrev then pageNum - 1
    else if tab == TabNext then pageNum + 1
    else tab - 1
  }

  /** `main_window_get_tab_cwd`: nothing without a browser; otherwise the
      working directory of the page the request names, if there is one. */
  function TabCwd(browser: Option<BrowserView>, tab: int): (r: Option<Paths.Path>)
    ensures browser.None? ==> r == None
    ensures browser.Some? ==>
      (r.Some? <==> 0 <= TabIndex(tab, browser.value.pageNum) < |browser.value.tabCwds|)
    ensures browser.Some? && r.Some? ==> r.value == browser.value.tabCwds[TabIndex(tab, browser.value.pageNum)]
  {
    match browser
    case None => None
    case Some(b) =>
      var x := TabIndex(tab, b.pageNum);
      if x > -1 && x < |b.tabCwds| then Some(b.tabCwds[x]) else None
  }

  /** `prev` from the first tab and `next` from the last name no tab; a tab
      number names its own page. */
  lemma TabCwdAtEnds(b: BrowserView)
    requires b.pageNum < |b.tabCwds|
    ensures b.pageNum == 0 ==> TabCwd(Some(b), TabPrev) == None
    ensures b.pageNum == |b.tabCwds| - 1 ==> TabCwd(Some(b), TabNext) == None
    ensures TabCwd(Some(b), b.pageNum + 1) == Some(b.tabCwds[b.pageNum])
  {
  }

  /** The `prev` loop of `main_window_get_panel_cwd`: step back (wrapping to
      4), give up on returning to `panel`, stop at a visible panel. */
  function PrevVisible(px: int, panel: int, visible: set<int>, fuel: nat): Option<int>
    decreases fuel
  {
    if fuel == 0 then None
    else
      var p := if px - 1 < 1 then 4 else px - 1;
      if p == panel then None
      else if p in visible then Some(p)
      else PrevVisible(p, panel, visible, fuel - 1)
  }

  /** The `next` loop: step forward (wrapping to 1). */
  function NextVisible(px: int, panel: int, visible: set<int>, fuel: nat): Option<int>
    decreases fuel
  {
    if fuel == 0 then None
    else
      var p := if !IsValidPanel(px + 1) then 1 else px + 1;
      if p == panel then None
      else if p in visible then Some(p)
      else NextVisible(p, panel, visible, fuel - 1)
  }

  /** The panel `main_window_get_panel_cwd` reads from: nothing without a
      browser; for prev/next the nearest visible panel in cyclic order other
      than the browser's own, for a panel number that panel if visible. */
  function PanelCwdSource(browser: Option<BrowserView>, code: int): (r: Option<int>)
    requires browser.Some? ==> IsValidPanel(browser.value.panel)
    ensures browser.None? ==> r == None
    ensures r.Some? ==> browser.Some? && r.value in browser.value.visible
    ensures browser.Some? && code != PanelNext && code != PanelPrev ==>
      (r.Some? <==> code in browser.value.visible)
  {
    match browser
    case None => None
    case Some(b) =>
      if code == PanelPrev then PrevVisible(b.panel, b.panel, b.visible, 4)
      else if code == PanelNext then NextVisible(b.panel, b.panel, b.visible, 4)
      else if code in b.visible then Some(code) else None
  }

  /** The prev/next loops end within four steps on the first visible panel
      among the other three in cyclic order. */
  lemma PanelCwdSourceCyclic(b: BrowserView)
    requires IsValidPanel(b.panel)
    ensures PanelCwdSource(Some(b), PanelNext) ==
      FirstShown([After(b.panel, 1), After(b.panel, 2), After(b.panel, 3)], b.visible)
    ensures PanelCwdSource(Some(b), PanelPrev) ==
      FirstShown([Before(b.panel, 1), Before(b.panel, 2), Before(b.panel, 3)], b.visible)
  {
    var panel := b.panel;
    var o := [After(panel, 1), After(panel, 2), After(panel, 3)];
    var p := [Before(panel, 1), Before(panel, 2), Before(panel, 3)];
    FirstShownOfThree(o[0], o[1], o[2], b.visible);
    FirstShownOfThree(p[0], p[1], p[2], b.visible);
    if panel == 1 {
      assert o == [2, 3, 4] && p == [4, 3, 2];
    } else if panel == 2 {
      assert o == [3, 4, 1] && p == [1, 4, 3];
    } else if panel == 3 {
      assert o == [4, 1, 2] && p == [2, 1, 4];
    } else {
      assert o == [1, 2, 3] && p == [3, 2, 1];
    }
  }

  /** The source is never the requesting panel for prev/next. */
  lemma PanelCwdNeverSelf(b: BrowserView, code: int)
    requires IsValidPanel(b.panel) && (code == PanelNext || code == PanelPrev)
    ensures PanelCwdSource(Some(b), code) != Some(b.panel)
  {
    PanelCwdSourceCyclic(b);
  }

  /** `main_window_get_counts`: visible panels, pages, and the 1-based tab
      number of the requesting page. */
  datatype Counts = Counts(panelCount: int, tabCount: int, tabNum: int)

  /** Without a browser every count is zero. */
  function GetCounts(browser: Option<BrowserView>): (c: Counts)
    ensures browser.None? ==> c == Counts(0, 0, 0)
    ensures 0 <= c.panelCount <= 4
    ensures browser.Some? ==>
      c.panelCount == |set p | p in browser.value.visible && IsValidPanel(p)| &&
      c.tabCount == |browser.value.tabCwds| && c.tabNum == browser.value.pageNum + 1
  {
    match browser
    case None => Counts(0, 0, 0)
    case Some(b) =>
      var vis := set p | p in b.visible && IsValidPanel(p);
      assert vis <= {1, 2, 3, 4};
      CardSubset(vis, {1, 2, 3, 4});
      Counts(|vis|, |b.tabCwds|, b.pageNum + 1)
  }

  lemma CardSubset(a: set<int>, b: set<int>)
    requires a <= b
    ensures |a| <= |b|
  {
    assert b == a + (b - a);
  }

  // ---------------------------------------------------------------------
  // Window title

  /** The name shown for a directory: `/` for the root, else its last
      component. */
  function DispName(path: Paths.Path): (r: string)
    ensures r == "/" || Paths.IsName(r)
  {
    if path == "/" then "/" else Paths.Basename(path)
  }

  /** The name shown for an entry of a directory is the entry's own name. */
  lemma DispNameOfChild(p: Paths.Path, n: string)
    requires Paths.IsName(n) && n != ""
    ensures DispName(Paths.JoinPath(p, n)) == n
  {
    var j := Paths.JoinPath(p, n);
    assert j[|j| - 1] == n[|n| - 1] && n[|n| - 1] in n;
    Paths.BasenameJoin(p, n);
  }

  /** `set_window_title`: the configured format or `%d`; the tab and panel
      codes are filled in when any of them occurs; `*` is dropped when no task
      is running; `%n` becomes the name; `%d` becomes the path only when the
      CONFIGURED format contains it. */
  function WindowTitle(configured: Option<string>, path: Paths.Path, curpanel: int, counts: Counts,
                       tasksRunning: bool): (r: string)
    ensures configured.None? ==> r == "%d"
  {
    DefaultFormatPlain();
    var fmt0 := if configured.Some? then configured.value else "%d";
    var fmt1 :=
      if Contains(fmt0, "%t") || Contains(fmt0, "%T") || Contains(fmt0, "%p") || Contains(fmt0, "%P") then
        var a := ReplaceAll(fmt0, "%t", IntToString(counts.tabNum));
        var b := ReplaceAll(a, "%T", IntToString(counts.tabCount));
        var c := ReplaceAll(b, "%p", IntToString(curpanel));
        ReplaceAll(c, "%P", IntToString(counts.panelCount))
      else fmt0;
    var fmt2 := if '*' in fmt1 && !tasksRunning then ReplaceAll(fmt1, "*", "") else fmt1;
    var fmt3 := if Contains(fmt2, "%n") then ReplaceAll(fmt2, "%n", DispName(path)) else fmt2;
    if configured.Some? && Contains(configured.value, "%d") then ReplaceAll(fmt3, "%d", path) else fmt3
  }

  /** Without a configured format the title is the literal `%d`: the default
      is never substituted. */
  lemma DefaultTitleIsLiteral(path: Paths.Path, curpanel: int, counts: Counts, tasksRunning: bool)
    ensures WindowTitle(None, path, curpanel, counts, tasksRunning) == "%d"
  {
  }

  /** A configured format without the tab/panel codes, `*` or `%d` has only
      `%n` filled in: it becomes the name shown for the directory. */
  lemma NameTitle(fmt: string, path: Paths.Path, curpanel: int, counts: Counts, tasksRunning: bool)
    requires !HasCountCode(fmt) && '*' !in fmt && !Contains(fmt, "%d")
    ensures WindowTitle(Some(fmt), path, curpanel, counts, tasksRunning) == ReplaceAll(fmt, "%n", DispName(path))
  {
    if !Contains(fmt, "%n") {
      ReplaceAbsent(fmt, "%n", DispName(path));
    }
  }

  /** A configured format without the tab/panel codes, `*` or `%n` has only
      `%d` filled in: it becomes the directory's path. */
  lemma PathTitle(fmt: string, path: Paths.Path, curpanel: int, counts: Counts, tasksRunning: bool)
    requires !HasCountCode(fmt) && '*' !in fmt && !Contains(fmt, "%n")
    ensures WindowTitle(Some(fmt), path, curpanel, counts, tasksRunning) == ReplaceAll(fmt, "%d", path)
  {
    if !Contains(fmt, "%d") {
      ReplaceAbsent(fmt, "%d", path);
    }
  }

  /** One of the tab/panel codes `%t`, `%T`, `%p`, `%P`. */
  predicate HasCountCode(fmt: string)
  {
    Contains(fmt, "%t") || Contains(fmt, "%T") || Contains(fmt, "%p") || Contains(fmt, "%P")
  }

  /** The number a tab/panel code stands for: the tab's number, the tab
      count, the current panel, the visible panel count. */
  function CountValue(code: string, curpanel: int, counts: Counts): (r: int)
    requires code in ["%t", "%T", "%p", "%P"]
  {
    if code == "%t" then counts.tabNum
    else if code == "%T" then counts.tabCount
    else if code == "%p" then curpanel
    else counts.panelCount
  }

  /** A configured format whose only `%` starts a tab/panel code, around
      text without `*`: the code becomes its number and nothing else
      changes, whether or not a task is running. */
  lemma CountTitle(pre: string, code: string, post: string, path: Paths.Path, curpanel: int, counts: Counts,
                   tasksRunning: bool)
    requires code in ["%t", "%T", "%p", "%P"]
    requires '%' !in pre && '%' !in post && '*' !in pre && '*' !in post
    ensures WindowTitle(Some(pre + code + post), path, curpanel, counts, tasksRunning)
            == pre + IntToString(CountValue(code, curpanel, counts)) + post
  {
    var fmt := pre + code + post;
    var v := IntToString(CountValue(code, curpanel, counts));
    var filled := pre + v + post;
    assert code == ['%', code[1]];
    assert OccursAt(fmt, code, |pre|);
    CountsFilled(pre, code, post, curpanel, counts);
    IntToStringPlain(CountValue(code, curpanel, counts));
    assert '%' !in filled && '*' !in filled;
    NotContainsWithoutFirst(filled, "%n");
    OnlyCodeIn(pre, code, post, "%d");
  }

  /** The four count replacements turn the one code into its number. */
  lemma CountsFilled(pre: string, code: string, post: string, curpanel: int, counts: Counts)
    requires code in ["%t", "%T", "%p", "%P"]
    requires '%' !in pre && '%' !in post
    ensures var a := ReplaceAll(pre + code + post, "%t", IntToString(counts.tabNum));
      var b := ReplaceAll(a, "%T", IntToString(counts.tabCount));
      var c := ReplaceAll(b, "%p", IntToString(curpanel));
      ReplaceAll(c, "%P", IntToString(counts.panelCount))
        == pre + IntToString(CountValue(code, curpanel, counts)) + post
  {
    var fmt := pre + code + post;
    var filled := pre + IntToString(CountValue(code, curpanel, counts)) + post;
    IntToStringPlain(CountValue(code, curpanel, counts));
    CountStep(pre, code, post, "%t", IntToString(counts.tabNum), filled);
    var a := ReplaceAll(fmt, "%t", IntToString(counts.tabNum));
    CountStep(pre, code, post, "%T", IntToString(counts.tabCount), filled);
    var b := ReplaceAll(a, "%T", IntToString(counts.tabCount));
    CountStep(pre, code, post, "%p", IntToString(curpanel), filled);
    var c := ReplaceAll(b, "%p", IntToString(curpanel));
    CountStep(pre, code, post, "%P", IntToString(counts.panelCount), filled);
  }

  /** One count replacement: it fills the code in when it is that code, and
      leaves both the unfilled and the filled format alone otherwise. */
  lemma CountStep(pre: string, code: string, post: string, pat: string, rep: string, filled: string)
    requires |code| == 2 && |pat| == 2 && code[0] == '%' && code[1] != '%' && pat[0] == '%'
    requires '%' !in pre && '%' !in post && '%' !in filled
    requires pat == code ==> filled == pre + rep + post
    ensures pat == code ==> ReplaceAll(pre + code + post, pat, rep) == filled
    ensures pat != code ==> ReplaceAll(pre + code + post, pat, rep) == pre + code + post
    ensures ReplaceAll(filled, pat, rep) == filled
  {
    NotContainsWithoutFirst(filled, pat);
    ReplaceAbsent(filled, pat, rep);
    if pat == code {
      ReplaceAfterPlain(pre, pat, rep, post);
      NotContainsWithoutFirst(post, pat);
      ReplaceAbsent(post, pat, rep);
    } else {
      OnlyCodeIn(pre, code, post, pat);
      ReplaceAbsent(pre + code + post, pat, rep);
    }
  }

  /** A string whose only `%` starts `code` contains no other two-character
      code. */
  lemma OnlyCodeIn(pre: string, code: string, post: string, pat: string)
    requires |code| == 2 && |pat| == 2 && code[0] == '%' && code[1] != '%' && pat[0] == '%' && pat != code
    requires '%' !in pre && '%' !in post
    ensures !Contains(pre + code + post, pat)
  {
    var s := pre + code + post;
    forall i: nat | i + 2 <= |s|
      ensures !OccursAt(s, pat, i)
    {
      assert s[i..i + 2][0] == s[i];
      if i < |pre| {
        assert s[i] == pre[i] && pre[i] in pre;
      } else if i == |pre| {
        assert s[i..i + 2] == code;
      } else if i == |pre| + 1 {
        assert s[i] == code[1];
      } else {
        assert s[i] == post[i - |pre| - 2] && post[i - |pre| - 2] in post;
      }
    }
  }

  /** A rendered number holds neither `%` nor `*`. */
  lemma IntToStringPlain(n: int)
    ensures '%' !in IntToString(n) && '*' !in IntToString(n)
  {
    var r := IntToString(n);
    var digits := if n < 0 then NatToString(-n) else NatToString(n);
    assert forall k :: 0 <= k < |digits| ==> '0' <= digits[k] <= '9';
    assert n < 0 ==> r == "-" + digits;
    assert forall c :: c in r ==> c == '-' || '0' <= c <= '9';
  }

  /** The default format `%d` holds none of the other codes. */
  lemma DefaultFormatPlain()
    ensures var s := "%d";
      !Contains(s, "%t") && !Contains(s, "%T") && !Contains(s, "%p") && !Contains(s, "%P")
      && !Contains(s, "%n") && '*' !in s
  {
    var s := "%d";
    assert s == ['%', 'd'];
    assert !Contains(s, "%t") && !Contains(s, "%T") && !Contains(s, "%p") && !Contains(s, "%P")
      && !Contains(s, "%n") by {
      forall pat: string, i: nat | |pat| == 2 && pat[1] != 'd' && i + 2 <= |s|
        ensures !OccursAt(s, pat, i)
      {
        assert i == 0;
        assert s[0..2][1] == 'd';
      }
      assert "%t"[1] != 'd' && "%T"[1] != 'd' && "%p"[1] != 'd' && "%P"[1] != 'd' && "%n"[1] != 'd';
    }
  }

  /** With no task running and no `*` in the name or path, the title has no
      `*`. */
  lemma NoStarWhenIdle(configured: Option<string>, path: Paths.Path, curpanel: int, counts: Counts)
    requires '*' !in path && '*' !in DispName(path)
    ensures '*' !in WindowTitle(configured, path, curpanel, counts, false)
  {
    var fmt0 := if configured.Some? then configured.value else "%d";
    var fmt1 :=
      if Contains(fmt0, "%t") || Contains(fmt0, "%T") || Contains(fmt0, "%p") || Contains(fmt0, "%P") then
        var a := ReplaceAll(fmt0, "%t", IntToString(counts.tabNum));
        var b := ReplaceAll(a, "%T", IntToString(counts.tabCount));
        var c := ReplaceAll(b, "%p", IntToString(curpanel));
        ReplaceAll(c, "%P", IntToString(counts.panelCount))
      else fmt0;
    var fmt2 := if '*' in fmt1 then ReplaceAll(fmt1, "*", "") else fmt1;
    if '*' in fmt1 {
      ReplaceRemoves(fmt1, '*');
    }
    assert '*' !in fmt2;
    var fmt3 := if Contains(fmt2, "%n") then ReplaceAll(fmt2, "%n", DispName(path)) else fmt2;
    if Contains(fmt2, "%n") {
      ReplaceAvoids(fmt2, "%n", DispName(path), '*');
    }
    if configured.Some? && Contains(configured.value, "%d") {
      ReplaceAvoids(fmt3, "%d", path, '*');
    }
  }

  /** Removing every one-character match removes that character. */
  lemma {:induction false} ReplaceRemoves(s: string, c: char)
    ensures c !in ReplaceAll(s, [c], "")
    decreases |s|
  {
    if |s| >= 1 {
      ReplaceRemoves(s[1..], c);
      if s[..1] != [c] {
        assert s[0] != c;
      }
    }
  }

  /** A character in neither the string nor the replacement is not produced. */
  lemma {:induction false} ReplaceAvoids(s: string, pat: string, rep: string, c: char)
    requires |pat| > 0 && c !in s && c !in rep
    ensures c !in ReplaceAll(s, pat, rep)
    decreases |s|
  {
    if |s| >= |pat| {
      if s[..|pat|] == pat {
        assert forall x :: x in s[|pat|..] ==> x in s;
        ReplaceAvoids(s[|pat|..], pat, rep, c);
      } else {
        assert s[0] in s;
        assert forall x :: x in s[1..] ==> x in s;
        ReplaceAvoids(s[1..], pat, rep, c);
      }
    }
  }

  // ---------------------------------------------------------------------
  // Sliders and the View menu

  /** Restored slider positions: the two horizontal ones are raised to 200;
      a vertical one below 200 means "unset" (-1). */
  function RestoreSliders(x: int, y: int, s: int): (r: (int, int, int))
    ensures r.0 >= 200 && r.1 >= 200 && (r.2 == -1 || r.2 >= 200)
    ensures x >= 200 ==> r.0 == x
    ensures y >= 200 ==> r.1 == y
    ensures s >= 200 ==> r.2 == s
    ensures s < 200 ==> r.2 == -1
  {
    (if x < 200 then 200 else x, if y < 200 then 200 else y, if s < 200 then -1 else s)
  }

  /** The show flags after `rebuild_menu_view`: panel 1 is forced on when no
      panel is shown. */
  function EnsureOneShown(shown: set<int>): (r: set<int>)
    ensures exists p :: p in r && IsValidPanel(p)
    ensures (exists p :: p in shown && IsValidPanel(p)) ==> r == shown
    ensures shown <= r && r - shown <= {1}
  {
    if exists p :: p in shown && IsValidPanel(p) then shown else shown + {1}
  }

  /** `vis_count`: the number of shown panels. */
  function VisCount(shown: set<int>): (n: int)
    ensures 0 <= n <= 4
    ensures n == 0 <==> forall p :: IsValidPanel(p) ==> p !in shown
  {
    (if 1 in shown then 1 else 0) + (if 2 in shown then 1 else 0) +
    (if 3 in shown then 1 else 0) + (if 4 in shown then 1 else 0)
  }

  /** Whether the show toggle of panel `p` is disabled: it is the current
      panel and exactly one panel is shown. */
  function ToggleDisabled(p: int, cur: int, shown: set<int>): (r: bool)
    requires IsValidPanel(p)
    ensures r <==> cur == p && VisCount(shown) == 1
  {
    cur == p && VisCount(shown) == 1
  }

  /** When the current panel is the one shown panel, exactly its toggle is
      disabled, so the last visible panel cannot be switched off. */
  lemma LastPanelLocked(cur: int, shown: set<int>, p: int)
    requires IsValidPanel(cur) && IsValidPanel(p)
    requires cur in shown && forall q :: IsValidPanel(q) && q != cur ==> q !in shown
    ensures ToggleDisabled(p, cur, shown) <==> p == cur
  {
    assert VisCount(shown) == 1;
  }

  /** After the forcing step at least one panel counts as shown. */
  lemma MenuAlwaysCountsAPanel(shown: set<int>)
    ensures VisCount(EnsureOneShown(shown)) >= 1
  {
  }
}
