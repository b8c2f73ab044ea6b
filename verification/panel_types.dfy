/** Panel and tab numbers and their control codes (src/types.cxx). The
    constants live in src/types.hxx, which is not part of this model: panels
    are numbered 1 to 4 with 0 as the invalid panel, tabs count from 1 with 0
    as the invalid tab, and the control codes are small negative numbers. */
module PanelTypes {

  const InvalidPanel: int := 0
  const MinPanels: int := 1
  const MaxPanels: int := 4

  const PanelPrev: int := -1
  const PanelNext: int := -2
  const PanelHide: int := -3

  const InvalidTab: int := 0
  const MinTabs: int := 1

  const TabPrev: int := -1
  const TabNext: int := -2
  const TabClose: int := -3
  const TabRestore: int := -4

  /** `is_valid_panel`: a real panel number. Neither the invalid panel nor a
      control code is one. */
  predicate IsValidPanel(p: int): (r: bool)
    ensures r ==> p != InvalidPanel && p != PanelPrev && p != PanelNext && p != PanelHide
  {
    MinPanels <= p <= MaxPanels
  }

  /** `valid_panel` as written: three clauses joined by `||`. */
  function ValidPanelAsWritten(p: int): (r: bool)
    ensures r
  {
    p != InvalidPanel || p >= MinPanels || p <= MaxPanels
  }

  /** As written the test accepts every integer, since any `p` is either at
      least `MinPanels` or at most `MaxPanels`; 7 and the invalid panel 0
      both pass. */
  lemma ValidPanelAcceptsEverything(p: int)
    ensures ValidPanelAsWritten(p)
    ensures ValidPanelAsWritten(7) && !IsValidPanel(7)
    ensures ValidPanelAsWritten(InvalidPanel) && !IsValidPanel(InvalidPanel)
  {
  }

  /** `valid_panel` as evidently intended: a panel number in range, which
      excludes the invalid panel. */
  function ValidPanel(p: int): (r: bool)
    ensures r <==> MinPanels <= p <= MaxPanels
    ensures r ==> p != InvalidPanel
  {
    p != InvalidPanel && p >= MinPanels && p <= MaxPanels
  }

  /** The corrected test is `is_valid_panel`, and only it rejects 7. */
  lemma ValidPanelIsRange(p: int)
    ensures ValidPanel(p) <==> IsValidPanel(p)
    ensures !ValidPanel(7) && ValidPanelAsWritten(7)
  {
  }

  /** `valid_panel_code`. */
  function ValidPanelCode(p: int): (r: bool)
    ensures r <==> p in {PanelPrev, PanelNext, PanelHide}
  {
    p == PanelPrev || p == PanelNext || p == PanelHide
  }

  /** No control code is a panel number, so a request is one or the other. */
  lemma PanelCodesAreNotPanels(p: int)
    ensures !(ValidPanelCode(p) && IsValidPanel(p))
  {
  }

  /** `valid_tab`: with `InvalidTab < MinTabs` the second clause adds
      nothing, so every tab number but 0 passes, control codes included. */
  function ValidTab(t: int): (r: bool)
    ensures r <==> t != InvalidTab
  {
    t != InvalidTab || t >= MinTabs
  }

  /** `valid_tab_code`. */
  function ValidTabCode(t: int): (r: bool)
    ensures r <==> t in {TabPrev, TabNext, TabClose, TabRestore}
  {
    t == TabPrev || t == TabNext || t == TabClose || t == TabRestore
  }

  /** Every tab control code also passes `valid_tab`. */
  lemma TabCodesPassValidTab(t: int)
    requires ValidTabCode(t)
    ensures ValidTab(t) && t < MinTabs
  {
  }
}
