/**
  A model of the tab-set component: an ordered list of tabs, the id of the
  active tab, the cancelable `select` transition, the reconciliation that
  runs after the tab list changes, the `justify` class mapping and the
  document-wide counter that hands out default tab ids.
 */
module Tabset {

  datatype Option<+T> = None | Some(value: T)

  /** A tab as the tab set sees it: its id and whether it can be selected. */
  datatype Tab = Tab(id: string, disabled: bool)

  /** The payload of the change event fired right before a tab switch. */
  datatype TabChangeEvent = TabChangeEvent(activeId: Option<string>, nextId: string)

  /** What one call of `select` does: the event it fired, if any, and the new active id. */
  datatype Transition = Transition(event: Option<TabChangeEvent>, activeId: Option<string>)

  // ---------------------------------------------------------------------------
  // Looking tabs up by id
  // ---------------------------------------------------------------------------

  /** Some tab of the list carries `id`. */
  ghost predicate HasTabWithId(tabs: seq<Tab>, id: string)
  {
    exists i :: 0 <= i < |tabs| && tabs[i].id == id
  }

  /** `i` is the position of the first tab of the list that carries `id`. */
  ghost predicate IsFirstWithId(tabs: seq<Tab>, i: int, id: string)
  {
    0 <= i < |tabs| && tabs[i].id == id && forall j :: 0 <= j < i ==> tabs[j].id != id
  }

  /** The tabs whose id is `id`, in list order (the `filter` of the lookup). */
  function FilterById(tabs: seq<Tab>, id: string): (r: seq<Tab>)
    ensures forall t :: t in r <==> t in tabs && t.id == id
    ensures r != [] ==> exists i :: IsFirstWithId(tabs, i, id) && tabs[i] == r[0]
  {
    if tabs == [] then []
    else
      var rest := FilterById(tabs[1..], id);
      if tabs[0].id == id then
        [tabs[0]] + rest
      else
        assert rest != [] ==> exists k :: IsFirstWithId(tabs, k, id) && tabs[k] == rest[0] by {
          if rest != [] {
            var i :| IsFirstWithId(tabs[1..], i, id) && tabs[1..][i] == rest[0];
            assert IsFirstWithId(tabs, i + 1, id);
          }
        }
        rest
  }

  /** The first tab whose id is `id`, or None when no tab has it. */
  function GetTabById(tabs: seq<Tab>, id: string): (r: Option<Tab>)
    ensures r.None? <==> !HasTabWithId(tabs, id)
    ensures r.Some? ==> exists i :: IsFirstWithId(tabs, i, id) && tabs[i] == r.value
  {
    var tabsWithId := FilterById(tabs, id);
    if |tabsWithId| > 0 then
      Some(tabsWithId[0])
    else
      assert forall i :: 0 <= i < |tabs| ==> tabs[i] in tabs;
      None
  }

  /** The lookup answers exactly the first tab of the list that carries the id. */
  lemma GetTabByIdIsFirst(tabs: seq<Tab>, i: int, id: string)
    requires IsFirstWithId(tabs, i, id)
    ensures GetTabById(tabs, id) == Some(tabs[i])
  {
  }

  // ---------------------------------------------------------------------------
  // Selecting a tab
  // ---------------------------------------------------------------------------

  /** The first tab carrying `id` exists and is not disabled. */
  ghost predicate IsSelectable(tabs: seq<Tab>, id: string)
  {
    exists i :: IsFirstWithId(tabs, i, id) && !tabs[i].disabled
  }

  /**
    One call of `select(tabId)`. `veto` stands for the listener of the change
    event: it answers true when the listener calls `preventDefault`.
   */
  function SelectTransition(tabs: seq<Tab>, activeId: Option<string>, tabId: string,
                            veto: TabChangeEvent -> bool): (r: Transition)
    ensures r.event.Some? <==> IsSelectable(tabs, tabId) && activeId != Some(tabId)
    ensures r.event.Some? ==> r.event.value == TabChangeEvent(activeId, tabId)
    ensures r.activeId == if r.event.Some? && !veto(r.event.value) then Some(tabId) else activeId
  {
    var selectedTab := GetTabById(tabs, tabId);
    if selectedTab.Some? && !selectedTab.value.disabled && activeId != Some(selectedTab.value.id) then
      var event := TabChangeEvent(activeId, selectedTab.value.id);
      var defaultPrevented := veto(event);
      Transition(Some(event), if defaultPrevented then activeId else Some(selectedTab.value.id))
    else
      assert IsSelectable(tabs, tabId) ==> selectedTab.Some? && !selectedTab.value.disabled by {
        if IsSelectable(tabs, tabId) {
          var i :| IsFirstWithId(tabs, i, tabId) && !tabs[i].disabled;
          GetTabByIdIsFirst(tabs, i, tabId);
        }
      }
      Transition(None, activeId)
  }

  /** Selecting an id that no tab carries fires nothing and changes nothing. */
  lemma SelectUnknownIdIsNoop(tabs: seq<Tab>, activeId: Option<string>, tabId: string,
                              veto: TabChangeEvent -> bool)
    requires forall i :: 0 <= i < |tabs| ==> tabs[i].id != tabId
    ensures SelectTransition(tabs, activeId, tabId, veto) == Transition(None, activeId)
  {
  }

  /** Selecting an id whose (first) tab is disabled fires nothing and changes nothing. */
  lemma SelectDisabledIsNoop(tabs: seq<Tab>, activeId: Option<string>, i: int,
                             veto: TabChangeEvent -> bool)
    requires 0 <= i < |tabs| && tabs[i].disabled
    requires IsFirstWithId(tabs, i, tabs[i].id)
    ensures SelectTransition(tabs, activeId, tabs[i].id, veto) == Transition(None, activeId)
  {
  }

  /** Selecting the tab that is already active fires nothing and changes nothing. */
  lemma SelectActiveIsNoop(tabs: seq<Tab>, tabId: string, veto: TabChangeEvent -> bool)
    ensures SelectTransition(tabs, Some(tabId), tabId, veto) == Transition(None, Some(tabId))
  {
  }

  /**
    A switch that goes ahead fires exactly one event carrying the old and the
    new id, and leaves the selected tab active.
   */
  lemma SelectEnabledSwitches(tabs: seq<Tab>, activeId: Option<string>, i: int,
                              veto: TabChangeEvent -> bool)
    requires 0 <= i < |tabs| && IsFirstWithId(tabs, i, tabs[i].id) && !tabs[i].disabled
    requires activeId != Some(tabs[i].id)
    requires !veto(TabChangeEvent(activeId, tabs[i].id))
    ensures SelectTransition(tabs, activeId, tabs[i].id, veto)
            == Transition(Some(TabChangeEvent(activeId, tabs[i].id)), Some(tabs[i].id))
  {
  }

  /** When the listener calls `preventDefault`, the active id stays what it was. */
  lemma SelectVetoKeepsActive(tabs: seq<Tab>, activeId: Option<string>, tabId: string,
                              veto: TabChangeEvent -> bool)
    requires veto(TabChangeEvent(activeId, tabId))
    ensures SelectTransition(tabs, activeId, tabId, veto).activeId == activeId
  {
  }

  /** `select` only ever makes active an id whose first tab is enabled. */
  lemma SelectAssignsOnlyEnabled(tabs: seq<Tab>, activeId: Option<string>, tabId: string,
                                 veto: TabChangeEvent -> bool)
    ensures var r := SelectTransition(tabs, activeId, tabId, veto);
            r.activeId != activeId ==>
              r.activeId == Some(tabId) && IsSelectable(tabs, tabId) && HasTabWithId(tabs, tabId)
  {
  }

  /**
    Unless the first call was vetoed, calling `select(x)` a second time fires
    nothing and changes nothing: two calls equal one.
   */
  lemma SelectTwiceIsOnce(tabs: seq<Tab>, activeId: Option<string>, tabId: string,
                          veto1: TabChangeEvent -> bool, veto2: TabChangeEvent -> bool)
    requires var r1 := SelectTransition(tabs, activeId, tabId, veto1);
             r1.event.None? || !veto1(r1.event.value)
    ensures var r1 := SelectTransition(tabs, activeId, tabId, veto1);
            SelectTransition(tabs, r1.activeId, tabId, veto2) == Transition(None, r1.activeId)
  {
  }

  // ---------------------------------------------------------------------------
  // Reconciliation after the tab list changed
  // ---------------------------------------------------------------------------

  /**
    The active id after the content check: kept when a tab still carries it,
    otherwise the first tab's id, otherwise none.
   */
  function ReconciledActiveId(tabs: seq<Tab>, activeId: Option<string>): (r: Option<string>)
    ensures activeId.Some? && HasTabWithId(tabs, activeId.value) ==> r == activeId
    ensures !(activeId.Some? && HasTabWithId(tabs, activeId.value)) && tabs != [] ==> r == Some(tabs[0].id)
    ensures tabs == [] ==> r == None
  {
    var activeTab := if activeId.Some? then GetTabById(tabs, activeId.value) else None;
    if activeTab.Some? then
      Some(activeTab.value.id)
    else if |tabs| > 0 then
      Some(tabs[0].id)
    else
      None
  }

  /** After reconciliation there is no active id exactly when there are no tabs. */
  lemma ReconciledNoneIffEmpty(tabs: seq<Tab>, activeId: Option<string>)
    ensures ReconciledActiveId(tabs, activeId).None? <==> tabs == []
  {
  }

  /** After reconciliation the active id, if any, is carried by a tab of the list. */
  lemma ReconciledNamesLiveTab(tabs: seq<Tab>, activeId: Option<string>)
    ensures var r := ReconciledActiveId(tabs, activeId);
            r.Some? ==> HasTabWithId(tabs, r.value)
  {
  }

  /** Reconciling twice is the same as reconciling once. */
  lemma ReconcileIdempotent(tabs: seq<Tab>, activeId: Option<string>)
    ensures ReconciledActiveId(tabs, ReconciledActiveId(tabs, activeId))
            == ReconciledActiveId(tabs, activeId)
  {
  }

  /** `select` keeps a reconciled active id reconciled: it never leaves the list. */
  lemma SelectKeepsReconciled(tabs: seq<Tab>, activeId: Option<string>, tabId: string,
                              veto: TabChangeEvent -> bool)
    requires ReconciledActiveId(tabs, activeId) == activeId
    ensures var r := SelectTransition(tabs, activeId, tabId, veto);
            ReconciledActiveId(tabs, r.activeId) == r.activeId
  {
  }

  // ---------------------------------------------------------------------------
  // The `justify` input
  // ---------------------------------------------------------------------------

  /** The CSS class for a horizontal alignment value. */
  function JustifyClass(className: string): (cls: string)
    ensures |cls| > |className| && cls[|cls| - |className|..] == className
  {
    if className == "fill" || className == "justified" then
      "nav-" + className
    else
      "justify-content-" + className
  }

  /** Recovers the alignment value from a class `JustifyClass` can produce. */
  function JustifyOf(cls: string): (r: Option<string>)
  {
    if cls == "nav-fill" || cls == "nav-justified" then
      Some(cls[4..])
    else if |cls| >= 16 && cls[..16] == "justify-content-"
            && cls[16..] != "fill" && cls[16..] != "justified" then
      Some(cls[16..])
    else
      None
  }

  /** Every alignment value can be read back from its class. */
  lemma JustifyRoundTrip(className: string)
    ensures JustifyOf(JustifyClass(className)) == Some(className)
  {
  }

  /** Distinct alignment values give distinct classes. */
  lemma JustifyClassInjective(a: string, b: string)
    ensures JustifyClass(a) == JustifyClass(b) ==> a == b
  {
  }

  // ---------------------------------------------------------------------------
  // Default tab ids
  // ---------------------------------------------------------------------------

  function DigitChar(d: nat): (c: char)
    requires d < 10
    ensures '0' <= c <= '9' && c as int - '0' as int == d
  {
    (d + '0' as int) as char
  }

  /** The decimal rendering of a counter value, as a template literal prints it. */
  function NatToDecimal(n: nat): (s: string)
    ensures |s| >= 1
    ensures n >= 10 <==> |s| >= 2
    ensures forall k :: 0 <= k < |s| ==> '0' <= s[k] <= '9'
    ensures s[0] == '0' ==> n == 0
  {
    if n < 10 then [DigitChar(n)] else NatToDecimal(n / 10) + [DigitChar(n % 10)]
  }

  /** Reads a non-empty string of decimal digits back as a number. */
  function DecimalToNat(s: string): (r: Option<nat>)
  {
    if |s| == 0 then None
    else
      var last := s[|s| - 1];
      if !('0' <= last <= '9') then None
      else if |s| == 1 then Some(last as int - '0' as int)
      else
        match DecimalToNat(s[..|s| - 1])
        case None => None
        case Some(prefix) => Some(prefix * 10 + (last as int - '0' as int))
  }

  /** Decimal rendering and reading are inverse. */
  lemma {:induction false} DecimalRoundTrip(n: nat)
    ensures DecimalToNat(NatToDecimal(n)) == Some(n)
  {
    if n >= 10 {
      var s := NatToDecimal(n);
      assert s[..|s| - 1] == NatToDecimal(n / 10);
      DecimalRoundTrip(n / 10);
    }
  }

  /** The default id of the tab created when the counter stood at `n`. */
  function DefaultTabId(n: nat): (id: string)
    ensures |id| > 8 && id[..8] == "ngb-tab-"
    ensures forall k :: 8 <= k < |id| ==> '0' <= id[k] <= '9'
  {
    "ngb-tab-" + NatToDecimal(n)
  }

  /** Reads the counter value back out of a default id. */
  function DefaultTabIdNumber(id: string): (r: Option<nat>)
  {
    if |id| >= 8 && id[..8] == "ngb-tab-" then DecimalToNat(id[8..]) else None
  }

  /** The counter value can be read back from the id it produced. */
  lemma DefaultTabIdRoundTrip(n: nat)
    ensures DefaultTabIdNumber(DefaultTabId(n)) == Some(n)
  {
    var id := DefaultTabId(n);
    assert id[..8] == "ngb-tab-" && id[8..] == NatToDecimal(n);
    DecimalRoundTrip(n);
  }

  /** Distinct counter values give distinct default ids. */
  lemma DefaultTabIdInjective(m: nat, n: nat)
    ensures DefaultTabId(m) == DefaultTabId(n) ==> m == n
  {
    DefaultTabIdRoundTrip(m);
    DefaultTabIdRoundTrip(n);
  }

  /**
    2^53: the counter is a JavaScript number, so adding one to this value
    rounds back to it and the counter stops advancing.
   */
  const CounterLimit: nat := 0x20_0000_0000_0000

  /** The document-wide counter behind default tab ids. */
  class TabIdCounter {
    var next: nat

    /** Every value the counter can reach is at most 2^53. */
    ghost predicate Valid()
      reads this
    {
      next <= CounterLimit
    }

    constructor ()
      ensures Valid() && next == 0
    {
      next := 0;
    }

    /**
      Creates a tab. The default id is drawn from the counter whether or not an
      explicit id is given, since the field initialiser runs before the input is
      bound; an explicit id then replaces it.
     */
    method NewTab(explicitId: Option<string>, disabled: bool) returns (tab: Tab)
      requires Valid()
      modifies this
      ensures Valid()
      ensures next == if old(next) < CounterLimit then old(next) + 1 else old(next)
      ensures tab.disabled == disabled
      ensures explicitId.Some? ==> tab.id == explicitId.value
      ensures explicitId.None? ==> tab.id == DefaultTabId(old(next))
      ensures explicitId.None? ==> forall k: nat :: k < old(next) ==> tab.id != DefaultTabId(k)
    {
      var id := DefaultTabId(next);
      forall k: nat | k < next
        ensures id != DefaultTabId(k)
      {
        DefaultTabIdInjective(k, next);
      }
      if next < CounterLimit {
        next := next + 1;
      }
      if explicitId.Some? {
        id := explicitId.value;
      }
      tab := Tab(id, disabled);
    }
  }

  // ---------------------------------------------------------------------------
  // The tab set itself
  // ---------------------------------------------------------------------------

  class NgbTabset {
    /** The tabs, in document order; supplied by content projection. */
    var tabs: seq<Tab>
    /** The id of the active tab; the host may also bind it as an input. */
    var activeId: Option<string>
    /** The CSS class derived from the `justify` input. */
    var justifyClass: string

    /** `justify` is the configured default alignment. */
    constructor (justify: string)
      ensures tabs == [] && activeId == None
      ensures justifyClass == JustifyClass(justify)
    {
      tabs := [];
      activeId := None;
      justifyClass := JustifyClass(justify);
    }

    /** The `justify` input setter. */
    method SetJustify(className: string)
      modifies this`justifyClass
      ensures justifyClass == JustifyClass(className)
    {
      if className == "fill" || className == "justified" {
        justifyClass := "nav-" + className;
      } else {
        justifyClass := "justify-content-" + className;
      }
    }

    /**
      Selects the tab with the given id. `veto` is the change-event listener's
      decision; the event is returned when it was fired.
     */
    method Select(tabId: string, veto: TabChangeEvent -> bool) returns (event: Option<TabChangeEvent>)
      modifies this`activeId
      ensures Transition(event, activeId) == SelectTransition(tabs, old(activeId), tabId, veto)
    {
      var selectedTab := GetTabById(tabs, tabId);
      event := None;
      if selectedTab.Some? && !selectedTab.value.disabled && activeId != Some(selectedTab.value.id) {
        var defaultPrevented := false;
        var e := TabChangeEvent(activeId, selectedTab.value.id);
        event := Some(e);
        if veto(e) {
          defaultPrevented := true;
        }
        if !defaultPrevented {
          activeId := Some(selectedTab.value.id);
        }
      }
    }

    /** Corrects the active id after the tab list changed. */
    method AfterContentChecked()
      modifies this`activeId
      ensures activeId == ReconciledActiveId(tabs, old(activeId))
    {
      var activeTab := if activeId.Some? then GetTabById(tabs, activeId.value) else None;
      if activeTab.Some? {
        activeId := Some(activeTab.value.id);
      } else if |tabs| > 0 {
        activeId := Some(tabs[0].id);
      } else {
        activeId := None;
      }
    }
  }

  /**
    A session: a tab set with an enabled tab and a disabled one. The content
    check makes the first tab active; selecting the disabled tab or the active
    one changes nothing and fires nothing.
   */
  method ExampleSession()
  {
    var tabset := new NgbTabset("start");
    assert tabset.justifyClass == JustifyClass("start");
    tabset.tabs := [Tab("t1", false), Tab("t2", true)];
    tabset.AfterContentChecked();
    assert tabset.activeId == Some("t1");
    var allow := (e: TabChangeEvent) => false;
    var event := tabset.Select("t2", allow);
    SelectDisabledIsNoop([Tab("t1", false), Tab("t2", true)], Some("t1"), 1, allow);
    assert event.None? && tabset.activeId == Some("t1");
    event := tabset.Select("t1", allow);
    assert event.None? && tabset.activeId == Some("t1");
  }
}
