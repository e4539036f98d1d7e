/** The open/closed state of the mobile menu panel and the dropdowns
    (script.js, closeAllDropdowns, setDropdownOpen, setOpen, isOpen and the
    toggle, Escape and click handlers). */
module OpenState {
  import opened Wrappers

  /** One dropdown container: its `data-open` flag, and the `aria-expanded`
      of its toggle and the open `data-state` of its menu, for those of the
      two elements that exist. */
  datatype Dropdown = Dropdown(open: bool, expanded: Option<bool>, menuOpen: Option<bool>)

  /** The panel's `data-state` (open or not), the menu toggle's
      `aria-expanded` and `aria-label`, and the dropdowns in document order. */
  datatype State = State(panelOpen: bool, expanded: bool, ariaLabel: string, dropdowns: seq<Dropdown>)

  const CloseLabel := "Close menu"
  const OpenLabel := "Open menu"

  /** What a click lands on: not a DOM node at all, or an element with its
      position relative to the navigation: the dropdown container around it,
      whether it is inside a link, inside the menu toggle, inside the panel. */
  datatype Target =
    | NotANode
    | Node(dropdown: Option<nat>, inLink: bool, inToggle: bool, inPanel: bool)

  /** The attribute of an element that may be missing, set when it exists. */
  function SetIfPresent(attr: Option<bool>, v: bool): (r: Option<bool>)
    ensures r.Some? <==> attr.Some?
    ensures r.Some? ==> r.value == v
  {
    if attr.Some? then Some(v) else None
  }

  /** The toggle and menu of a dropdown show its flag. */
  predicate Mirrors(d: Dropdown)
  {
    && (d.expanded.Some? ==> d.expanded.value == d.open)
    && (d.menuOpen.Some? ==> d.menuOpen.value == d.open)
  }

  predicate AllMirror(ds: seq<Dropdown>)
  {
    forall i :: 0 <= i < |ds| ==> Mirrors(ds[i])
  }

  predicate AtMostOneOpen(ds: seq<Dropdown>)
  {
    forall i, j :: 0 <= i < |ds| && 0 <= j < |ds| && ds[i].open && ds[j].open ==> i == j
  }

  predicate NoneOpen(ds: seq<Dropdown>)
  {
    forall i :: 0 <= i < |ds| ==> !ds[i].open
  }

  /** The same dropdowns, with the same toggles and menus present. */
  predicate SameElements(a: seq<Dropdown>, b: seq<Dropdown>)
  {
    && |a| == |b|
    && forall i :: 0 <= i < |a| ==>
         a[i].expanded.Some? == b[i].expanded.Some? && a[i].menuOpen.Some? == b[i].menuOpen.Some?
  }

  /** The menu toggle's attributes agree with the panel's state. */
  predicate PanelShown(s: State)
  {
    s.expanded == s.panelOpen && s.ariaLabel == (if s.panelOpen then CloseLabel else OpenLabel)
  }

  /** The invariant every handler keeps. */
  predicate Inv(s: State)
  {
    PanelShown(s) && DropdownsShown(s.dropdowns)
  }

  /** Sets one dropdown's flag, toggle and menu to `open`. */
  function Show(d: Dropdown, open: bool): (r: Dropdown)
    ensures r.open == open && Mirrors(r)
    ensures r.expanded.Some? == d.expanded.Some? && r.menuOpen.Some? == d.menuOpen.Some?
  {
    Dropdown(open, SetIfPresent(d.expanded, open), SetIfPresent(d.menuOpen, open))
  }

  /** closeAllDropdowns (script.js:35-46). */
  function CloseAllDropdowns(ds: seq<Dropdown>): (r: seq<Dropdown>)
    ensures SameElements(ds, r)
    ensures NoneOpen(r) && AllMirror(r)
  {
    seq(|ds|, i requires 0 <= i < |ds| => Show(ds[i], false))
  }

  /** setDropdownOpen (script.js:48-58): closes every dropdown, then sets
      dropdown `i` to `open`. */
  function SetDropdownOpen(ds: seq<Dropdown>, i: nat, open: bool): (r: seq<Dropdown>)
    requires i < |ds|
    ensures SameElements(ds, r)
    ensures r[i].open == open
    ensures forall j :: 0 <= j < |r| && j != i ==> !r[j].open
    ensures AtMostOneOpen(r) && AllMirror(r)
  {
    CloseAllDropdowns(ds)[i := Show(ds[i], open)]
  }

  /** setOpen (script.js:173-178): opens or closes the panel; closing it
      closes every dropdown. */
  function SetOpen(s: State, open: bool): (r: State)
    ensures r.panelOpen == open && PanelShown(r)
    ensures open ==> r.dropdowns == s.dropdowns
    ensures !open ==> NoneOpen(r.dropdowns) && AllMirror(r.dropdowns)
    ensures SameElements(s.dropdowns, r.dropdowns)
  {
    var shown := s.(panelOpen := open, expanded := open, ariaLabel := if open then CloseLabel else OpenLabel);
    if open then shown else shown.(dropdowns := CloseAllDropdowns(s.dropdowns))
  }

  /** isOpen (script.js:180-182). */
  function IsOpen(s: State): bool
  {
    s.panelOpen
  }

  /** isOpen reads back what setOpen wrote, and opening a panel that is
      already open and shown as open changes nothing. */
  lemma IsOpenAfterSetOpen(s: State, open: bool)
    ensures IsOpen(SetOpen(s, open)) == open
    ensures PanelShown(s) && IsOpen(s) ==> SetOpen(s, true) == s
  {
  }

  /** A click on the menu toggle (script.js:184). */
  function OnMenuToggle(s: State): (r: State)
    ensures IsOpen(r) == !IsOpen(s)
    ensures PanelShown(r)
    ensures IsOpen(r) ==> r.dropdowns == s.dropdowns
    ensures !IsOpen(r) ==> NoneOpen(r.dropdowns) && AllMirror(r.dropdowns)
    ensures SameElements(s.dropdowns, r.dropdowns)
  {
    SetOpen(s, !IsOpen(s))
  }

  /** A dropdown's toggle is clickable only when it exists: the handler is
      attached only then (script.js:204-206). */
  predicate HasToggle(s: State, i: nat)
  {
    i < |s.dropdowns| && s.dropdowns[i].expanded.Some?
  }

  /** A click on the toggle of dropdown `i` (script.js:208-211): flips it
      and closes every other dropdown. */
  function OnDropdownToggle(s: State, i: nat): (r: State)
    requires HasToggle(s, i)
    ensures SameElements(s.dropdowns, r.dropdowns) && AllMirror(r.dropdowns)
    ensures r.dropdowns[i].open == !s.dropdowns[i].open
    ensures forall j :: 0 <= j < |r.dropdowns| && j != i ==> !r.dropdowns[j].open
    ensures r.panelOpen == s.panelOpen && r.expanded == s.expanded && r.ariaLabel == s.ariaLabel
  {
    s.(dropdowns := SetDropdownOpen(s.dropdowns, i, !s.dropdowns[i].open))
  }

  /** A click inside a dropdown container (script.js:213-216): a click on a
      link closes every dropdown. */
  function OnContainerClick(s: State, t: Target): (r: State)
    ensures t.Node? && t.inLink ==> NoneOpen(r.dropdowns) && AllMirror(r.dropdowns)
    ensures !(t.Node? && t.inLink) ==> r == s
    ensures r.panelOpen == s.panelOpen && r.expanded == s.expanded && r.ariaLabel == s.ariaLabel
    ensures SameElements(s.dropdowns, r.dropdowns)
  {
    if t.Node? && t.inLink then s.(dropdowns := CloseAllDropdowns(s.dropdowns)) else s
  }

  /** A key press (script.js:238-243): Escape closes the panel and every
      dropdown; other keys change nothing. */
  function OnKeyDown(s: State, key: string): (r: State)
    ensures key == "Escape" ==> !IsOpen(r) && PanelShown(r) && NoneOpen(r.dropdowns) && AllMirror(r.dropdowns)
    ensures key != "Escape" ==> r == s
    ensures SameElements(s.dropdowns, r.dropdowns)
  {
    if key == "Escape" then
      var closed := SetOpen(s, false);
      closed.(dropdowns := CloseAllDropdowns(closed.dropdowns))
    else s
  }

  /** A click inside the panel (script.js:246-249): a click on a link closes
      the panel. */
  function OnPanelClick(s: State, t: Target): (r: State)
    ensures t.Node? && t.inLink ==> !IsOpen(r) && PanelShown(r) && NoneOpen(r.dropdowns) && AllMirror(r.dropdowns)
    ensures !(t.Node? && t.inLink) ==> r == s
    ensures SameElements(s.dropdowns, r.dropdowns)
  {
    if t.Node? && t.inLink then SetOpen(s, false) else s
  }

  /** A click anywhere in the document (script.js:252-266): outside every
      dropdown it closes them all; outside the menu toggle and the panel it
      also closes the panel. */
  function OnDocumentClick(s: State, t: Target): (r: State)
    ensures t.NotANode? ==> r == s
    ensures t.Node? && t.dropdown.None? ==> NoneOpen(r.dropdowns) && AllMirror(r.dropdowns)
    ensures t.Node? && !t.inToggle && !t.inPanel ==>
              !IsOpen(r) && PanelShown(r) && NoneOpen(r.dropdowns) && AllMirror(r.dropdowns)
    ensures t.Node? && t.dropdown.Some? && (t.inToggle || t.inPanel) ==> r == s
    ensures t.Node? && (t.inToggle || t.inPanel) ==>
              r.panelOpen == s.panelOpen && r.expanded == s.expanded && r.ariaLabel == s.ariaLabel
    ensures SameElements(s.dropdowns, r.dropdowns)
  {
    if t.NotANode? then s
    else
      var outside := if t.dropdown.None? then s.(dropdowns := CloseAllDropdowns(s.dropdowns)) else s;
      if t.inToggle || t.inPanel then outside else SetOpen(outside, false)
  }

  // ---------------------------------------------------------------------
  // Runs of events

  datatype Event =
    | MenuToggleClicked
    | DropdownToggleClicked(index: nat)
    | ContainerClicked(container: nat, target: Target)
    | KeyPressed(key: string)
    | PanelClicked(target: Target)
    | DocumentClicked(target: Target)

  /** The event can happen on a page whose dropdowns are `ds`: the toggle and
      container listeners exist only for dropdowns that have a toggle
      (script.js:204-206), a container listener hears only clicks inside its
      container, and the panel listener only clicks inside the panel. */
  predicate Possible(ds: seq<Dropdown>, e: Event)
  {
    match e
    case DropdownToggleClicked(i) => i < |ds| && ds[i].expanded.Some?
    case ContainerClicked(i, t) => i < |ds| && ds[i].expanded.Some? && (t.Node? ==> t.dropdown.Some?)
    case PanelClicked(t) => t.Node? ==> t.inPanel
    case _ => true
  }

  function Step(s: State, e: Event): (r: State)
    requires Possible(s.dropdowns, e)
    ensures SameElements(s.dropdowns, r.dropdowns)
  {
    match e
    case MenuToggleClicked => OnMenuToggle(s)
    case DropdownToggleClicked(i) => OnDropdownToggle(s, i)
    case ContainerClicked(_, t) => OnContainerClick(s, t)
    case KeyPressed(k) => OnKeyDown(s, k)
    case PanelClicked(t) => OnPanelClick(s, t)
    case DocumentClicked(t) => OnDocumentClick(s, t)
  }

  /** Events are possible on every page with the same dropdown elements. */
  lemma PossibleOnSameElements(a: seq<Dropdown>, b: seq<Dropdown>, e: Event)
    requires SameElements(a, b) && Possible(a, e)
    ensures Possible(b, e)
  {
  }

  predicate AllPossible(ds: seq<Dropdown>, es: seq<Event>)
  {
    forall k :: 0 <= k < |es| ==> Possible(ds, es[k])
  }

  /** The events after the first stay possible once the first has run. */
  lemma StepKeepsPossible(s: State, es: seq<Event>)
    requires es != [] && AllPossible(s.dropdowns, es)
    ensures AllPossible(Step(s, es[0]).dropdowns, es[1..])
  {
    var next := Step(s, es[0]);
    forall k | 0 <= k < |es| - 1
      ensures Possible(next.dropdowns, es[1..][k])
    {
      PossibleOnSameElements(s.dropdowns, next.dropdowns, es[k + 1]);
    }
  }

  function Run(s: State, es: seq<Event>): (r: State)
    requires AllPossible(s.dropdowns, es)
    ensures SameElements(s.dropdowns, r.dropdowns)
    decreases |es|
  {
    if es == [] then s
    else
      StepKeepsPossible(s, es);
      Run(Step(s, es[0]), es[1..])
  }

  /** At most one dropdown is open and every toggle and menu mirrors its
      dropdown. */
  predicate DropdownsShown(ds: seq<Dropdown>)
  {
    AtMostOneOpen(ds) && AllMirror(ds)
  }

  /** Every handler keeps the dropdowns consistent, whatever the panel shows. */
  lemma StepKeepsDropdownsShown(s: State, e: Event)
    requires DropdownsShown(s.dropdowns) && Possible(s.dropdowns, e)
    ensures DropdownsShown(Step(s, e).dropdowns)
  {
  }

  /** However the user clicks and types, at most one dropdown is open and
      every toggle and menu mirrors its dropdown, whatever the markup gave
      the menu toggle's label. */
  lemma {:induction false} RunKeepsDropdownsShown(s: State, es: seq<Event>)
    requires DropdownsShown(s.dropdowns) && AllPossible(s.dropdowns, es)
    ensures DropdownsShown(Run(s, es).dropdowns)
    decreases |es|
  {
    if es != [] {
      StepKeepsDropdownsShown(s, es[0]);
      StepKeepsPossible(s, es);
      RunKeepsDropdownsShown(Step(s, es[0]), es[1..]);
    }
  }

  /** Every handler keeps the invariant. */
  lemma StepKeepsInv(s: State, e: Event)
    requires Inv(s) && Possible(s.dropdowns, e)
    ensures Inv(Step(s, e))
  {
  }

  /** From a consistent page, the menu toggle also keeps mirroring the panel
      after any run of clicks and key presses. */
  lemma {:induction false} RunKeepsInv(s: State, es: seq<Event>)
    requires Inv(s) && AllPossible(s.dropdowns, es)
    ensures Inv(Run(s, es))
    decreases |es|
  {
    if es != [] {
      StepKeepsInv(s, es[0]);
      StepKeepsPossible(s, es);
      RunKeepsInv(Step(s, es[0]), es[1..]);
    }
  }

  /** Closing twice is closing once. */
  lemma CloseAllIdempotent(ds: seq<Dropdown>)
    ensures CloseAllDropdowns(CloseAllDropdowns(ds)) == CloseAllDropdowns(ds)
  {
  }

  /** Opening a dropdown twice leaves it as opening it once. */
  lemma SetDropdownOpenIdempotent(ds: seq<Dropdown>, i: nat, open: bool)
    requires i < |ds|
    ensures SetDropdownOpen(SetDropdownOpen(ds, i, open), i, open) == SetDropdownOpen(ds, i, open)
  {
  }

  /** Two clicks on the menu toggle restore the panel, and leave the toggle's
      attributes consistent with it whatever they were before. */
  lemma MenuToggleTwice(s: State)
    ensures IsOpen(OnMenuToggle(OnMenuToggle(s))) == IsOpen(s)
    ensures PanelShown(OnMenuToggle(OnMenuToggle(s)))
  {
  }
}
