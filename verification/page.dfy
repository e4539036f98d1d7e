/** Handlers that touch both the open state and the marks. */
module Page {
  import opened Wrappers
  import opened NavLinks
  import ActiveMarks
  import OpenState

  /** A click on the logo (script.js:219-226): closes the panel and every
      dropdown, and marks the first Home link if there is one. */
  method OnBrandClick(nav: Nav, menu: OpenState.State, marks: seq<bool>)
    returns (menu': OpenState.State, marks': seq<bool>)
    requires ActiveMarks.Fits(nav, marks)
    ensures !OpenState.IsOpen(menu') && OpenState.PanelShown(menu')
    ensures OpenState.NoneOpen(menu'.dropdowns) && OpenState.AllMirror(menu'.dropdowns)
    ensures OpenState.SameElements(menu.dropdowns, menu'.dropdowns)
    ensures |marks'| == |marks|
    ensures HomeLink(nav).None? ==> marks' == marks
    ensures HomeLink(nav).Some? ==> ActiveMarks.Active(marks') == {nav.links[HomeLink(nav).value].id}
  {
    menu' := OpenState.SetOpen(menu, false);
    var home := HomeLink(nav);
    if home.None? {
      marks' := marks;
    } else {
      var link := nav.links[home.value];
      assert link in nav.links;
      assert link.id in Ids(nav);
      marks' := ActiveMarks.OnLinkClick(marks, link);
    }
  }
}
