/** The `aria-current="page"` marks of the document (script.js,
    clearActive, setActiveElements and the link click handlers). Element `k`
    of the page carries the mark when `marks[k]` holds. */
module ActiveMarks {
  import opened Wrappers
  import opened NavLinks

  /** The elements currently marked. */
  function Active(marks: seq<bool>): set<ElementId>
  {
    set k: nat | k < |marks| && marks[k]
  }

  /** Every navigation element is an element of the document. */
  predicate Fits(nav: Nav, marks: seq<bool>)
  {
    forall e :: e in Ids(nav) ==> e < |marks|
  }

  /** setActiveElements (script.js:30-33, 60-65): clears every mark in the
      document, then marks the given elements. */
  method SetActiveElements(marks: seq<bool>, els: seq<ElementId>) returns (r: seq<bool>)
    requires forall e :: e in els ==> e < |marks|
    ensures |r| == |marks|
    ensures forall k :: 0 <= k < |r| ==> (r[k] <==> k in els)
    ensures Active(r) == Elements(els)
  {
    // clearActive
    r := marks;
    var k := 0;
    while k < |r|
      invariant 0 <= k <= |r| == |marks|
      invariant forall m :: 0 <= m < k ==> !r[m]
    {
      r := r[k := false];
      k := k + 1;
    }
    var i := 0;
    while i < |els|
      invariant 0 <= i <= |els|
      invariant |r| == |marks|
      invariant forall m :: 0 <= m < |r| ==> (r[m] <==> m in els[..i])
    {
      assert els[i] in els;
      r := r[els[i] := true];
      assert els[..i + 1] == els[..i] + [els[i]];
      i := i + 1;
    }
    assert els[..i] == els;
  }

  /** syncActiveFromLocation (script.js:79-171) applied to the document:
      the marks become exactly the selected elements, or stay as they are
      when nothing is selected. */
  method SyncActiveFromLocation(nav: Nav, loc: Location, marks: seq<bool>) returns (r: seq<bool>)
    requires WellFormed(nav) && Fits(nav, marks)
    ensures |r| == |marks|
    ensures Select(nav, loc).None? ==> r == marks
    ensures Select(nav, loc).Some? ==> Active(r) == Elements(Select(nav, loc).value)
    ensures Select(nav, loc).Some? ==> |Active(r)| <= 2
  {
    match Select(nav, loc)
    case None =>
      r := marks;
    case Some(els) =>
      r := SetActiveElements(marks, els);
      CardinalityOfElements(els);
  }

  /** The elements listed in `els`. */
  function Elements(els: seq<ElementId>): set<ElementId>
  {
    set e | e in els
  }

  lemma {:induction false} CardinalityOfElements(els: seq<ElementId>)
    ensures |Elements(els)| <= |els|
  {
    if els == [] {
      assert Elements(els) == {};
    } else {
      var init := els[..|els| - 1];
      var last := els[|els| - 1];
      CardinalityOfElements(init);
      assert els == init + [last];
      assert Elements(els) == Elements(init) + {last};
    }
  }

  /** A click on a top-level link or action button (script.js:187-192):
      that link alone is marked. */
  method OnLinkClick(marks: seq<bool>, link: Anchor) returns (r: seq<bool>)
    requires link.id < |marks|
    ensures |r| == |marks|
    ensures Active(r) == {link.id}
  {
    r := SetActiveElements(marks, [link.id]);
  }

  /** A click on dropdown item `j` (script.js:193-201): the item and the
      toggle of its dropdown, when it has one, are marked. */
  method OnItemClick(nav: Nav, j: nat, marks: seq<bool>) returns (r: seq<bool>)
    requires WellFormed(nav) && Fits(nav, marks) && j < |nav.items|
    ensures |r| == |marks|
    ensures nav.items[j].anchor.id in Active(r)
    ensures ParentToggle(nav, j).None? ==> Active(r) == {nav.items[j].anchor.id}
    ensures ParentToggle(nav, j).Some? ==> Active(r) == {nav.items[j].anchor.id, ParentToggle(nav, j).value}
  {
    ItemTargetsInNav(nav, j);
    r := SetActiveElements(marks, ItemTargets(nav, j));
  }
}
