/** Which navigation elements belong to the current location
    (script.js, syncActiveFromLocation and getHomeLink).

    The page is abstracted to lists of already-parsed links: the top-level
    `a.nav-link` links, the `.nav-actions a.btn` action buttons, the
    `.dropdown-item` entries with the index of their enclosing dropdown
    container, and the containers with their `.dropdown-toggle`, if any. */
module NavLinks {
  import opened Wrappers
  import PageKey

  /** An element of the page, named by its position in the document. */
  type ElementId = nat

  /** A link target as `new URL(a.href)` yields it, or the exception it
      throws (which every matching rule treats as "no match"). */
  datatype Href = Parsed(pathname: string, hash: string) | Unparsable

  datatype Anchor = Anchor(id: ElementId, href: Href)

  /** A dropdown entry and the index of the container `closest` finds. */
  datatype Item = Item(anchor: Anchor, container: Option<nat>)

  /** A dropdown container and its toggle button, when it has one. */
  datatype Container = Container(toggle: Option<ElementId>)

  datatype Nav = Nav(links: seq<Anchor>, actions: seq<Anchor>, items: seq<Item>, containers: seq<Container>)

  /** The browser location: its pathname and its hash ("" or "#..."). */
  datatype Location = Location(pathname: string, hash: string)

  /** Every item's container is one of the page's containers. */
  predicate WellFormed(nav: Nav)
  {
    forall j :: 0 <= j < |nav.items| && nav.items[j].container.Some? ==>
      nav.items[j].container.value < |nav.containers|
  }

  /** Every element the navigation can mark. */
  function Ids(nav: Nav): set<ElementId>
  {
    (set a | a in nav.links :: a.id)
    + (set a | a in nav.actions :: a.id)
    + (set it | it in nav.items :: it.anchor.id)
    + (set c | c in nav.containers && c.toggle.Some? :: c.toggle.value)
  }

  function Key(loc: Location): string
  {
    PageKey.Normalize(loc.pathname)
  }

  /** The link leads to page `key` with hash `hash`. */
  predicate Hits(h: Href, key: string, hash: string)
  {
    h.Parsed? && PageKey.Normalize(h.pathname) == key && h.hash == hash
  }

  /** The link leads to page `key`, whatever its hash. */
  predicate OnPage(h: Href, key: string)
  {
    h.Parsed? && PageKey.Normalize(h.pathname) == key
  }

  predicate NoHit(anchors: seq<Anchor>, key: string, hash: string)
  {
    forall j :: 0 <= j < |anchors| ==> !Hits(anchors[j].href, key, hash)
  }

  /** Position `i` holds the first link, in document order, that hits. */
  predicate IsFirstHit(anchors: seq<Anchor>, key: string, hash: string, i: nat)
  {
    && i < |anchors|
    && Hits(anchors[i].href, key, hash)
    && NoHit(anchors[..i], key, hash)
  }

  /** `Array.prototype.find` with the matching rule `Hits`. */
  function FindAnchor(anchors: seq<Anchor>, key: string, hash: string): (r: Option<nat>)
    ensures r.Some? ==> IsFirstHit(anchors, key, hash, r.value)
    ensures r.None? ==> NoHit(anchors, key, hash)
  {
    if anchors == [] then None
    else if Hits(anchors[0].href, key, hash) then Some(0)
    else
      match FindAnchor(anchors[1..], key, hash)
      case None => None
      case Some(i) =>
        NoHitAfterMiss(anchors, key, hash, i);
        Some(i + 1)
  }

  /** A miss at the head followed by no hit in the next `i` links is no hit
      in the first `i + 1`. */
  lemma NoHitAfterMiss(anchors: seq<Anchor>, key: string, hash: string, i: nat)
    requires 0 < |anchors| && i < |anchors| && !Hits(anchors[0].href, key, hash)
    requires NoHit(anchors[1..][..i], key, hash)
    ensures NoHit(anchors[..i + 1], key, hash)
  {
    var before := anchors[..i + 1];
    forall j | 0 <= j < |before|
      ensures !Hits(before[j].href, key, hash)
    {
      if j > 0 {
        assert before[j] == anchors[1..][..i][j - 1];
      }
    }
  }

  function ItemAnchors(items: seq<Item>): (r: seq<Anchor>)
    ensures |r| == |items|
    ensures forall j :: 0 <= j < |items| ==> r[j] == items[j].anchor
  {
    seq(|items|, j requires 0 <= j < |items| => items[j].anchor)
  }

  /** The toggle of the container that holds item `j`, if both exist. */
  function ParentToggle(nav: Nav, j: nat): Option<ElementId>
    requires WellFormed(nav) && j < |nav.items|
  {
    match nav.items[j].container
    case None => None
    case Some(c) => nav.containers[c].toggle
  }

  /** What a dropdown-item match marks: the item and its parent's toggle. */
  function ItemTargets(nav: Nav, j: nat): (els: seq<ElementId>)
    requires WellFormed(nav) && j < |nav.items|
    ensures 1 <= |els| <= 2 && els[0] == nav.items[j].anchor.id
    ensures |els| == 2 <==> ParentToggle(nav, j).Some?
    ensures |els| == 2 ==> els[1] == ParentToggle(nav, j).value
  {
    match ParentToggle(nav, j)
    case None => [nav.items[j].anchor.id]
    case Some(t) => [nav.items[j].anchor.id, t]
  }

  /** Container `c` holds an item leading to page `key`, whatever its hash. */
  predicate HasItemOnPage(nav: Nav, c: nat, key: string)
  {
    exists j :: 0 <= j < |nav.items| && nav.items[j].container == Some(c) && OnPage(nav.items[j].anchor.href, key)
  }

  /** The first container, from `from` on, holding an item for page `key`. */
  function FindContainer(nav: Nav, key: string, from: nat): (r: Option<nat>)
    requires from <= |nav.containers|
    ensures r.Some? ==> from <= r.value < |nav.containers| && HasItemOnPage(nav, r.value, key)
    ensures r.Some? ==> forall c :: from <= c < r.value ==> !HasItemOnPage(nav, c, key)
    ensures r.None? ==> forall c :: from <= c < |nav.containers| ==> !HasItemOnPage(nav, c, key)
    decreases |nav.containers| - from
  {
    if from == |nav.containers| then None
    else if HasItemOnPage(nav, from, key) then Some(from)
    else
      var r := FindContainer(nav, key, from + 1);
      assert r.Some? ==> forall c {:trigger HasItemOnPage(nav, c, key)} :: from <= c < r.value ==> c == from || from + 1 <= c;
      r
  }

  /** getHomeLink: the first top-level link to the home page without a hash. */
  function HomeLink(nav: Nav): (r: Option<nat>)
    ensures r.Some? ==> r.value < |nav.links| && Hits(nav.links[r.value].href, "index", "")
    ensures r.Some? ==> NoHit(nav.links[..r.value], "index", "")
    ensures r.None? ==> NoHit(nav.links, "index", "")
  {
    FindAnchor(nav.links, "index", "")
  }

  /** `els` is something a rule may mark: at most two elements of the page. */
  predicate Markable(nav: Nav, els: seq<ElementId>)
  {
    |els| <= 2 && forall e :: e in els ==> e in Ids(nav)
  }

  /** Rules 1 and 2 (script.js:84-111): a top-level link to this page and
      hash; failing that, a dropdown item to this page and hash, with its
      toggle. None when neither rule applies. */
  function HashMatch(nav: Nav, key: string, hash: string): (r: Option<seq<ElementId>>)
    requires WellFormed(nav)
    ensures r.Some? ==> Markable(nav, r.value)
    ensures r.None? <==> NoHit(nav.links, key, hash) && NoHit(ItemAnchors(nav.items), key, hash)
  {
    match FindAnchor(nav.links, key, hash)
    case Some(i) =>
      assert nav.links[i] in nav.links;
      Some([nav.links[i].id])
    case None =>
      match FindAnchor(ItemAnchors(nav.items), key, hash)
      case Some(j) =>
        ItemTargetsInNav(nav, j);
        Some(ItemTargets(nav, j))
      case None => None
  }

  /** Rules 3 and 4 (script.js:113-140): a top-level link or action button to
      this page without a hash; failing that, a dropdown item to this page
      without a hash, with its toggle. None when neither rule applies. */
  function PageMatch(nav: Nav, key: string): (r: Option<seq<ElementId>>)
    requires WellFormed(nav)
    ensures r.Some? ==> Markable(nav, r.value)
    ensures r.None? <==> NoHit(nav.links + nav.actions, key, "") && NoHit(ItemAnchors(nav.items), key, "")
  {
    var topLevel := nav.links + nav.actions;
    match FindAnchor(topLevel, key, "")
    case Some(i) =>
      assert topLevel[i] in nav.links || topLevel[i] in nav.actions;
      Some([topLevel[i].id])
    case None =>
      match FindAnchor(ItemAnchors(nav.items), key, "")
      case Some(j) =>
        ItemTargetsInNav(nav, j);
        Some(ItemTargets(nav, j))
      case None => None
  }

  /** Rules 5 to 7 (script.js:142-170): the toggle of the first dropdown
      holding an item for this page; failing that, on the home page the Home
      link, or None (marks left alone) when there is none; elsewhere nothing. */
  function Fallback(nav: Nav, key: string): (r: Option<seq<ElementId>>)
    ensures r.Some? ==> Markable(nav, r.value)
    ensures r.None? ==> key == "index" && NoHit(nav.links, "index", "")
  {
    var parent := FindContainer(nav, key, 0);
    if parent.Some? && nav.containers[parent.value].toggle.Some? then
      assert nav.containers[parent.value] in nav.containers;
      Some([nav.containers[parent.value].toggle.value])
    else if key == "index" then
      match HomeLink(nav)
      case Some(h) =>
        assert nav.links[h] in nav.links;
        Some([nav.links[h].id])
      case None => None
    else
      Some([])
  }

  /** syncActiveFromLocation (script.js:79-171): the elements to mark as the
      current page, or None when the marks are left as they are. The first
      rule that applies decides; the hash rules are tried only when the
      location has a hash. */
  function Select(nav: Nav, loc: Location): (r: Option<seq<ElementId>>)
    requires WellFormed(nav)
    ensures r.Some? ==> Markable(nav, r.value)
    ensures r.None? ==> Key(loc) == "index" && NoHit(nav.links, "index", "")
  {
    var key := Key(loc);
    if loc.hash != "" && HashMatch(nav, key, loc.hash).Some? then HashMatch(nav, key, loc.hash)
    else if PageMatch(nav, key).Some? then PageMatch(nav, key)
    else Fallback(nav, key)
  }

  lemma ItemTargetsInNav(nav: Nav, j: nat)
    requires WellFormed(nav) && j < |nav.items|
    ensures forall e :: e in ItemTargets(nav, j) ==> e in Ids(nav)
  {
    assert nav.items[j] in nav.items;
    var c := nav.items[j].container;
    if c.Some? {
      assert nav.containers[c.value] in nav.containers;
    }
  }

  // ---------------------------------------------------------------------
  // The matching order

  /** `find` returns exactly the first hit. */
  lemma {:induction false} FirstHitIsFound(anchors: seq<Anchor>, key: string, hash: string, i: nat)
    requires IsFirstHit(anchors, key, hash, i)
    ensures FindAnchor(anchors, key, hash) == Some(i)
  {
    if i > 0 {
      assert anchors[..i][0] == anchors[0];
      var rest := anchors[1..];
      var before := rest[..i - 1];
      forall j | 0 <= j < |before|
        ensures !Hits(before[j].href, key, hash)
      {
        assert before[j] == anchors[..i][j + 1];
      }
      assert IsFirstHit(rest, key, hash, i - 1);
      FirstHitIsFound(rest, key, hash, i - 1);
    }
  }

  /** No hit in a list means no hit in its first part. */
  lemma NoHitPrefix(a: seq<Anchor>, b: seq<Anchor>, key: string, hash: string)
    requires NoHit(a + b, key, hash)
    ensures NoHit(a, key, hash)
  {
    forall j | 0 <= j < |a| ensures !Hits(a[j].href, key, hash) {
      assert (a + b)[j] == a[j];
    }
  }

  /** Neither hash rule applies: the location has no hash, or no top-level
      link and no dropdown item leads to this page and hash. */
  predicate NoHashMatch(nav: Nav, loc: Location)
  {
    loc.hash == "" || (NoHit(nav.links, Key(loc), loc.hash) && NoHit(ItemAnchors(nav.items), Key(loc), loc.hash))
  }

  /** None of the four link rules applies. */
  predicate NoLinkMatch(nav: Nav, loc: Location)
  {
    && NoHashMatch(nav, loc)
    && NoHit(nav.links + nav.actions, Key(loc), "")
    && NoHit(ItemAnchors(nav.items), Key(loc), "")
  }

  /** `c` is the first container holding an item for page `key`. */
  predicate IsFirstContainer(nav: Nav, key: string, c: nat)
  {
    && c < |nav.containers|
    && HasItemOnPage(nav, c, key)
    && forall c' :: 0 <= c' < c ==> !HasItemOnPage(nav, c', key)
  }

  /** The parent-only rule does not apply: no container holds an item for
      this page, or the first that does has no toggle. */
  predicate NoParentMatch(nav: Nav, key: string)
  {
    forall c :: 0 <= c < |nav.containers| && IsFirstContainer(nav, key, c) ==> nav.containers[c].toggle.None?
  }

  /** Rule 1: with a hash, the first top-level link to this page and hash is
      the only element marked, whatever else matches. */
  lemma TopLevelHashMatchWins(nav: Nav, loc: Location, i: nat)
    requires WellFormed(nav)
    requires loc.hash != ""
    requires IsFirstHit(nav.links, Key(loc), loc.hash, i)
    ensures Select(nav, loc) == Some([nav.links[i].id])
  {
    FirstHitIsFound(nav.links, Key(loc), loc.hash, i);
  }

  /** Rule 2: otherwise the first dropdown item to this page and hash is
      marked together with its parent's toggle. */
  lemma ItemHashMatchMarksParent(nav: Nav, loc: Location, j: nat)
    requires WellFormed(nav)
    requires loc.hash != ""
    requires NoHit(nav.links, Key(loc), loc.hash)
    requires IsFirstHit(ItemAnchors(nav.items), Key(loc), loc.hash, j)
    ensures Select(nav, loc) == Some(ItemTargets(nav, j))
  {
    FirstHitIsFound(ItemAnchors(nav.items), Key(loc), loc.hash, j);
  }

  /** Rule 3: without a hash match, the first top-level link or action
      button (links before buttons) to this page without a hash is marked. */
  lemma PageMatchFirstInOrder(nav: Nav, loc: Location, i: nat)
    requires WellFormed(nav)
    requires NoHashMatch(nav, loc)
    requires IsFirstHit(nav.links + nav.actions, Key(loc), "", i)
    ensures Select(nav, loc) == Some([(nav.links + nav.actions)[i].id])
  {
    FirstHitIsFound(nav.links + nav.actions, Key(loc), "", i);
  }

  /** Rule 4: then the first dropdown item to this page without a hash is
      marked together with its parent's toggle. */
  lemma ItemPageMatchMarksParent(nav: Nav, loc: Location, j: nat)
    requires WellFormed(nav)
    requires NoHashMatch(nav, loc)
    requires NoHit(nav.links + nav.actions, Key(loc), "")
    requires IsFirstHit(ItemAnchors(nav.items), Key(loc), "", j)
    ensures Select(nav, loc) == Some(ItemTargets(nav, j))
  {
    FirstHitIsFound(ItemAnchors(nav.items), Key(loc), "", j);
  }

  /** Rule 5: then the toggle of the first dropdown holding an item for this
      page (any hash) is the only element marked. */
  lemma ParentOnlyMarksToggle(nav: Nav, loc: Location, c: nat)
    requires WellFormed(nav)
    requires NoLinkMatch(nav, loc)
    requires IsFirstContainer(nav, Key(loc), c) && nav.containers[c].toggle.Some?
    ensures Select(nav, loc) == Some([nav.containers[c].toggle.value])
  {
    var r := FindContainer(nav, Key(loc), 0);
  }

  /** Rule 6 never marks anything: on the home page a Home link would already
      have been the page match of rule 3, so when the search falls through to
      the fallback there is no Home link and the marks are left unchanged. */
  lemma HomeFallbackLeavesMarks(nav: Nav, loc: Location)
    requires WellFormed(nav)
    requires NoLinkMatch(nav, loc) && NoParentMatch(nav, Key(loc))
    requires Key(loc) == "index"
    ensures Select(nav, loc).None?
  {
    var key := Key(loc);
    var r := FindContainer(nav, key, 0);
    if r.Some? {
      assert IsFirstContainer(nav, key, r.value);
    }
    NoHitPrefix(nav.links, nav.actions, key, "");
    assert HomeLink(nav).None?;
    assert Fallback(nav, key).None?;
    assert PageMatch(nav, key).None?;
  }

  /** Rule 7: away from the home page, when nothing matches, every mark is
      cleared. */
  lemma NoMatchClears(nav: Nav, loc: Location)
    requires WellFormed(nav)
    requires NoLinkMatch(nav, loc) && NoParentMatch(nav, Key(loc))
    requires Key(loc) != "index"
    ensures Select(nav, loc) == Some([])
  {
    var r := FindContainer(nav, Key(loc), 0);
    if r.Some? {
      assert IsFirstContainer(nav, Key(loc), r.value);
    }
  }

  /** A top-level link that is the first to this page without a hash is
      also the first among links and action buttons, since links come first. */
  lemma FirstLinkIsPageMatch(nav: Nav, key: string, i: nat)
    requires WellFormed(nav)
    requires IsFirstHit(nav.links, key, "", i)
    ensures PageMatch(nav, key) == Some([nav.links[i].id])
  {
    var all := nav.links + nav.actions;
    assert all[..i] == nav.links[..i];
    assert all[i] == nav.links[i];
    FirstHitIsFound(all, key, "", i);
  }

  /** On the home page without a hash, the first Home link is marked. */
  lemma HomeLinkMarkedOnHomePage(nav: Nav, loc: Location, i: nat)
    requires WellFormed(nav)
    requires Key(loc) == "index" && loc.hash == ""
    requires IsFirstHit(nav.links, "index", "", i)
    ensures Select(nav, loc) == Some([nav.links[i].id])
  {
    FirstLinkIsPageMatch(nav, Key(loc), i);
  }
}
