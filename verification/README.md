# Navigation layer of the site script, in Dafny

This project models the navigation behaviour of the site's `script.js`:

- **Page keys** (`PageKey`): how a URL path becomes the key that pages are
  compared by (`normalizePageKey`).
- **Active-link selection** (`NavLinks`, `ActiveMarks`): the fixed-priority
  rules of `syncActiveFromLocation` that decide which navigation elements
  carry `aria-current="page"`, and `setActiveElements`, which replaces every
  mark in the document by the chosen ones.
- **Open/closed state** (`OpenState`, `Page`): the mobile menu panel and
  the dropdowns, with `setOpen`, `setDropdownOpen`, `closeAllDropdowns`, and
  the toggle, Escape, logo and click handlers.

The document is abstracted away. The page's links are lists of records:
top-level links, action buttons, dropdown items with the index of their
container, and containers with their toggle. Each link carries its href as
already parsed into pathname and hash, or marked as unparsable. An
unparsable href never matches, which models the `try`/`catch` around
`new URL`. The `aria-current` marks are one flag per element of the page. A
click target is described by where it lies: inside which dropdown, inside a
link, inside the menu toggle, inside the panel.

One thing the proofs bring out (`NavLinks.HomeFallbackLeavesMarks`): the
"underline Home on the home page" fallback of `syncActiveFromLocation` never
marks anything. On the home page a Home link is already the page match of
the earlier top-level rule. When the search does reach the fallback, no Home
link exists, and the existing marks are left as they were rather than
cleared.

## Model

| member | source | states |
|---|---|---|
| PageKey.Split | script.js:23 | `split('/')` yields at least one segment and no segment contains '/' |
| PageKey.JoinSplit | script.js:23 | splitting loses nothing: joining the segments with '/' gives the path back |
| PageKey.SplitJoin | script.js:23 | splitting slash-free segments joined by '/' gives the same segments back |
| PageKey.SplitConcat | script.js:23 | a '/' separates the segments on its two sides: the split of `a/b` is the split of `a` followed by the split of `b` |
| PageKey.SplitNoSlash | script.js:23 | a path without '/' is a single segment |
| PageKey.NonEmpty | script.js:23 | `filter(Boolean)` keeps every non-empty segment of the input and nothing else, never more entries than the input |
| PageKey.NonEmptySingle | script.js:23 | on one segment the filter keeps it exactly when it is non-empty; with the concatenation lemma this fixes the filter, order included, on every list |
| PageKey.NonEmptyConcat | script.js:23 | filtering distributes over concatenation |
| PageKey.Last | script.js:24 | the last element of the filtered segments, or "" when there is none: the empty list gives "", and appending a segment makes it the last one (`PageKey.LastOfAppend`) |
| PageKey.LastOfAppend | script.js:24 | whatever precedes it, a segment appended at the end is the one `Last` returns |
| PageKey.LastSegment | script.js:22-24 | the last non-empty segment never contains '/' |
| PageKey.LowerChar | script.js:24 | an upper-case ASCII letter becomes the same letter in lower case; every other character is kept; only '/' maps to '/' |
| PageKey.StripHtml | script.js:25 | a trailing ".html" is removed exactly once; other strings are unchanged |
| PageKey.LowerOfLower | script.js:24 | `toLowerCase` lower-cases each character in place: the result has no upper-case letter, and a string that had none is returned unchanged |
| PageKey.Normalize | script.js:21-28 | the page key is never empty, has no '/', and has no upper-case letter |
| PageKey.TrailingSlashIgnored | script.js:23-24 | a trailing '/' does not change the last segment |
| PageKey.RepeatedSlashIgnored | script.js:23-24 | "//" inside a path acts as a single '/' |
| PageKey.OnlyLastSegmentCounts | script.js:23-24 | everything before the last non-empty segment is ignored |
| PageKey.NoSegmentIffAllSlashes | script.js:23-24 | a path has no non-empty segment exactly when it consists only of slashes |
| PageKey.SlashesAreIndex | script.js:22-26 | the empty path, "/" and any all-slash path have key "index" |
| PageKey.TrailingSlashKey | script.js:21-28 | `p` and `p/` have the same page key |
| PageKey.RepeatedSlashKey | script.js:21-28 | `a//b` and `a/b` have the same page key |
| PageKey.LastSegmentKey | script.js:21-28 | `a/b` has the key of `b` whenever `b` has a segment |
| PageKey.IndexIsHome | script.js:26 | "/index" has key "index" |
| PageKey.IndexHtmlIsHome | script.js:25-26 | "/index.html" has key "index" |
| PageKey.UpperIndexIsHome | script.js:24-26 | "/INDEX.HTML" has key "index" |
| PageKey.UpperCaseSuffix | script.js:24-25 | lower-casing comes before stripping: "/About.HTML" has key "about" |
| PageKey.SuffixStrippedOnce | script.js:25 | only one ".html" is removed: "/a.html.html" has key "a.html" |
| PageKey.KeyIsStable | script.js:21-28 | a lower-case, slash-free name that does not end in ".html" is its own key |
| NavLinks.FindAnchor | script.js:85-92 | `find` returns the first link, in document order, whose parsed href has the page key and hash asked for (`NavLinks.Hits`; an href `new URL` cannot parse counts as no match, as the try/catch does), and nothing only when no link matches |
| NavLinks.NoHitAfterMiss | script.js:85-92 | a miss at the first link followed by no hit among the next ones is no hit in the whole prefix |
| NavLinks.FirstHitIsFound | script.js:85-92 | whenever link `i` is the first match, `find` returns exactly `i` |
| NavLinks.ItemTargets | script.js:104-110 | a dropdown-item match marks the item and, exactly when its container has a toggle, that toggle |
| NavLinks.FindContainer | script.js:144-156 | the first container holding an item for the page (any hash), or none when no container does |
| NavLinks.HomeLink | script.js:67-77 | `getHomeLink` returns the first top-level link to key "index" without a hash, or none when there is no such link |
| NavLinks.HashMatch | script.js:84-111 | the hash rules apply exactly when some top-level link or dropdown item matches page and hash; they mark at most two elements of the nav |
| NavLinks.PageMatch | script.js:113-140 | the page rules apply exactly when some top-level link, action button or dropdown item matches the page without a hash |
| NavLinks.Fallback | script.js:142-170 | the fallback marks elements of the nav only; it leaves the marks untouched only on the home page when there is no Home link |
| NavLinks.Select | script.js:79-171 | at most two nav elements are chosen; the marks are left unchanged only on the home page when no Home link exists |
| NavLinks.TopLevelHashMatchWins | script.js:84-93 | with a hash, the first top-level link matching page and hash is the only element marked, whatever else matches |
| NavLinks.ItemHashMatchMarksParent | script.js:95-110 | otherwise the first dropdown item matching page and hash is marked together with its parent toggle |
| NavLinks.PageMatchFirstInOrder | script.js:113-122 | when the location has no hash, or no hash rule applies, the first top-level link or action button (links first) to this page with an empty hash of its own is the only element marked |
| NavLinks.ItemPageMatchMarksParent | script.js:124-140 | then the first dropdown item matching the page with an empty hash is marked together with its parent toggle |
| NavLinks.ParentOnlyMarksToggle | script.js:142-160 | then only the toggle of the first dropdown holding any item for the page is marked |
| NavLinks.HomeFallbackLeavesMarks | script.js:162-167 | on the home page with no other match, the Home fallback marks nothing and leaves the marks as they are |
| NavLinks.NoMatchClears | script.js:169-170 | away from the home page, when no rule applies, every mark is cleared |
| NavLinks.FirstLinkIsPageMatch | script.js:114-122 | the first top-level link to the page without a hash is the page match, ahead of every action button |
| NavLinks.HomeLinkMarkedOnHomePage | script.js:113-122 | on the home page without a hash, the first Home link is the only element marked |
| ActiveMarks.SetActiveElements | script.js:60-65 | afterwards the marked elements are exactly the given ones; every earlier mark is cleared |
| ActiveMarks.SyncActiveFromLocation | script.js:79-171 | the marks become exactly the selected elements (at most two), or stay as they were when nothing is selected |
| ActiveMarks.CardinalityOfElements | script.js:62-64 | a list of elements marks at most as many elements as it has entries |
| ActiveMarks.OnLinkClick | script.js:187-192 | clicking a top-level link or action button leaves exactly that link marked |
| ActiveMarks.OnItemClick | script.js:193-201 | clicking a dropdown item marks exactly the item and its parent toggle, if it has one |
| OpenState.SetIfPresent | script.js:41 | an attribute is written only on an element that exists |
| OpenState.Show | script.js:52-57 | setting a dropdown's flag makes its toggle and menu show that flag |
| OpenState.CloseAllDropdowns | script.js:35-46 | every dropdown is closed and its toggle and menu show it; no element appears or disappears |
| OpenState.SetDropdownOpen | script.js:48-58 | dropdown `i` gets the requested flag, every other dropdown is closed, so at most one is open, and every toggle mirrors its flag |
| OpenState.SetOpen | script.js:173-178 | the panel gets the requested state with matching `aria-expanded` and label; closing it closes every dropdown; opening it leaves them alone |
| OpenState.IsOpenAfterSetOpen | script.js:173-182 | `isOpen` reads back the state `setOpen` wrote, and opening a panel already open and shown as open changes nothing |
| OpenState.OnMenuToggle | script.js:180-184 | the menu toggle flips the panel state with matching `aria-expanded` and label; opening leaves the dropdowns alone, closing closes every dropdown with its toggle and menu; the dropdown elements are kept |
| OpenState.OnDropdownToggle | script.js:204-211 | a dropdown's toggle flips that dropdown and closes all others, without touching the panel |
| OpenState.OnContainerClick | script.js:213-216 | a click on a link inside a dropdown closes every dropdown with its toggle and menu, and leaves the panel and the menu toggle's attributes alone; other clicks change nothing |
| OpenState.OnKeyDown | script.js:238-243 | Escape closes the panel and every dropdown; any other key changes nothing |
| OpenState.OnPanelClick | script.js:246-249 | a click on a link in the panel closes the panel and every dropdown, each toggle and menu showing closed; other clicks change nothing |
| OpenState.OnDocumentClick | script.js:252-266 | a click outside every dropdown closes them all; a click outside the toggle and panel also closes the panel and every dropdown, each toggle and menu showing closed; a click inside the toggle or the panel leaves the panel open or closed as it was; a click inside a dropdown within the panel changes nothing |
| OpenState.Step | script.js:184-266 | no handler adds or removes dropdowns, toggles or menus |
| OpenState.Run | script.js:184-266 | a run of events keeps the same dropdown elements |
| OpenState.StepKeepsPossible | script.js:204-217 | the listeners that exist stay the same after a handler runs, so every later event of a run can still happen |
| OpenState.StepKeepsDropdownsShown | script.js:184-266 | every handler keeps at most one dropdown open with every toggle and menu mirroring its dropdown, whatever the menu toggle's label |
| OpenState.RunKeepsDropdownsShown | script.js:184-266 | after any sequence of clicks and key presses at most one dropdown is open and every toggle and menu mirrors its dropdown, whatever label the markup gave the menu toggle |
| OpenState.StepKeepsInv | script.js:184-266 | every handler keeps the invariant: at most one dropdown open, every toggle and menu mirroring its dropdown, the menu toggle mirroring the panel |
| OpenState.RunKeepsInv | script.js:184-266 | from a page whose menu toggle already mirrors the panel, that too holds after any sequence of clicks and key presses |
| OpenState.PossibleOnSameElements | script.js:204-217 | whether a dropdown toggle or container listener exists depends only on which elements exist |
| OpenState.CloseAllIdempotent | script.js:35-46 | closing every dropdown twice is the same as once |
| OpenState.SetDropdownOpenIdempotent | script.js:48-58 | setting a dropdown twice to the same flag is the same as once |
| OpenState.MenuToggleTwice | script.js:173-184 | two clicks on the menu toggle restore the panel state, from any state, and leave the toggle's attributes matching it |
| Page.OnBrandClick | script.js:219-226 | a logo click closes the panel and every dropdown, keeping the dropdown elements, and marks exactly the first Home link, or leaves the marks alone when there is none |

## Left out

- The footer year (script.js:3-9): it reads the wall clock.
- The early return when the menu toggle or panel is missing (script.js:19): the model assumes both exist.
- Event wiring: listener registration and the order in which one click reaches the item, container, panel and document handlers. Each handler is a separate transition here.
- `requestAnimationFrame` sequencing and the `underline-armed` class (script.js:229-235): scheduling only. The initial sync is the same `SyncActiveFromLocation` that `hashchange` runs.
- URL parsing, `closest`, `querySelector` and `contains`: links carry a parsed pathname and hash, items carry their container, and click targets carry their position.
- `instanceof` checks: every element is an HTML element. A dropdown item that is not an anchor has no usable href, and is modelled as an unparsable one.
- Nested dropdown containers: each item belongs to one container, the one `closest` finds. An outer container's `querySelectorAll` would also see the items of containers nested inside it.
- PageKey.LowerChar: models `toLowerCase` on the ASCII letters only. Non-ASCII case mapping (including letters whose lower case has a different length) is not modelled.
- OpenState.State: the panel's `data-state` is a flag. Any value other than "open" counts as closed, as `isOpen` reads it.
