# StockMaster navigation controller, in Dafny

This project models the navigation controller of the StockMaster inventory web
UI (`navigation.js`). The controller keeps one section of the page visible and
one tab per tab group visible. Sidebar links, tabs, section contents and tab
contents are `Element` values: a key (`data-section`, `data-tab` or `id`) and an
`active` flag. They sit in arrays that the controller updates in place.

- `elements.dfy` (module `Elements`): element lists and the three rewrites the
  controller performs on them: clear every flag; mark every matching element;
  clear every flag and then mark the first match. It also defines the DOM
  lookup (`FirstIndexOf`) and the in-place clearing loop (`ClearActive`).
- `router.dfy` (module `Router`): the transitions stated on values.
  `SwitchSectionView`, `SwitchTabView` and `InitialSection` are defined here,
  together with the lemmas that state what the source promises about them.
- `navigation.dfy` (module `Navigation`): the `Page` class. It holds the link,
  section and tab-group arrays, the URL hash and the two mobile-sidebar classes.
  Its methods mirror `switchSection`, `updateSidebarActiveState`,
  `hideAllSections`, `setInitialActiveSection`, `switchTab` and the click
  handlers. `SwitchSection`, `SetInitialActiveSection`, `SwitchTab` and
  `TabClick` are proved to take the page to the state that a `Router`
  function gives. `UpdateSidebarActiveState` and `HideAllSections` are proved
  against `Elements.MarkedFor` and `Elements.Cleared`. The sidebar methods
  `ToggleMenu`, `DocumentClick` and `SidebarLinkClick` state their effect on
  the two classes directly.

The model follows the code as written:

- `switchSection` with a non-empty id that names no section is not a no-op. It
  still writes the hash, clears every link whose `data-section` differs and
  hides every section.
- Tab scope is not resolved from the clicked control. `switchTab` looks up the
  first tab in the whole document with that `data-tab` (see Findings).
- The tab groups are not tied to sections. `switchTab` works the same whichever
  section is visible.

## Model

| member | source | states |
|---|---|---|
| `Elements.Cleared` | navigation.js:158-162 | every element with its `active` class removed; characterised by `Elements.ClearedSpec` |
| `Elements.MarkedFor` | navigation.js:146-153 | each link's class removed and re-added where its `data-section` is the id; characterised by `Elements.MarkedForSpec` and `Elements.MarkedForIdempotent` |
| `Elements.ShownFirst` | navigation.js:130-136 | every element hidden, then the first with the looked-up id shown; characterised by `Elements.ShownFirstSpec`, `Elements.ShownFirstActiveCount` and `Elements.ShownFirstIdempotent` |
| `Elements.FirstIndexOf` | navigation.js:133 | an element lookup returns the first element in document order whose id (or attribute) equals the key, or nothing exactly when no element has that key |
| `Elements.ClearActive` | navigation.js:158-162 | removing `active` from every element of an array in place keeps every key and leaves no element active |
| `Elements.ClearedSpec` | navigation.js:158-162 | hiding all elements keeps their keys and leaves an active count of zero |
| `Elements.MarkedForSpec` | navigation.js:146-153 | after the sidebar update a link is active iff its `data-section` equals the id; the number of links and their attributes are unchanged |
| `Elements.MarkedForIdempotent` | navigation.js:147-151 | the sidebar update assigns and does not toggle, so running it twice gives the same links as running it once |
| `Elements.ShownFirstSpec` | navigation.js:130-136 | after clear-then-show an element is active iff it is the first one with the looked-up key; keys are kept |
| `Elements.FirstIndexOfKeys` | navigation.js:204 | the lookup after the flags are cleared finds the same element as a lookup before, because a lookup depends only on keys |
| `Elements.ShownFirstActiveCount` | navigation.js:130-136 | after clear-then-show exactly one element is active if the key is present, and none if it is absent |
| `Elements.ShownFirstIdempotent` | navigation.js:129-136 | clear-then-show twice with the same key gives the same list as once |
| `Router.SwitchSectionView` | navigation.js:119-140 | `switchSection` on values; characterised by `Router.SwitchSectionEmptyIsNoOp`, `Router.SwitchSectionLinks`, `Router.SwitchSectionSections`, `Router.SwitchSectionConsistent` and `Router.SwitchSectionIdempotent` |
| `Router.SwitchInGroup` | navigation.js:199-221 | the body of `switchTab` once its group is known; characterised by `Router.SwitchTabInGroup` and `Router.SwitchInGroupConsistent` |
| `Router.SwitchTabView` | navigation.js:191-222 | `switchTab` on the list of groups; characterised by `Router.SwitchTabNoMatch`, `Router.SwitchTabScoped` and `Router.SwitchTabInGroup` |
| `Router.HashName` | navigation.js:104 | `location.hash.substring(1)`: the hash without its first character; used by `Router.InitialSection` |
| `Router.TabClickAsWritten` | navigation.js:87-95 | the tab click handler as written, which passes the clicked `data-tab` to `switchTab`; `Router.TabClickAsWrittenMissesClickedGroup` exhibits its defect |
| `Router.TabClickCorrected` | navigation.js:87-95 | the tab click handler as evidently intended, which switches the clicked group; characterised by `Router.TabClickSwitchesClickedGroup` |
| `Router.FirstGroupWith` | navigation.js:196 | the chosen tab group is the first one in document order that holds a tab with that `data-tab`; nothing is chosen iff no group holds one |
| `Router.InitialSection` | navigation.js:104-112 | the start section is the hash without its first character when that name is one of the seven listed sections, and `dashboard` otherwise; it is always one of the seven |
| `Router.InitialSectionSwitches` | navigation.js:107-112 | the start-up switch is never rejected: it writes the chosen name to the hash, and that name is the hash's own name or the default |
| `Router.SwitchSectionEmptyIsNoOp` | navigation.js:121 | `switchSection` with the empty id leaves hash, links and sections unchanged and loads nothing |
| `Router.SwitchSectionLinks` | navigation.js:124-127 | for any non-empty id, known or not, the hash becomes exactly that id and each link is active iff its `data-section` is the id |
| `Router.SwitchSectionSections` | navigation.js:129-139 | after `switchSection(s)` the only active section is the first one with id `s-section`; none is active if no such section exists; the section loader runs iff it exists |
| `Router.SwitchSectionConsistent` | navigation.js:127-135 | a visible section and an active link always refer to the same section: the section's id is the link's `data-section` plus `-section` |
| `Router.SwitchSectionIdempotent` | navigation.js:119-140 | applying `switchSection(s)` twice gives the same links, sections and hash as applying it once, and the loader condition is the same both times |
| `Router.SwitchTabNoMatch` | navigation.js:193-197 | `switchTab` with the empty id, or with an id that no tab carries, changes no group and loads nothing |
| `Router.SwitchTabScoped` | navigation.js:196-209 | every group other than the one holding the first matching tab is left exactly as it was |
| `Router.SwitchTabInGroup` | navigation.js:199-221 | in the chosen group exactly one tab is active, the first with that `data-tab`; a following container shows only the first `t-tab`; a missing container stays missing; the tab loader runs iff that content exists |
| `Router.SwitchInGroupConsistent` | navigation.js:204-216 | within a switched group, a visible content's id is the active tab's `data-tab` plus `-tab` |
| `Router.TabClickAsWrittenMissesClickedGroup` | navigation.js:87-95 | as written, clicking the tab `all` of the second of two groups that both have `all` switches the first group and leaves the clicked tab inactive |
| `Router.TabClickSwitchesClickedGroup` | navigation.js:87-95 | on any page, one group or many, the intended click handler changes only the clicked group, to `SwitchInGroup` of it with the clicked `data-tab`; there it leaves exactly one tab active, keyed like the clicked one, and that tab is the clicked one unless an earlier tab in the group has the same key |
| `Navigation.Page.constructor` | navigation.js:8-14 | the element collections are taken once at load, and no two of them are the same array |
| `Navigation.Page.UpdateSidebarActiveState` | navigation.js:146-153 | the links array becomes the marked list of its old contents, updated in place |
| `Navigation.Page.HideAllSections` | navigation.js:158-162 | the sections array becomes its old contents with every flag cleared |
| `Navigation.Page.SwitchSection` | navigation.js:119-140 | links, sections and hash become `SwitchSectionView` of the old state; the section loader trace grows by the id iff the section exists; no tab group changes |
| `Navigation.Page.SetInitialActiveSection` | navigation.js:102-113 | the page takes the state of `switchSection(InitialSection(hash))`, and the hash ends up as one of the seven section names |
| `Navigation.TabGroup.Switch` | navigation.js:199-221 | the group's tabs and container, updated in place, become `SwitchInGroup` of their old view; it reports the loader call iff a container follows and holds `t-tab` |
| `Navigation.Page.SwitchWithinGroup` | navigation.js:207-221 | only group `g` changes, to `SwitchInGroup` of its old view; the tab loader trace grows iff the tab content exists |
| `Navigation.Page.SwitchTab` | navigation.js:191-222 | the tab groups become `SwitchTabView` of the old groups; links, sections and hash are untouched |
| `Navigation.Page.TabClick` | navigation.js:87-95 | the corrected click handler gives the groups of `Router.TabClickCorrected`, leaves the sections untouched, and grows the tab loader trace iff the clicked `data-tab` is non-empty and its `t-tab` content follows the clicked group |
| `Navigation.Page.ToggleMenu` | navigation.js:41-44 | the toggle flips both the sidebar `show` class and the body `sidebar-open` class, so the two stay in step |
| `Navigation.Page.DocumentClick` | navigation.js:48-55 | a click outside the sidebar and the toggle, on a viewport narrower than 992, clears both classes; any other click changes nothing |
| `Navigation.Page.SidebarLinkClick` | navigation.js:62-79 | a link click switches to its `data-section` when that is non-empty, with the section loader trace of that switch, and then clears both sidebar classes when the viewport is narrower than 992; the tab loader trace and the tab groups are untouched |

## Left out

- DOM querying and traversal (`querySelectorAll`, `closest`, `nextElementSibling`, `getElementById`) are replaced by explicit arrays in document order and by the pure lookups `FirstIndexOf` and `FirstGroupWith`.
- `getElementById` and the `#id` query search every element, not only `.section-content` and `.tab-content`. An element with a matching id that is neither is not modelled.
- A tab outside any `.tabs` element, and `.tabs` groups nested inside each other, are not modelled. Every tab belongs to exactly one group.
- A `.tabs` group placed inside another group's content container is not modelled: `Page.Valid` makes every container a separate array. In the source, switching the outer group there also clears the inner group's contents (lines 209-211) and may show an inner element (line 214), so the scoping promised by `Router.SwitchTabScoped` does not hold for that layout.
- Ids that are not valid in a CSS selector are not modelled: a `data-tab` with a `"`, or one that starts with a digit, makes `querySelector` throw. Every id is assumed to be selector-safe.
- Event registration, `preventDefault`, the bubbling of a link click to the document handler, and the `sidebar.contains(e.target)` test are left out. The test's outcome is the `onSidebarOrToggle` parameter of `DocumentClick`, and the viewport width is a parameter of the click methods.
- The click handlers' own `if (sectionId)` / `if (tabId)` guards are modelled, but a missing `menuToggle` (no toggle listener) is not: `ToggleMenu` models a click on an existing toggle.
- `Navigation.Page.SwitchSection`: `hash` holds the value last assigned to `window.location.hash`. The browser's normalisation of that value (a leading `#`, percent-encoding) and the history entry and `hashchange` event it triggers are not modelled. The controller reads the hash only once, at start-up, before it writes it.
- `console.log` and `console.error` output, the page-level `error` handler, and the commented-out loaders and toast code carry no logic. The data loaders appear only as the ghost traces `sectionLoads` and `tabLoads` of the ids they are called with.
- The `window.StockMaster.Navigation` export only exposes `switchSection` and `switchTab`, which are modelled.

## Findings

| source | as written | input that shows it | evidently intended | confidence | as-written member | corrected member |
|---|---|---|---|---|---|---|
| navigation.js:87-95 | a tab click calls `switchTab(tabId)`, which switches the group of the first tab in the whole document with that `data-tab` (line 196) | two `.tabs` groups that both have a tab `data-tab="all"`; click `all` in the second group: the first group is switched and the clicked group is unchanged | the click switches the group of the clicked tab ("switch to a specific tab within the current section") | not executed; medium: only pages that reuse a `data-tab` value across groups are affected | `Router.TabClickAsWrittenMissesClickedGroup` | `Router.TabClickSwitchesClickedGroup` |
