/** The navigation controller's transitions stated on plain values: what
    `switchSection`, `switchTab` and the start-up choice of section do to the
    links, sections, tab groups and hash, independent of where the elements
    live. The `Page` class in module `Navigation` is proved against these. */
module Router {
  import opened Elements

  /** The seven section names the start-up code accepts from the URL hash. */
  const ValidSections: seq<string> :=
    ["dashboard", "products", "inventory", "sales", "suppliers", "reports", "settings"]

  /** The section shown when the hash names none of them. */
  const DefaultSection: string := "dashboard"

  /** The viewport width below which a link click or an outside click closes
      the mobile sidebar. */
  const MobileBreakpoint: int := 992

  /** What `switchSection` reads and writes: the sidebar links, the section
      contents and the value last assigned to `window.location.hash`. */
  datatype SectionView = SectionView(links: seq<Element>, sections: seq<Element>, hash: string)

  /** One `.tabs` element: its tabs, and the tab contents of the element that
      follows it, or `None` when no element follows it. */
  datatype GroupView = GroupView(tabs: seq<Element>, contents: Option<seq<Element>>)

  /** The id of the element that holds section `s`. */
  function SectionElementId(s: string): string { s + "-section" }

  /** The id of the element that holds the content of tab `t`. */
  function TabElementId(t: string): string { t + "-tab" }

  /** `switchSection(s)`: nothing for the empty id; otherwise the hash becomes
      `s`, each link is marked by its `data-section`, and every section is
      hidden before the first one with id `s-section` is shown. */
  function SwitchSectionView(v: SectionView, s: string): SectionView
  {
    if s == "" then v
    else SectionView(MarkedFor(v.links, s), ShownFirst(v.sections, SectionElementId(s)), s)
  }

  /** Whether `switchSection(s)` calls the section data loader. */
  predicate SectionLoads(v: SectionView, s: string)
  {
    s != "" && HasKey(v.sections, SectionElementId(s))
  }

  /** The index of the group holding the first tab, in document order, whose
      `data-tab` is `t`: the group `closest('.tabs')` reaches from it. */
  function FirstGroupWith(gs: seq<GroupView>, t: string): (r: Option<nat>)
    ensures r.Some? ==> r.value < |gs| && HasKey(gs[r.value].tabs, t)
    ensures r.Some? ==> forall j :: 0 <= j < r.value ==> !HasKey(gs[j].tabs, t)
    ensures r.None? <==> forall j :: 0 <= j < |gs| ==> !HasKey(gs[j].tabs, t)
  {
    if gs == [] then None
    else if FirstIndexOf(gs[0].tabs, t).Some? then Some(0)
    else match FirstGroupWith(gs[1..], t)
      case None => None
      case Some(i) => Some(i + 1)
  }

  /** The body of `switchTab` once its group is known: every tab of the group
      cleared and the first one keyed `t` marked; if a content container
      follows, every content in it hidden and the first with id `t-tab` shown. */
  function SwitchInGroup(g: GroupView, t: string): GroupView
  {
    GroupView(
      ShownFirst(g.tabs, t),
      match g.contents
      case None => None
      case Some(cs) => Some(ShownFirst(cs, TabElementId(t))))
  }

  /** `switchTab(t)` on the list of groups, in document order. */
  function SwitchTabView(gs: seq<GroupView>, t: string): seq<GroupView>
  {
    if t == "" then gs
    else match FirstGroupWith(gs, t)
      case None => gs
      case Some(i) => gs[i := SwitchInGroup(gs[i], t)]
  }

  /** Whether switching group `g` to tab `t` calls the tab data loader. */
  predicate GroupLoads(g: GroupView, t: string)
  {
    g.contents.Some? && HasKey(g.contents.value, TabElementId(t))
  }

  /** Whether `switchTab(t)` calls the tab data loader. */
  predicate TabLoads(gs: seq<GroupView>, t: string)
  {
    t != "" && FirstGroupWith(gs, t).Some? && GroupLoads(gs[FirstGroupWith(gs, t).value], t)
  }

  /** `location.hash.substring(1)`: the hash without its first character. */
  function HashName(locationHash: string): string
  {
    if |locationHash| == 0 then "" else locationHash[1..]
  }

  /** The section `setInitialActiveSection` switches to. */
  function InitialSection(locationHash: string): (s: string)
    ensures s in ValidSections && s != ""
    ensures HashName(locationHash) in ValidSections ==> s == HashName(locationHash)
    ensures HashName(locationHash) !in ValidSections ==> s == DefaultSection
  {
    var name := HashName(locationHash);
    if name != "" && name in ValidSections then name else DefaultSection
  }

  // ---- switchSection ----

  /** The empty id is rejected before anything is touched. */
  lemma SwitchSectionEmptyIsNoOp(v: SectionView)
    ensures SwitchSectionView(v, "") == v
    ensures !SectionLoads(v, "")
  {
  }

  /** For any other id the hash becomes that id, even when no section has it,
      each link is active iff its `data-section` is the id, and the links keep
      their number and attributes. */
  lemma SwitchSectionLinks(v: SectionView, s: string)
    requires s != ""
    ensures SwitchSectionView(v, s).hash == s
    ensures SameKeys(v.links, SwitchSectionView(v, s).links)
    ensures forall i :: 0 <= i < |v.links| ==>
      (SwitchSectionView(v, s).links[i].active <==> v.links[i].key == s)
  {
    MarkedForSpec(v.links, s);
  }

  /** After `switchSection(s)` at most one section is active: exactly the first
      one with id `s-section` when there is one, and none otherwise. The loader
      runs exactly when that section exists. */
  lemma SwitchSectionSections(v: SectionView, s: string)
    requires s != ""
    ensures SameKeys(v.sections, SwitchSectionView(v, s).sections)
    ensures forall i :: 0 <= i < |v.sections| ==>
      (SwitchSectionView(v, s).sections[i].active <==> FirstIndexOf(v.sections, SectionElementId(s)) == Some(i))
    ensures ActiveCount(SwitchSectionView(v, s).sections) == (if SectionLoads(v, s) then 1 else 0)
  {
    ShownFirstSpec(v.sections, SectionElementId(s));
    ShownFirstActiveCount(v.sections, SectionElementId(s));
  }

  /** The section shown and the link marked agree: when a section is shown,
      its id is the marked links' `data-section` followed by `-section`. */
  lemma SwitchSectionConsistent(v: SectionView, s: string, i: nat, j: nat)
    requires s != ""
    requires i < |v.sections| && SwitchSectionView(v, s).sections[i].active
    requires j < |v.links| && SwitchSectionView(v, s).links[j].active
    ensures v.sections[i].key == SectionElementId(v.links[j].key)
  {
    ShownFirstSpec(v.sections, SectionElementId(s));
    MarkedForSpec(v.links, s);
  }

  /** Every effect of `switchSection` assigns rather than toggles, so a second
      call with the same id changes nothing further (the loader runs again). */
  lemma SwitchSectionIdempotent(v: SectionView, s: string)
    ensures SwitchSectionView(SwitchSectionView(v, s), s) == SwitchSectionView(v, s)
    ensures SectionLoads(SwitchSectionView(v, s), s) == SectionLoads(v, s)
  {
    if s != "" {
      MarkedForIdempotent(v.links, s);
      ShownFirstIdempotent(v.sections, SectionElementId(s));
      ShownFirstSpec(v.sections, SectionElementId(s));
      FirstIndexOfKeys(v.sections, SwitchSectionView(v, s).sections, SectionElementId(s));
    }
  }

  // ---- setInitialActiveSection ----

  /** Start-up shows the section named by the hash when that name is one of
      the seven, and `dashboard` otherwise; in either case the id is non-empty,
      so the switch is never rejected and the hash is rewritten to it. */
  lemma InitialSectionSwitches(v: SectionView, locationHash: string)
    ensures var s := InitialSection(locationHash);
      SwitchSectionView(v, s).hash == s &&
      (s == HashName(locationHash) || s == DefaultSection)
  {
  }

  // ---- switchTab ----

  /** `switchTab` does nothing for the empty id or when no tab has that
      `data-tab`. */
  lemma SwitchTabNoMatch(gs: seq<GroupView>, t: string)
    requires t == "" || forall j :: 0 <= j < |gs| ==> !HasKey(gs[j].tabs, t)
    ensures SwitchTabView(gs, t) == gs
    ensures !TabLoads(gs, t)
  {
  }

  /** Otherwise only the group of the first matching tab changes: the other
      groups, and the number of groups, stay as they were. */
  lemma SwitchTabScoped(gs: seq<GroupView>, t: string, j: nat)
    requires j < |gs|
    requires t == "" || FirstGroupWith(gs, t) != Some(j)
    ensures |SwitchTabView(gs, t)| == |gs|
    ensures SwitchTabView(gs, t)[j] == gs[j]
  {
  }

  /** Within the chosen group exactly one tab ends up active, the first keyed
      `t`; the content container, when present, shows only the first `t-tab`
      and otherwise stays absent; the loader runs iff that content exists. */
  lemma SwitchTabInGroup(gs: seq<GroupView>, t: string, g: nat)
    requires t != "" && FirstGroupWith(gs, t) == Some(g)
    ensures var r := SwitchTabView(gs, t)[g];
      && SameKeys(gs[g].tabs, r.tabs)
      && ActiveCount(r.tabs) == 1
      && (forall i :: 0 <= i < |r.tabs| ==> (r.tabs[i].active <==> FirstIndexOf(gs[g].tabs, t) == Some(i)))
      && r.contents.Some? == gs[g].contents.Some?
      && (r.contents.Some? ==> r.contents.value == ShownFirst(gs[g].contents.value, t + "-tab"))
    ensures TabLoads(gs, t) <==> gs[g].contents.Some? && HasKey(gs[g].contents.value, t + "-tab")
  {
    ShownFirstSpec(gs[g].tabs, t);
    ShownFirstActiveCount(gs[g].tabs, t);
  }

  /** Within a switched group, a shown content belongs to the marked tab: its
      id is the active tab's `data-tab` followed by `-tab`. */
  lemma SwitchInGroupConsistent(g: GroupView, t: string, i: nat, j: nat)
    requires g.contents.Some?
    requires var r := SwitchInGroup(g, t);
      i < |r.tabs| && r.tabs[i].active && j < |r.contents.value| && r.contents.value[j].active
    ensures g.contents.value[j].key == TabElementId(g.tabs[i].key)
  {
    ShownFirstSpec(g.tabs, t);
    ShownFirstSpec(g.contents.value, TabElementId(t));
  }

  // ---- the tab click handler ----

  /** The click handler as written: it passes the clicked tab's `data-tab` to
      `switchTab`, which looks the id up in the whole document. */
  function TabClickAsWritten(gs: seq<GroupView>, g: nat, j: nat): seq<GroupView>
    requires g < |gs| && j < |gs[g].tabs|
  {
    SwitchTabView(gs, gs[g].tabs[j].key)
  }

  /** The click handler as evidently intended: switch the group of the tab
      that was clicked. */
  function TabClickCorrected(gs: seq<GroupView>, g: nat, j: nat): seq<GroupView>
    requires g < |gs| && j < |gs[g].tabs|
  {
    var t := gs[g].tabs[j].key;
    if t == "" then gs else gs[g := SwitchInGroup(gs[g], t)]
  }

  /** Two groups that both have a tab `all`; in each the `all` tab is inactive
      and the `low` tab active. */
  const TwoGroups: seq<GroupView> := [
    GroupView([Element("all", false), Element("low", true)], None),
    GroupView([Element("all", false), Element("low", true)], None)
  ]

  /** Clicking `all` in the second group switches the first group and leaves
      the clicked tab inactive. */
  lemma TabClickAsWrittenMissesClickedGroup()
    ensures TabClickAsWritten(TwoGroups, 1, 0)[1] == TwoGroups[1]
    ensures !TabClickAsWritten(TwoGroups, 1, 0)[1].tabs[0].active
    ensures TabClickAsWritten(TwoGroups, 1, 0)[0] != TwoGroups[0]
  {
    // The first group already holds a tab `all`, so `FirstGroupWith` stops there.
  }

  /** The intended handler changes only the clicked group, and there the
      active tab is keyed like the clicked one; it is the clicked tab itself
      unless an earlier tab of the same group has the same `data-tab`. */
  lemma TabClickSwitchesClickedGroup(gs: seq<GroupView>, g: nat, j: nat)
    requires g < |gs| && j < |gs[g].tabs| && gs[g].tabs[j].key != ""
    ensures var r := TabClickCorrected(gs, g, j);
      && |r| == |gs|
      && (forall o :: 0 <= o < |gs| && o != g ==> r[o] == gs[o])
      && r[g] == SwitchInGroup(gs[g], gs[g].tabs[j].key)
      && ActiveCount(r[g].tabs) == 1
      && (forall i :: 0 <= i < |r[g].tabs| && r[g].tabs[i].active ==>
            gs[g].tabs[i].key == gs[g].tabs[j].key && i <= j)
      && ((forall i :: 0 <= i < j ==> gs[g].tabs[i].key != gs[g].tabs[j].key) ==> r[g].tabs[j].active)
  {
    var t := gs[g].tabs[j].key;
    assert HasKey(gs[g].tabs, t);
    ShownFirstSpec(gs[g].tabs, t);
    ShownFirstActiveCount(gs[g].tabs, t);
  }
}
