/** The navigation controller of the page: the element collections it
    queries once at load, the URL hash and the mobile sidebar classes it
    updates in place, and the handlers that drive them. */
module Navigation {
  import opened Elements
  import opened Router

  /** One `.tabs` element: its tabs, and the `.tab-content` elements of its
      next element sibling, which is `null` when the group is the last child. */
  class TabGroup {
    const tabs: array<Element>
    const container: array?<Element>

    constructor (tabs: array<Element>, container: array?<Element>)
      ensures this.tabs == tabs && this.container == container
    {
      this.tabs := tabs;
      this.container := container;
    }

    function View(): GroupView
      reads tabs, container
    {
      GroupView(tabs[..], if container == null then None else Some(container[..]))
    }

    /** Lines 199-221 of `switchTab`: clear every tab and mark the first keyed
        `tabId`; if a container follows, hide its contents and show the first
        `tabId-tab`. `loaded` is whether the tab data loader is called. */
    method Switch(tabId: string) returns (loaded: bool)
      requires tabs != container
      modifies tabs, container
      ensures View() == SwitchInGroup(old(View()), tabId)
      ensures loaded == GroupLoads(old(View()), tabId)
    {
      ghost var before := View();
      ClearActive(tabs);
      FirstIndexOfKeys(before.tabs, tabs[..], tabId);
      var tab := FirstIndexOf(tabs[..], tabId);
      if tab.Some? {
        tabs[tab.value] := tabs[tab.value].(active := true);
      }
      loaded := false;
      if container != null {
        ClearActive(container);
        FirstIndexOfKeys(before.contents.value, container[..], TabElementId(tabId));
        var content := FirstIndexOf(container[..], TabElementId(tabId));
        if content.Some? {
          container[content.value] := container[content.value].(active := true);
          loaded := true;
        }
      }
    }
  }

  class Page {
    /** `.sidebar-menu a`, in document order. */
    const links: array<Element>
    /** `.section-content`, in document order. */
    const sections: array<Element>
    /** The `.tabs` groups, in document order. */
    const groups: seq<TabGroup>
    /** `window.location.hash`: as the browser reports it at load, then the
        value the controller last assigned to it. */
    var hash: string
    /** `sidebar` has the class `show`. */
    var sidebarShown: bool
    /** `document.body` has the class `sidebar-open`. */
    var bodyOpen: bool
    /** The ids the section and tab data loaders were called with, in order. */
    ghost var sectionLoads: seq<string>
    ghost var tabLoads: seq<string>

    /** No two of the page's element collections are the same array: a DOM
        element is a link, a section, a tab or a tab content of one group. */
    ghost predicate Valid()
    {
      && links != sections
      && (forall i :: 0 <= i < |groups| ==>
            && groups[i].tabs != links && groups[i].tabs != sections
            && groups[i].container != links && groups[i].container != sections
            && groups[i].container != groups[i].tabs)
      && (forall i, j :: 0 <= i < |groups| && 0 <= j < |groups| && i != j ==>
            && groups[i].tabs != groups[j].tabs
            && groups[i].tabs != groups[j].container
            && (groups[i].container != null ==> groups[i].container != groups[j].container))
    }

    /** Every array a tab switch may write. */
    ghost function TabArrays(): set<object?>
    {
      (set i | 0 <= i < |groups| :: groups[i].tabs as object?) +
      (set i | 0 <= i < |groups| :: groups[i].container as object?)
    }

    function SectionState(): SectionView
      reads this, links, sections
    {
      SectionView(links[..], sections[..], hash)
    }

    function GroupViews(): (r: seq<GroupView>)
      reads TabArrays()
      ensures |r| == |groups|
    {
      seq(|groups|, i requires 0 <= i < |groups| reads TabArrays() => groups[i].View())
    }

    ghost predicate MenuInSync()
      reads this
    {
      sidebarShown == bodyOpen
    }

    constructor (links: array<Element>, sections: array<Element>, groups: seq<TabGroup>,
                 locationHash: string, sidebarShown: bool, bodyOpen: bool)
      requires links != sections
      requires forall i :: 0 <= i < |groups| ==>
        && groups[i].tabs != links && groups[i].tabs != sections
        && groups[i].container != links && groups[i].container != sections
        && groups[i].container != groups[i].tabs
      requires forall i, j :: 0 <= i < |groups| && 0 <= j < |groups| && i != j ==>
        && groups[i].tabs != groups[j].tabs
        && groups[i].tabs != groups[j].container
        && (groups[i].container != null ==> groups[i].container != groups[j].container)
      ensures Valid()
      ensures this.links == links && this.sections == sections && this.groups == groups
      ensures hash == locationHash && this.sidebarShown == sidebarShown && this.bodyOpen == bodyOpen
      ensures sectionLoads == [] && tabLoads == []
    {
      this.links := links;
      this.sections := sections;
      this.groups := groups;
      hash := locationHash;
      this.sidebarShown := sidebarShown;
      this.bodyOpen := bodyOpen;
      sectionLoads := [];
      tabLoads := [];
    }

    /** `updateSidebarActiveState`: each link loses `active`, and gets it back
        when its `data-section` is `sectionId`. */
    method UpdateSidebarActiveState(sectionId: string)
      modifies links
      ensures links[..] == MarkedFor(old(links[..]), sectionId)
    {
      for i := 0 to links.Length
        invariant forall j :: 0 <= j < i ==> links[j] == old(links[j]).(active := old(links[j]).key == sectionId)
        invariant forall j :: i <= j < links.Length ==> links[j] == old(links[j])
      {
        links[i] := links[i].(active := false);
        if links[i].key == sectionId {
          links[i] := links[i].(active := true);
        }
      }
    }

    /** `hideAllSections`. */
    method HideAllSections()
      modifies sections
      ensures sections[..] == Cleared(old(sections[..]))
    {
      ClearActive(sections);
    }

    /** `switchSection`. */
    method SwitchSection(sectionId: string)
      requires Valid()
      modifies this`hash, this`sectionLoads, links, sections
      ensures SectionState() == SwitchSectionView(old(SectionState()), sectionId)
      ensures sectionLoads == old(sectionLoads) +
        (if SectionLoads(old(SectionState()), sectionId) then [sectionId] else [])
      ensures GroupViews() == old(GroupViews())
    {
      if sectionId == "" {
        return;
      }
      hash := sectionId;
      UpdateSidebarActiveState(sectionId);
      HideAllSections();
      var found := FirstIndexOf(sections[..], SectionElementId(sectionId));
      if found.Some? {
        sections[found.value] := sections[found.value].(active := true);
        sectionLoads := sectionLoads + [sectionId];
      }
      FirstIndexOfKeys(old(sections[..]), old(Cleared(sections[..])), SectionElementId(sectionId));
    }

    /** `setInitialActiveSection`: reads the hash once and switches to the
        section it names, or to `dashboard`. */
    method SetInitialActiveSection()
      requires Valid()
      modifies this`hash, this`sectionLoads, links, sections
      ensures SectionState() == SwitchSectionView(old(SectionState()), InitialSection(old(hash)))
      ensures sectionLoads == old(sectionLoads) +
        (if SectionLoads(old(SectionState()), InitialSection(old(hash)))
         then [InitialSection(old(hash))] else [])
      ensures hash in ValidSections
    {
      SwitchSection(InitialSection(hash));
    }

    /** The body of `switchTab` from the point where its `.tabs` element is
        known: here, group `g`. */
    method SwitchWithinGroup(g: nat, tabId: string)
      requires Valid() && g < |groups|
      modifies groups[g].tabs, groups[g].container, this`tabLoads
      ensures GroupViews() == old(GroupViews())[g := SwitchInGroup(old(GroupViews())[g], tabId)]
      ensures tabLoads == old(tabLoads) +
        (if GroupLoads(old(GroupViews())[g], tabId) then [tabId] else [])
    {
      var loaded := groups[g].Switch(tabId);
      if loaded {
        tabLoads := tabLoads + [tabId];
      }
    }

    /** `switchTab`: resolves the group of the first tab in the document
        whose `data-tab` is `tabId`, and switches that group. */
    method SwitchTab(tabId: string)
      requires Valid()
      modifies TabArrays(), this`tabLoads
      ensures GroupViews() == SwitchTabView(old(GroupViews()), tabId)
      ensures tabLoads == old(tabLoads) + (if TabLoads(old(GroupViews()), tabId) then [tabId] else [])
      ensures SectionState() == old(SectionState())
    {
      if tabId == "" {
        return;
      }
      var found := FirstGroupWith(GroupViews(), tabId);
      if found.None? {
        return;
      }
      SwitchWithinGroup(found.value, tabId);
    }

    /** A click on the tab at index `j` of group `g`, as evidently intended:
        the clicked group is switched, whatever other group has a tab with the
        same `data-tab`. */
    method TabClick(g: nat, j: nat)
      requires Valid() && g < |groups| && j < groups[g].tabs.Length
      modifies TabArrays(), this`tabLoads
      ensures GroupViews() == TabClickCorrected(old(GroupViews()), g, j)
      ensures tabLoads == old(tabLoads) +
        (if old(groups[g].tabs[j].key) != "" && GroupLoads(old(GroupViews())[g], old(groups[g].tabs[j].key))
         then [old(groups[g].tabs[j].key)] else [])
      ensures SectionState() == old(SectionState())
    {
      var tabId := groups[g].tabs[j].key;
      if tabId != "" {
        SwitchWithinGroup(g, tabId);
      }
    }

    /** The menu toggle button: flips both classes. */
    method ToggleMenu()
      modifies this`sidebarShown, this`bodyOpen
      ensures sidebarShown == !old(sidebarShown) && bodyOpen == !old(bodyOpen)
      ensures old(MenuInSync()) ==> MenuInSync()
    {
      sidebarShown := !sidebarShown;
      bodyOpen := !bodyOpen;
    }

    /** A click anywhere in the document. `onSidebarOrToggle` is whether the
        target lies inside the sidebar or is the toggle button. */
    method DocumentClick(innerWidth: int, onSidebarOrToggle: bool)
      modifies this`sidebarShown, this`bodyOpen
      ensures if innerWidth < MobileBreakpoint && !onSidebarOrToggle
        then !sidebarShown && !bodyOpen
        else sidebarShown == old(sidebarShown) && bodyOpen == old(bodyOpen)
      ensures old(MenuInSync()) ==> MenuInSync()
    {
      if innerWidth < MobileBreakpoint && !onSidebarOrToggle {
        sidebarShown := false;
        bodyOpen := false;
      }
    }

    /** A click on sidebar link `i`: switches to its `data-section` when that
        is non-empty and then, on a narrow viewport, closes the sidebar. */
    method SidebarLinkClick(i: nat, innerWidth: int)
      requires Valid() && i < links.Length
      modifies this`hash, this`sectionLoads, this`sidebarShown, this`bodyOpen, links, sections
      ensures SectionState() == SwitchSectionView(old(SectionState()), old(links[i].key))
      ensures sectionLoads == old(sectionLoads) +
        (if SectionLoads(old(SectionState()), old(links[i].key)) then [old(links[i].key)] else [])
      ensures if old(links[i].key) != "" && innerWidth < MobileBreakpoint
        then !sidebarShown && !bodyOpen
        else sidebarShown == old(sidebarShown) && bodyOpen == old(bodyOpen)
      ensures GroupViews() == old(GroupViews())
    {
      var sectionId := links[i].key;
      if sectionId != "" {
        SwitchSection(sectionId);
        if innerWidth < MobileBreakpoint {
          sidebarShown := false;
          bodyOpen := false;
        }
      }
    }
  }
}
