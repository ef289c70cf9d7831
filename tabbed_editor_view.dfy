/** One editor pane: its tab ids resolved to documents, the tab it shows,
    and the actions its clicks and edits dispatch. */
module TabbedEditorView {
  import opened Lists
  import opened Types
  import TabGroups

  /** A resolved tab: the chapter or the fragment behind a tab id. */
  datatype OpenTab = ChapterTab(chapter: Chapter) | FragmentTab(fragment: Fragment)

  function TabId(t: OpenTab): Id {
    match t
    case ChapterTab(c) => c.id
    case FragmentTab(f) => f.id
  }

  function TabIds(tabs: seq<OpenTab>): (r: seq<Id>)
    ensures |r| == |tabs|
    ensures forall i :: 0 <= i < |tabs| ==> r[i] == TabId(tabs[i])
  {
    seq(|tabs|, i requires 0 <= i < |tabs| => TabId(tabs[i]))
  }

  lemma TabIdsCons(t: OpenTab, rest: seq<OpenTab>)
    ensures TabIds([t] + rest) == [TabId(t)] + TabIds(rest)
  {
  }

  /** The document a tab id names: a chapter is looked for first, so a
      chapter and a fragment with the same id resolve to the chapter. */
  function Resolve(toc: Toc, fragments: seq<Fragment>, id: Id): (r: Option<OpenTab>)
    ensures r.Some? ==> TabId(r.value) == id
    ensures r.None? <==> FindChapter(toc, id).None? && FindFragment(fragments, id).None?
    ensures r.Some? && r.value.ChapterTab? ==> r.value.chapter in AllChapters(toc)
    ensures r.Some? && r.value.FragmentTab? ==> r.value.fragment in fragments && FindChapter(toc, id).None?
  {
    var c := FindChapter(toc, id);
    if c.Some? then Some(ChapterTab(c.value))
    else
      var f := FindFragment(fragments, id);
      if f.Some? then Some(FragmentTab(f.value)) else None
  }

  function Resolves(toc: Toc, fragments: seq<Fragment>): Id -> bool {
    id => Resolve(toc, fragments, id).Some?
  }

  /** `openTabs`: the group's tab ids resolved in tab order, the ones that
      name no document dropped. */
  function OpenTabs(toc: Toc, fragments: seq<Fragment>, ids: seq<Id>): (r: seq<OpenTab>)
    ensures |r| <= |ids|
    ensures forall t :: t in r ==> Resolve(toc, fragments, TabId(t)) == Some(t)
  {
    if |ids| == 0 then []
    else
      var rest := OpenTabs(toc, fragments, ids[1..]);
      var t := Resolve(toc, fragments, ids[0]);
      if t.Some? then [t.value] + rest else rest
  }

  /** The resolved tabs are exactly the tab ids that name a document, in
      tab order. */
  lemma {:induction false} OpenTabsIds(toc: Toc, fragments: seq<Fragment>, ids: seq<Id>)
    ensures TabIds(OpenTabs(toc, fragments, ids)) == Filter(ids, Resolves(toc, fragments))
  {
    if |ids| > 0 {
      OpenTabsIds(toc, fragments, ids[1..]);
      var rest := OpenTabs(toc, fragments, ids[1..]);
      var t := Resolve(toc, fragments, ids[0]);
      assert OpenTabs(toc, fragments, ids) == if t.Some? then [t.value] + rest else rest;
      assert Resolves(toc, fragments)(ids[0]) == t.Some?;
      FilterHead(ids, Resolves(toc, fragments));
      if t.Some? {
        TabIdsCons(t.value, rest);
      }
    }
  }

  /** `openTabs.find(tab => tab.id === activeTabId)`. */
  function FindTab(tabs: seq<OpenTab>, id: Id): (r: Option<OpenTab>)
    ensures r.None? <==> forall t :: t in tabs ==> TabId(t) != id
    ensures r.Some? ==> r.value in tabs && TabId(r.value) == id
  {
    if |tabs| == 0 then None
    else if TabId(tabs[0]) == id then Some(tabs[0])
    else FindTab(tabs[1..], id)
  }

  /** `activeTab`: none when the group has no (truthy) focused id or that id
      is not among the resolved tabs. */
  function ActiveTab(tabs: seq<OpenTab>, activeTabId: Option<Id>): (r: Option<OpenTab>)
    ensures r.None? <==> !Truthy(activeTabId) || forall t :: t in tabs ==> TabId(t) != activeTabId.value
    ensures r.Some? ==> r.value in tabs && Some(TabId(r.value)) == activeTabId
  {
    if Truthy(activeTabId) then FindTab(tabs, activeTabId.value) else None
  }

  /** In a group whose focus names one of its tabs, the pane shows a
      document exactly when the focused id is truthy and resolves, and then
      it shows the document that id resolves to. */
  lemma ActiveTabResolved(toc: Toc, fragments: seq<Fragment>, g: TabGroup)
    requires TabGroups.ActiveTabValid(g)
    ensures var a := ActiveTab(OpenTabs(toc, fragments, g.tabs), g.activeTabId);
      (a.None? <==> !Truthy(g.activeTabId) || Resolve(toc, fragments, g.activeTabId.value).None?) &&
      (a.Some? ==> a == Resolve(toc, fragments, g.activeTabId.value))
  {
    var tabs := OpenTabs(toc, fragments, g.tabs);
    OpenTabsIds(toc, fragments, g.tabs);
    if Truthy(g.activeTabId) {
      var id := g.activeTabId.value;
      var t := Resolve(toc, fragments, id);
      if t.Some? {
        assert id in Filter(g.tabs, Resolves(toc, fragments));
        var k :| 0 <= k < |TabIds(tabs)| && TabIds(tabs)[k] == id;
        assert tabs[k] in tabs;
      }
    }
  }

  // ---------------------------------------------------------------------
  // Dispatch

  /** What an edit in the pane's editor dispatches. */
  datatype ContentAction =
    | NoContentAction
    | UpdateChapterContent(docId: Id, content: string)
    | UpdateFragmentContent(docId: Id, content: string)

  /** `handleContentChange`: routed by the kind of the active tab. */
  function ContentChange(active: Option<OpenTab>, content: string): (r: ContentAction)
    ensures r.NoContentAction? <==> active.None?
    ensures active.Some? ==> r.docId == TabId(active.value) && r.content == content
    ensures active.Some? ==> (r.UpdateChapterContent? <==> active.value.ChapterTab?)
  {
    match active
    case None => NoContentAction
    case Some(ChapterTab(c)) => UpdateChapterContent(c.id, content)
    case Some(FragmentTab(f)) => UpdateFragmentContent(f.id, content)
  }

  /** An edit goes to the focused document of the group: to a chapter of the
      table of contents, or to a library fragment whose id no chapter has,
      so the update never misses its document. */
  lemma ContentChangeTargetsFocus(toc: Toc, fragments: seq<Fragment>, g: TabGroup, content: string)
    ensures var r := ContentChange(ActiveTab(OpenTabs(toc, fragments, g.tabs), g.activeTabId), content);
      (!r.NoContentAction? ==> Some(r.docId) == g.activeTabId) &&
      (r.UpdateChapterContent? ==> ChapterExists(toc, r.docId)) &&
      (r.UpdateFragmentContent? ==> FindFragment(fragments, r.docId).Some? && !ChapterExists(toc, r.docId))
  {
    var a := ActiveTab(OpenTabs(toc, fragments, g.tabs), g.activeTabId);
    if a.Some? {
      assert Resolve(toc, fragments, TabId(a.value)) == a;
    }
  }

  /** A resolved tab of a group names one of that group's tabs. */
  lemma OpenTabInGroup(toc: Toc, fragments: seq<Fragment>, ids: seq<Id>, t: OpenTab)
    requires t in OpenTabs(toc, fragments, ids)
    ensures TabId(t) in ids
  {
    var tabs := OpenTabs(toc, fragments, ids);
    OpenTabsIds(toc, fragments, ids);
    var k :| 0 <= k < |tabs| && tabs[k] == t;
    assert TabIds(tabs)[k] in Filter(ids, Resolves(toc, fragments));
  }

  /** `handleTabClick`: the pane's group focuses the clicked tab. In a valid
      layout where the group's id is its own, the layout stays valid and the
      clicked document becomes the focused tab. */
  lemma TabClickFocuses(p: TabGroups.Panes, k: nat, toc: Toc, fragments: seq<Fragment>, t: OpenTab)
    requires TabGroups.PanesValid(p)
    requires k < |p.groups|
    requires forall j :: 0 <= j < |p.groups| && p.groups[j].id == p.groups[k].id ==> j == k
    requires t in OpenTabs(toc, fragments, p.groups[k].tabs)
    ensures var r := TabGroups.SetActiveTab(p, p.groups[k].id, TabId(t));
      TabGroups.PanesValid(r) && TabGroups.FocusedTab(r) == Some(TabId(t))
  {
    var g := p.groups[k];
    OpenTabInGroup(toc, fragments, g.tabs, t);
    assert g in p.groups;
    forall h | h in p.groups && h.id == g.id ensures TabId(t) in h.tabs {
      var j :| 0 <= j < |p.groups| && p.groups[j] == h;
    }
    TabGroups.SetActiveTabValid(p, g.id, TabId(t));
    var r := TabGroups.SetActiveTab(p, g.id, TabId(t));
    assert TabGroups.GroupIndex(p.groups, Some(g.id)) == k;
    assert TabGroups.GroupIndex(r.groups, r.activeGroupId) == k;
  }

  /** `handlePaneClick`: the group to make active, none when it already is. */
  function PaneClick(isActiveGroup: bool, groupId: Id): (r: Option<Id>)
    ensures r.None? <==> isActiveGroup
    ensures r.Some? ==> r.value == groupId
  {
    if isActiveGroup then None else Some(groupId)
  }

  /** After a click on a pane of the layout, that pane's group is the active
      one, the groups themselves are untouched, and a click on the active
      pane changes nothing. */
  lemma PaneClickActivates(p: TabGroups.Panes, g: TabGroup)
    ensures var c := PaneClick(Some(g.id) == p.activeGroupId, g.id);
      var r := if c.Some? then TabGroups.SetActiveGroup(p, c.value) else p;
      r.activeGroupId == Some(g.id) && r.groups == p.groups &&
      (Some(g.id) == p.activeGroupId ==> r == p)
  {
  }
}
