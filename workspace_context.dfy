/** The workspace state machine: the current workspace (table of contents,
    fragment library, editor panes, interface flags, settings) and the
    snapshot list, with one method per action of the workspace context.
    Every action edits the state in place; each method states the new state
    through the specification functions of `TabGroups` and `Documents`,
    whose properties are proved there. Fresh uuids, the clock and the answer
    to a confirmation dialog are parameters. */
module WorkspaceContext {
  import opened Lists
  import opened Types
  import opened TabGroups
  import opened Documents

  /** Closing the tabs of some chapters and cleaning up keeps valid panes
      valid, and leaves no tab of those chapters open. */
  lemma ChapterTabsClosed(p: Panes, chapters: seq<Chapter>, uuid: string)
    requires PanesValid(p)
    ensures var r := Cleanup(Panes(CloseAll(p.groups, ChapterIdsOf(chapters)), p.activeGroupId), uuid);
      PanesValid(r) && forall g, c :: g in r.groups && c in chapters ==> c.id !in g.tabs
  {
    var ids := ChapterIdsOf(chapters);
    CloseAllThenCleanup(p, ids, uuid);
    var r := Cleanup(Panes(CloseAll(p.groups, ids), p.activeGroupId), uuid);
    forall g, c | g in r.groups && c in chapters ensures c.id !in g.tabs {
      var k :| 0 <= k < |chapters| && chapters[k] == c;
      assert ids[k] in ids;
    }
  }

  /** The inner loop of the `deleteFragment` unlinking: every chapter of
      one part drops the fragment from its links. */
  method UnlinkChapters(chapters: seq<Chapter>, fragmentId: Id) returns (r: seq<Chapter>)
    ensures r == UnlinkInPart(Part("", "", chapters), fragmentId).chapters
  {
    ghost var target := UnlinkInPart(Part("", "", chapters), fragmentId).chapters;
    r := chapters;
    var j := 0;
    while j < |r|
      invariant 0 <= j <= |r| == |chapters|
      invariant forall m :: 0 <= m < j ==> r[m] == target[m]
      invariant forall m :: j <= m < |r| ==> r[m] == chapters[m]
    {
      r := r[j := r[j].(fragmentIds := Without(r[j].fragmentIds, fragmentId))];
      j := j + 1;
    }
  }

  class Workspace {
    var toc: Toc
    var fragments: seq<Fragment>
    var tabGroups: seq<TabGroup>
    var activeGroupId: Option<Id>
    var splitDirection: SplitDirection
    var bottomPanelOpen: bool
    var inspectorOpen: bool
    var commandPaletteOpen: bool
    var renamingId: Option<Id>
    var sidebarView: string
    var settingsOpen: bool
    var activeFragmentTags: seq<string>
    var settings: Settings
    var snapshots: seq<Snapshot>

    /** The editor panes as a value. */
    function PaneState(): Panes
      reads this
    {
      Panes(tabGroups, activeGroupId)
    }

    /** The interface state as a value. */
    function Ui(): UiState
      reads this
    {
      UiState(tabGroups, activeGroupId, splitDirection, bottomPanelOpen, inspectorOpen,
        commandPaletteOpen, renamingId, sidebarView, settingsOpen, activeFragmentTags)
    }

    function Current(): WorkspaceState
      reads this
    {
      WorkspaceState(toc, fragments, Ui(), settings)
    }

    function Data(): SynthiaData
      reads this
    {
      SynthiaData(Current(), snapshots)
    }

    /** The pane invariants: at least one group, a focused group that
        exists, and in every group no duplicate tab and a valid focus. */
    predicate Valid()
      reads this
    {
      PanesValid(PaneState())
    }

    constructor (data: SynthiaData)
      ensures Data() == data
    {
      var w := data.currentWorkspace;
      toc, fragments, settings := w.toc, w.fragments, w.settings;
      tabGroups, activeGroupId := w.uiState.tabGroups, w.uiState.activeGroupId;
      splitDirection, bottomPanelOpen := w.uiState.splitDirection, w.uiState.bottomPanelOpen;
      inspectorOpen, commandPaletteOpen := w.uiState.inspectorOpen, w.uiState.commandPaletteOpen;
      renamingId, sidebarView := w.uiState.renamingId, w.uiState.sidebarView;
      settingsOpen, activeFragmentTags := w.uiState.settingsOpen, w.uiState.activeFragmentTags;
      snapshots := data.snapshots;
    }

    /** `replaceWorkspace`: the whole current workspace is replaced. */
    method ReplaceWorkspace(w: WorkspaceState)
      modifies this
      ensures Current() == w && snapshots == old(snapshots)
    {
      toc, fragments, settings := w.toc, w.fragments, w.settings;
      ReplaceUi(w.uiState);
    }

    /** The interface half of `replaceWorkspace`. */
    method ReplaceUi(ui: UiState)
      modifies this`tabGroups, this`activeGroupId, this`splitDirection, this`bottomPanelOpen,
        this`inspectorOpen, this`commandPaletteOpen, this`renamingId, this`sidebarView,
        this`settingsOpen, this`activeFragmentTags
      ensures Ui() == ui
    {
      tabGroups, activeGroupId, splitDirection, bottomPanelOpen, inspectorOpen,
        commandPaletteOpen, renamingId, sidebarView, settingsOpen, activeFragmentTags :=
        ui.tabGroups, ui.activeGroupId, ui.splitDirection, ui.bottomPanelOpen, ui.inspectorOpen,
        ui.commandPaletteOpen, ui.renamingId, ui.sidebarView, ui.settingsOpen, ui.activeFragmentTags;
    }

    // -------------------------------------------------------------------
    // Panes

    /** `openDocumentInGroup` on the group at index `k`. */
    method OpenDocumentInGroup(k: nat, docId: Id)
      requires k < |tabGroups|
      modifies this`tabGroups
      ensures tabGroups == old(tabGroups)[k := OpenInGroup(old(tabGroups)[k], docId)]
    {
      var g := tabGroups[k];
      if docId !in g.tabs {
        g := g.(tabs := g.tabs + [docId]);
      }
      g := g.(activeTabId := Some(docId));
      tabGroups := tabGroups[k := g];
    }

    /** `openDocument` (also `openChapter` and `openFragment`). */
    method OpenDocument(docId: Id, uuid: string)
      modifies this`tabGroups, this`activeGroupId
      ensures PaneState() == Open(old(PaneState()), docId, uuid)
      ensures old(Valid()) ==> Valid()
    {
      ghost var p := PaneState();
      var k := GroupIndex(tabGroups, activeGroupId);
      if k < 0 {
        if |tabGroups| == 0 {
          var g := NewGroup(uuid);
          tabGroups := tabGroups + [g];
          activeGroupId := Some(g.id);
          k := 0;
        } else {
          k := 0;
          activeGroupId := Some(tabGroups[0].id);
        }
      }
      OpenDocumentInGroup(k, docId);
      if PanesValid(p) { OpenValid(p, docId, uuid); }
    }

    /** `setActiveTab`: the group is looked up, the tab is not. */
    method SetActiveTab(groupId: Id, tabId: Id)
      modifies this`tabGroups, this`activeGroupId
      ensures PaneState() == TabGroups.SetActiveTab(old(PaneState()), groupId, tabId)
      ensures old(Valid()) && (forall g :: g in old(tabGroups) && g.id == groupId ==> tabId in g.tabs) ==> Valid()
    {
      ghost var p := PaneState();
      var k := GroupIndex(tabGroups, Some(groupId));
      if k >= 0 {
        tabGroups := tabGroups[k := tabGroups[k].(activeTabId := Some(tabId))];
        activeGroupId := Some(groupId);
      }
      if PanesValid(p) && (forall g :: g in p.groups && g.id == groupId ==> tabId in g.tabs) {
        SetActiveTabValid(p, groupId, tabId);
      }
    }

    /** `setActiveGroup`: stores the id without checking it. */
    method SetActiveGroup(groupId: Id)
      modifies this`activeGroupId
      ensures PaneState() == TabGroups.SetActiveGroup(old(PaneState()), groupId)
    {
      activeGroupId := Some(groupId);
    }

    /** The loop over every group that `closeTab`, `deleteFragment`,
        `deletePart` and `deleteChapter` run for one document id. */
    method CloseTabInAllGroups(tabId: Id)
      modifies this`tabGroups
      ensures tabGroups == CloseEverywhere(old(tabGroups), tabId)
    {
      var i := 0;
      while i < |tabGroups|
        invariant 0 <= i <= |tabGroups| == |old(tabGroups)|
        invariant forall k :: 0 <= k < i ==> tabGroups[k] == CloseInGroup(old(tabGroups)[k], tabId)
        invariant forall k :: i <= k < |tabGroups| ==> tabGroups[k] == old(tabGroups)[k]
      {
        tabGroups := tabGroups[i := CloseInGroup(tabGroups[i], tabId)];
        i := i + 1;
      }
    }

    /** `cleanupTabGroupsAndFocus`. */
    method CleanupTabGroupsAndFocus(uuid: string)
      modifies this`tabGroups, this`activeGroupId
      ensures PaneState() == Cleanup(old(PaneState()), uuid)
      ensures Valid() || exists g :: g in tabGroups && !GroupValid(g)
    {
      var originalActiveGroupId := activeGroupId;
      if |tabGroups| > 1 {
        tabGroups := Filter(tabGroups, NonEmptyGroup);
      }
      if |tabGroups| == 0 {
        var g := NewGroup(uuid);
        tabGroups := tabGroups + [g];
        activeGroupId := Some(g.id);
        assert tabGroups == [g];
        return;
      }
      var activeGroupStillExists := GroupIndex(tabGroups, originalActiveGroupId) >= 0;
      if !activeGroupStillExists || !Truthy(activeGroupId) {
        activeGroupId := Some(tabGroups[0].id);
      }
    }

    /** `closeTab`. */
    method CloseTab(tabId: Id, uuid: string)
      modifies this`tabGroups, this`activeGroupId
      ensures PaneState() == Cleanup(Panes(CloseEverywhere(old(tabGroups), tabId), old(activeGroupId)), uuid)
      ensures old(Valid()) ==> Valid() && forall g :: g in tabGroups ==> tabId !in g.tabs
    {
      ghost var p := PaneState();
      CloseTabInAllGroups(tabId);
      CleanupTabGroupsAndFocus(uuid);
      if PanesValid(p) { CloseThenCleanup(p, tabId, uuid); }
    }

    /** `splitEditor`. */
    method SplitEditor(uuid: string)
      modifies this`tabGroups, this`activeGroupId
      ensures PaneState() == Split(old(PaneState()), uuid)
      ensures old(Valid()) ==> Valid()
    {
      if |tabGroups| > 1 { return; }
      var g := NewGroup(uuid);
      tabGroups := tabGroups + [g];
      activeGroupId := Some(g.id);
      assert g in tabGroups;
    }

    /** `unsplitEditor`: the loop pushes the other group's missing tabs onto
        the focused group. */
    method UnsplitEditor()
      modifies this`tabGroups, this`activeGroupId
      ensures PaneState() == Unsplit(old(PaneState()))
      ensures old(Valid()) ==> Valid()
    {
      ghost var p := PaneState();
      if |tabGroups| < 2 { return; }
      var a := GroupIndex(tabGroups, activeGroupId);
      var b := OtherGroupIndex(tabGroups, activeGroupId);
      if a < 0 || b < 0 { return; }
      var activeGroup := tabGroups[a];
      var inactiveTabs := tabGroups[b].tabs;
      var tabs := activeGroup.tabs;
      var i := 0;
      while i < |inactiveTabs|
        invariant 0 <= i <= |inactiveTabs|
        invariant tabs == MergeTabs(p.groups[a].tabs, inactiveTabs[..i])
      {
        MergeTabsSnoc(p.groups[a].tabs, inactiveTabs, i);
        if inactiveTabs[i] !in tabs {
          tabs := tabs + [inactiveTabs[i]];
        }
        i := i + 1;
      }
      assert inactiveTabs[..i] == inactiveTabs;
      activeGroup := activeGroup.(tabs := tabs);
      tabGroups := [activeGroup];
      activeGroupId := Some(activeGroup.id);
      if PanesValid(p) { UnsplitValid(p); }
    }

    method SetSplitDirection(direction: SplitDirection)
      modifies this`splitDirection
      ensures splitDirection == direction
    {
      splitDirection := direction;
    }

    // -------------------------------------------------------------------
    // Interface flags

    method ToggleBottomPanel()
      modifies this`bottomPanelOpen
      ensures bottomPanelOpen == !old(bottomPanelOpen)
    {
      bottomPanelOpen := !bottomPanelOpen;
    }

    method ToggleInspector()
      modifies this`inspectorOpen
      ensures inspectorOpen == !old(inspectorOpen)
    {
      inspectorOpen := !inspectorOpen;
    }

    method ToggleCommandPalette()
      modifies this`commandPaletteOpen
      ensures commandPaletteOpen == !old(commandPaletteOpen)
    {
      commandPaletteOpen := !commandPaletteOpen;
    }

    method ToggleSettings()
      modifies this`settingsOpen
      ensures settingsOpen == !old(settingsOpen)
    {
      settingsOpen := !settingsOpen;
    }

    method SetRenamingId(itemId: Option<Id>)
      modifies this`renamingId
      ensures renamingId == itemId
    {
      renamingId := itemId;
    }

    method SetSidebarView(view: string)
      modifies this`sidebarView
      ensures sidebarView == view
    {
      sidebarView := view;
    }

    /** `updateSettings`: a given editor settings object replaces the current
        one; without one nothing changes. */
    method UpdateSettings(editor: Option<EditorSettings>)
      modifies this`settings
      ensures settings == if editor.Some? then Settings(editor.value) else old(settings)
    {
      if editor.Some? {
        settings := settings.(editor := editor.value);
      }
    }

    /** `toggleFragmentTagFilter`. */
    method ToggleFragmentTagFilter(tag: string)
      modifies this`activeFragmentTags
      ensures activeFragmentTags == ToggleTag(old(activeFragmentTags), tag)
    {
      var index := IndexOf(activeFragmentTags, tag);
      if index > -1 {
        activeFragmentTags := RemoveAt(activeFragmentTags, index);
      } else {
        activeFragmentTags := activeFragmentTags + [tag];
      }
    }

    method ClearFragmentTagFilters()
      modifies this`activeFragmentTags
      ensures activeFragmentTags == []
    {
      activeFragmentTags := [];
    }

    // -------------------------------------------------------------------
    // Chapters and parts

    /** The part-by-part search of `updateChapterContent` and
        `updateChapterStatus`: edit the chapter in the first part that has
        it, then stop. */
    method EditChapterInPlace(chapterId: Id, e: ChapterEdit)
      modifies this`toc
      ensures toc == EditFirstChapter(old(toc), chapterId, e)
    {
      var i := 0;
      while i < |toc|
        invariant 0 <= i <= |toc| && toc == old(toc)
        invariant forall k :: 0 <= k < i ==> ChapterIndex(toc[k].chapters, chapterId) < 0
      {
        var k := ChapterIndex(toc[i].chapters, chapterId);
        if k >= 0 {
          EditFirstChapterAt(toc, chapterId, e, i);
          var part := toc[i].(chapters := toc[i].chapters[k := ApplyEdit(toc[i].chapters[k], e)]);
          toc := toc[i := part];
          return;
        }
        i := i + 1;
      }
      EditFirstChapterSkip(toc, chapterId, e, i);
      assert toc[..i] == toc;
    }

    method UpdateChapterContent(chapterId: Id, content: string, now: Time)
      modifies this`toc
      ensures toc == EditFirstChapter(old(toc), chapterId, SetContent(content, now))
    {
      EditChapterInPlace(chapterId, SetContent(content, now));
    }

    method UpdateChapterStatus(chapterId: Id, status: ChapterStatus, now: Time)
      modifies this`toc
      ensures toc == EditFirstChapter(old(toc), chapterId, SetStatus(status, now))
    {
      EditChapterInPlace(chapterId, SetStatus(status, now));
    }

    /** `linkFragmentToChapter`. */
    method LinkFragmentToChapter(fragmentId: Id, chapterId: Id)
      modifies this`toc
      ensures toc == EditFirstChapter(old(toc), chapterId, Link(fragmentId))
    {
      toc := EditFirstChapter(toc, chapterId, Link(fragmentId));
    }

    /** `unlinkFragmentFromChapter`. */
    method UnlinkFragmentFromChapter(fragmentId: Id, chapterId: Id)
      modifies this`toc
      ensures toc == EditFirstChapter(old(toc), chapterId, Unlink(fragmentId))
    {
      toc := EditFirstChapter(toc, chapterId, Unlink(fragmentId));
    }

    method UpdateToc(newToc: Toc)
      modifies this`toc
      ensures toc == newToc
    {
      toc := newToc;
    }

    /** `addPart`: append an empty part and start renaming it. */
    method AddPart(uuid: string)
      modifies this`toc, this`renamingId
      ensures toc == old(toc) + [NewPart(uuid)]
      ensures renamingId == Some(PartPrefix + uuid)
    {
      var part := NewPart(uuid);
      toc := toc + [part];
      renamingId := Some(part.id);
    }

    /** `addPartAndChapter`: append a part holding one new chapter, start
        renaming the chapter and open it. */
    method AddPartAndChapter(chapterUuid: string, partUuid: string, groupUuid: string, now: Time)
      modifies this`toc, this`renamingId, this`tabGroups, this`activeGroupId
      ensures toc == old(toc) + [NewPart(partUuid).(chapters := [NewChapter(chapterUuid, now)])]
      ensures renamingId == Some(ChapterPrefix + chapterUuid)
      ensures PaneState() == OpenKeepingFocus(old(PaneState()), ChapterPrefix + chapterUuid, groupUuid)
    {
      var chapter := NewChapter(chapterUuid, now);
      var part := NewPart(partUuid).(chapters := [chapter]);
      toc := toc + [part];
      renamingId := Some(chapter.id);
      var k := GroupIndex(tabGroups, activeGroupId);
      if k < 0 && |tabGroups| > 0 {
        k := 0;
      }
      if k >= 0 {
        OpenDocumentInGroup(k, chapter.id);
      } else {
        var g := TabGroup(GroupPrefix + groupUuid, [chapter.id], Some(chapter.id));
        tabGroups := tabGroups + [g];
        activeGroupId := Some(g.id);
        assert [] + [chapter.id] == [chapter.id];
      }
    }

    /** `addChapter`: append a new chapter to the part, start renaming it,
        then open it as a second, separate update. */
    method AddChapter(partId: Id, chapterUuid: string, groupUuid: string, now: Time)
      modifies this`toc, this`renamingId, this`tabGroups, this`activeGroupId
      ensures toc == AddChapterToPart(old(toc), partId, NewChapter(chapterUuid, now))
      ensures PartIndex(old(toc), partId) < 0 ==>
        renamingId == old(renamingId) && PaneState() == old(PaneState())
      ensures PartIndex(old(toc), partId) >= 0 ==>
        renamingId == Some(ChapterPrefix + chapterUuid) &&
        PaneState() == Open(old(PaneState()), ChapterPrefix + chapterUuid, groupUuid)
      ensures old(Valid()) ==> Valid()
    {
      var i := PartIndex(toc, partId);
      if i >= 0 {
        var chapter := NewChapter(chapterUuid, now);
        toc := toc[i := toc[i].(chapters := toc[i].chapters + [chapter])];
        renamingId := Some(chapter.id);
        OpenDocument(chapter.id, groupUuid);
      }
    }

    /** The `deletePart` loop: close the tab of every chapter of the part,
        one after another. */
    method CloseChapterTabs(chapters: seq<Chapter>)
      modifies this`tabGroups
      ensures tabGroups == CloseAll(old(tabGroups), ChapterIdsOf(chapters))
    {
      ghost var ids := ChapterIdsOf(chapters);
      var j := 0;
      while j < |chapters|
        invariant 0 <= j <= |chapters|
        invariant tabGroups == CloseAll(old(tabGroups), ids[..j])
      {
        CloseAllSnoc(old(tabGroups), ids, j);
        CloseTabInAllGroups(chapters[j].id);
        j := j + 1;
      }
      assert ids[..j] == ids;
    }

    /** `deletePart`: after confirmation, close the tabs of all the part's
        chapters, remove the part and clean up. An unknown id changes
        nothing, not even the panes. */
    method DeletePart(partId: Id, confirmed: bool, uuid: string)
      modifies this`toc, this`tabGroups, this`activeGroupId
      ensures !confirmed || PartIndex(old(toc), partId) < 0 ==>
        toc == old(toc) && PaneState() == old(PaneState())
      ensures confirmed && PartIndex(old(toc), partId) >= 0 ==>
        var i := PartIndex(old(toc), partId);
        toc == RemoveAt(old(toc), i) &&
        PaneState() == Cleanup(Panes(CloseAll(old(tabGroups), ChapterIdsOf(old(toc)[i].chapters)), old(activeGroupId)), uuid) &&
        (old(Valid()) ==>
          Valid() && forall g, c :: g in tabGroups && c in old(toc)[i].chapters ==> c.id !in g.tabs)
    {
      if !confirmed { return; }
      var partIndex := PartIndex(toc, partId);
      if partIndex > -1 {
        DeletePartAt(partIndex, uuid);
      }
    }

    /** The confirmed `deletePart` on the part at `i`. */
    method DeletePartAt(i: nat, uuid: string)
      requires i < |toc|
      modifies this`toc, this`tabGroups, this`activeGroupId
      ensures toc == RemoveAt(old(toc), i)
      ensures PaneState() == Cleanup(Panes(CloseAll(old(tabGroups), ChapterIdsOf(old(toc)[i].chapters)), old(activeGroupId)), uuid)
      ensures old(Valid()) ==>
        Valid() && forall g, c :: g in tabGroups && c in old(toc)[i].chapters ==> c.id !in g.tabs
    {
      ghost var p := PaneState();
      var chaptersToDelete := toc[i].chapters;
      CloseChapterTabs(chaptersToDelete);
      toc := RemoveAt(toc, i);
      CleanupTabGroupsAndFocus(uuid);
      if PanesValid(p) {
        ChapterTabsClosed(p, chaptersToDelete, uuid);
      }
    }

    /** The `deleteChapter` loop: every part filters the chapter out. */
    method RemoveChapterFromParts(chapterId: Id)
      modifies this`toc
      ensures toc == RemoveChapterEverywhere(old(toc), chapterId)
    {
      var i := 0;
      while i < |toc|
        invariant 0 <= i <= |toc| == |old(toc)|
        invariant forall k :: 0 <= k < i ==> toc[k] == old(toc)[k].(chapters := Filter(old(toc)[k].chapters, NotChapter(chapterId)))
        invariant forall k :: i <= k < |toc| ==> toc[k] == old(toc)[k]
      {
        toc := toc[i := toc[i].(chapters := Filter(toc[i].chapters, NotChapter(chapterId)))];
        i := i + 1;
      }
    }

    /** `deleteChapter`: after confirmation, close the chapter's tabs, drop it
        from every part and clean up (the clean-up runs even for an unknown
        id). */
    method DeleteChapter(chapterId: Id, confirmed: bool, uuid: string)
      modifies this`toc, this`tabGroups, this`activeGroupId
      ensures !confirmed ==> toc == old(toc) && PaneState() == old(PaneState())
      ensures confirmed ==>
        toc == RemoveChapterEverywhere(old(toc), chapterId) &&
        PaneState() == Cleanup(Panes(CloseEverywhere(old(tabGroups), chapterId), old(activeGroupId)), uuid) &&
        (old(Valid()) ==> Valid() && forall g :: g in tabGroups ==> chapterId !in g.tabs)
    {
      if !confirmed { return; }
      ghost var p := PaneState();
      CloseTabInAllGroups(chapterId);
      RemoveChapterFromParts(chapterId);
      CleanupTabGroupsAndFocus(uuid);
      if PanesValid(p) { CloseThenCleanup(p, chapterId, uuid); }
    }

    /** `updateItemName`. */
    method UpdateItemName(itemId: Id, newTitle: string, now: Time)
      modifies this`toc
      ensures toc == Rename(old(toc), itemId, newTitle, now)
    {
      if Text.Trim(newTitle) == "" { return; }
      var i := PartIndex(toc, itemId);
      if i >= 0 {
        toc := toc[i := toc[i].(title := newTitle)];
      } else {
        toc := EditFirstChapter(toc, itemId, SetTitle(newTitle, now));
      }
    }

    // -------------------------------------------------------------------
    // Fragments

    /** `updateFragmentContent`. */
    method UpdateFragmentContent(fragmentId: Id, content: string, now: Time)
      modifies this`fragments
      ensures fragments == EditFragment(old(fragments), fragmentId, SetFragmentContent(content, now))
    {
      var i := FragmentIndex(fragments, fragmentId);
      if i >= 0 {
        fragments := fragments[i := fragments[i].(content := content, updatedAt := now)];
      }
    }

    /** `updateFragmentMetadata`. */
    method UpdateFragmentMetadata(fragmentId: Id, update: MetadataUpdate, now: Time)
      modifies this`fragments
      ensures fragments == EditFragment(old(fragments), fragmentId, SetMetadata(update, now))
    {
      var i := FragmentIndex(fragments, fragmentId);
      if i >= 0 {
        fragments := fragments[i := ApplyFragmentEdit(fragments[i], SetMetadata(update, now))];
      }
    }

    /** `addFragment`: a new idea goes to the front of the library and the
        bottom panel opens. */
    method AddFragment(uuid: string, now: Time)
      modifies this`fragments, this`bottomPanelOpen
      ensures fragments == [NewFragment(uuid, now)] + old(fragments)
      ensures bottomPanelOpen
    {
      fragments := [NewFragment(uuid, now)] + fragments;
      bottomPanelOpen := true;
    }

    /** One step of the `deleteFragment` unlinking: every chapter of the
        part at index `i` drops the fragment from its links. */
    method UnlinkFromPart(i: nat, fragmentId: Id)
      requires i < |toc|
      modifies this`toc
      ensures toc == old(toc)[i := UnlinkInPart(old(toc)[i], fragmentId)]
    {
      var part := toc[i];
      var chapters := UnlinkChapters(part.chapters, fragmentId);
      assert UnlinkInPart(part, fragmentId) == part.(chapters := chapters);
      toc := toc[i := part.(chapters := chapters)];
    }

    /** The `deleteFragment` unlinking: the nested loop over every chapter
        of every part. */
    method UnlinkFromAllChapters(fragmentId: Id)
      modifies this`toc
      ensures toc == UnlinkEverywhere(old(toc), fragmentId)
    {
      var i := 0;
      while i < |toc|
        invariant 0 <= i <= |toc| == |old(toc)|
        invariant forall k :: 0 <= k < i ==> toc[k] == UnlinkInPart(old(toc)[k], fragmentId)
        invariant forall k :: i <= k < |toc| ==> toc[k] == old(toc)[k]
      {
        UnlinkFromPart(i, fragmentId);
        i := i + 1;
      }
    }

    /** `deleteFragment`: after confirmation, close its tabs, remove it from
        the library and from every chapter's links, and clean up. */
    method DeleteFragment(fragmentId: Id, confirmed: bool, uuid: string)
      modifies this`toc, this`fragments, this`tabGroups, this`activeGroupId
      ensures !confirmed ==>
        toc == old(toc) && fragments == old(fragments) && PaneState() == old(PaneState())
      ensures confirmed ==>
        fragments == RemoveFragment(old(fragments), fragmentId) &&
        toc == UnlinkEverywhere(old(toc), fragmentId) &&
        PaneState() == Cleanup(Panes(CloseEverywhere(old(tabGroups), fragmentId), old(activeGroupId)), uuid)
      ensures confirmed ==>
        (forall f :: f in fragments ==> f.id != fragmentId) &&
        (forall c :: c in AllChapters(toc) ==> fragmentId !in c.fragmentIds) &&
        (old(Valid()) ==> Valid() && forall g :: g in tabGroups ==> fragmentId !in g.tabs)
    {
      if !confirmed { return; }
      ghost var p := PaneState();
      CloseTabInAllGroups(fragmentId);
      fragments := RemoveFragment(fragments, fragmentId);
      UnlinkFromAllChapters(fragmentId);
      CleanupTabGroupsAndFocus(uuid);
      UnlinkEverywhereSpec(old(toc), fragmentId);
      if PanesValid(p) { CloseThenCleanup(p, fragmentId, uuid); }
    }

    // -------------------------------------------------------------------
    // Snapshots

    /** `createSnapshot`. */
    method CreateSnapshot(name: string, uuid: string, fallbackName: string, now: Time)
      modifies this`snapshots
      ensures Data() == Documents.CreateSnapshot(old(Data()), name, uuid, fallbackName, now)
    {
      var snapshot := Snapshot(SnapshotPrefix + uuid, if name == "" then fallbackName else name, now, Current());
      snapshots := [snapshot] + snapshots;
    }

    /** `restoreSnapshot`. */
    method RestoreSnapshot(snapshotId: Id, confirmed: bool)
      modifies this
      ensures Data() == Documents.RestoreSnapshot(old(Data()), snapshotId, confirmed)
    {
      var snapshot := FindSnapshot(snapshots, snapshotId);
      if snapshot.Some? && confirmed {
        ReplaceWorkspace(snapshot.value.workspaceState);
      }
    }

    /** `deleteSnapshot`. */
    method DeleteSnapshot(snapshotId: Id, confirmed: bool)
      modifies this`snapshots
      ensures Data() == Documents.DeleteSnapshot(old(Data()), snapshotId, confirmed)
    {
      var snapshot := FindSnapshot(snapshots, snapshotId);
      if snapshot.Some? && confirmed {
        snapshots := Filter(snapshots, (s: Snapshot) => s.id != snapshotId);
      }
    }
  }
}
