/** The editor panes: a list of tab groups, each an ordered list of open
    document ids with an optional focused tab, plus the id of the focused
    group. Each pane action is specified here as a function on values; the
    `Workspace` class performs the same edits in place and is proved against
    these functions. */
module TabGroups {
  import opened Lists
  import opened Types

  /** Tab groups are created with the id `group-` followed by a fresh uuid. */
  const GroupPrefix: string := "group-"

  datatype Panes = Panes(groups: seq<TabGroup>, activeGroupId: Option<Id>)

  function NewGroup(uuid: string): (g: TabGroup)
    ensures StartsWithGroupPrefix(g.id) && g.tabs == [] && g.activeTabId == None
  {
    TabGroup(GroupPrefix + uuid, [], None)
  }

  predicate StartsWithGroupPrefix(id: Id) {
    |GroupPrefix| <= |id| && id[..|GroupPrefix|] == GroupPrefix
  }

  /** `groups.some(g => g.id === id)`, where `id` may be null. */
  predicate GroupExists(groups: seq<TabGroup>, id: Option<Id>) {
    id.Some? && exists g :: g in groups && g.id == id.value
  }

  /** `groups.findIndex(g => g.id === id)`: the first group with that id. */
  function GroupIndex(groups: seq<TabGroup>, id: Option<Id>): (r: int)
    ensures -1 <= r < |groups|
    ensures r == -1 <==> !GroupExists(groups, id)
    ensures r >= 0 ==> id == Some(groups[r].id) && forall k :: 0 <= k < r ==> id != Some(groups[k].id)
  {
    if |groups| == 0 then -1
    else if id == Some(groups[0].id) then 0
    else
      var k := GroupIndex(groups[1..], id);
      assert groups == [groups[0]] + groups[1..];
      if k == -1 then -1 else k + 1
  }

  /** `groups.findIndex(g => g.id !== id)`: the first group that is not the
      one named by `id` (every group when `id` is null). */
  function OtherGroupIndex(groups: seq<TabGroup>, id: Option<Id>): (r: int)
    ensures -1 <= r < |groups|
    ensures r >= 0 ==> id != Some(groups[r].id) && forall k :: 0 <= k < r ==> id == Some(groups[k].id)
    ensures r == -1 ==> forall k :: 0 <= k < |groups| ==> id == Some(groups[k].id)
  {
    if |groups| == 0 then -1
    else if id != Some(groups[0].id) then 0
    else
      var k := OtherGroupIndex(groups[1..], id);
      if k == -1 then -1 else k + 1
  }

  /** The focused tab names one of the group's tabs, or none is focused. */
  predicate ActiveTabValid(g: TabGroup) {
    g.activeTabId.Some? ==> g.activeTabId.value in g.tabs
  }

  /** A well-formed group: no document open twice, and a valid focus. */
  predicate GroupValid(g: TabGroup) {
    NoDuplicates(g.tabs) && ActiveTabValid(g)
  }

  /** The invariants the pane actions keep: at least one group, the focused
      group exists, and every group is well formed. */
  predicate PanesValid(p: Panes) {
    |p.groups| > 0 && GroupExists(p.groups, p.activeGroupId) &&
    forall g :: g in p.groups ==> GroupValid(g)
  }

  // ---------------------------------------------------------------------
  // openDocumentInGroup / openDocument

  /** Append the document if it is not open in the group yet, then focus it. */
  function OpenInGroup(g: TabGroup, docId: Id): (r: TabGroup)
    ensures r.id == g.id && r.activeTabId == Some(docId)
    ensures docId in g.tabs ==> r.tabs == g.tabs
    ensures docId !in g.tabs ==> r.tabs == g.tabs + [docId]
    ensures forall x :: x in r.tabs <==> x in g.tabs || x == docId
    ensures NoDuplicates(g.tabs) ==> GroupValid(r)
  {
    if docId in g.tabs then g.(activeTabId := Some(docId))
    else g.(tabs := g.tabs + [docId], activeTabId := Some(docId))
  }

  /** The index of the group `openDocument` opens into: the focused group,
      else the first group, else a group that does not exist yet (index 0 of
      a fresh list). */
  function OpenTarget(p: Panes): (r: nat)
    ensures |p.groups| > 0 ==> r < |p.groups|
    ensures GroupExists(p.groups, p.activeGroupId) ==> p.activeGroupId == Some(p.groups[r].id)
  {
    var k := GroupIndex(p.groups, p.activeGroupId);
    if k >= 0 then k else 0
  }

  /** `openDocument`: open `docId` in the focused group; with a stale focus in
      the first group, which then becomes focused; with no group at all in a
      new group `group-<uuid>`. */
  function Open(p: Panes, docId: Id, uuid: string): (r: Panes)
    ensures |r.groups| == if |p.groups| == 0 then 1 else |p.groups|
    ensures var t := OpenTarget(p);
      r.activeGroupId == Some(r.groups[t].id) &&
      docId in r.groups[t].tabs && r.groups[t].activeTabId == Some(docId) &&
      forall k :: 0 <= k < |p.groups| && k != t ==> r.groups[k] == p.groups[k]
    ensures GroupExists(p.groups, p.activeGroupId) ==> r.activeGroupId == p.activeGroupId
  {
    var k := GroupIndex(p.groups, p.activeGroupId);
    if k >= 0 then
      Panes(p.groups[k := OpenInGroup(p.groups[k], docId)], p.activeGroupId)
    else if |p.groups| == 0 then
      var g := NewGroup(uuid);
      Panes([OpenInGroup(g, docId)], Some(g.id))
    else
      Panes(p.groups[0 := OpenInGroup(p.groups[0], docId)], Some(p.groups[0].id))
  }

  /** The tab focused in the focused group:
      `tabGroups.find(g => g.id === activeGroupId)?.activeTabId`. */
  function FocusedTab(p: Panes): (r: Option<Id>)
    ensures r.Some? ==> exists g :: g in p.groups && Some(g.id) == p.activeGroupId && g.activeTabId == r
  {
    var k := GroupIndex(p.groups, p.activeGroupId);
    if k >= 0 then p.groups[k].activeTabId else None
  }

  /** The document just opened is the focused tab. */
  lemma OpenFocuses(p: Panes, docId: Id, uuid: string)
    ensures FocusedTab(Open(p, docId, uuid)) == Some(docId)
  {
    var r := Open(p, docId, uuid);
    var t := OpenTarget(p);
    assert forall k :: 0 <= k < t ==> r.groups[k] == p.groups[k];
    assert GroupIndex(r.groups, r.activeGroupId) == t;
  }

  /** Opening keeps the pane invariants, and opening the same document twice
      is the same as opening it once. */
  lemma OpenValid(p: Panes, docId: Id, uuid: string)
    requires forall g :: g in p.groups ==> GroupValid(g)
    ensures PanesValid(Open(p, docId, uuid))
    ensures Open(Open(p, docId, uuid), docId, uuid) == Open(p, docId, uuid)
  {
    var r := Open(p, docId, uuid);
    var t := OpenTarget(p);
    assert r.groups[t] in r.groups;
    forall g | g in r.groups ensures GroupValid(g) {
      var k :| 0 <= k < |r.groups| && r.groups[k] == g;
      if k != t {
        assert p.groups[k] in p.groups;
      } else if |p.groups| > 0 {
        assert p.groups[t] in p.groups;
      }
    }
    assert GroupIndex(r.groups, r.activeGroupId) >= 0;
  }

  /** How `addPartAndChapter` opens its new chapter: in the focused group,
      else in the first group, else in a new group `group-<uuid>` that it
      focuses. Unlike `openDocument` it does not move a stale focus to the
      first group. */
  function OpenKeepingFocus(p: Panes, docId: Id, uuid: string): (r: Panes)
    ensures r.groups == Open(p, docId, uuid).groups
    ensures |p.groups| > 0 ==> r.activeGroupId == p.activeGroupId
    ensures GroupExists(p.groups, p.activeGroupId) || |p.groups| == 0 ==> r == Open(p, docId, uuid)
  {
    var o := Open(p, docId, uuid);
    if |p.groups| == 0 then o else Panes(o.groups, p.activeGroupId)
  }

  /** So a stale focus stays stale: the chapter opens in the first group,
      but no existing group is focused afterwards. */
  lemma OpenKeepingFocusStale()
    ensures var p := Panes([TabGroup("g", [], None)], Some("gone"));
      var r := OpenKeepingFocus(p, "ch-1", "u");
      r.groups == [TabGroup("g", ["ch-1"], Some("ch-1"))] && !GroupExists(r.groups, r.activeGroupId) &&
      Open(p, "ch-1", "u").activeGroupId == Some("g")
  {
    var p := Panes([TabGroup("g", [], None)], Some("gone"));
    assert p.groups[0].id != "gone";
    assert GroupIndex(p.groups, p.activeGroupId) == -1;
    var g := OpenInGroup(p.groups[0], "ch-1");
    assert g.tabs == [] + ["ch-1"] == ["ch-1"];
    var r := OpenKeepingFocus(p, "ch-1", "u");
    assert r.groups == [g];
    assert r.groups[0].id != "gone";
  }

  // ---------------------------------------------------------------------
  // setActiveTab / setActiveGroup

  /** `setActiveTab`: focus the group `groupId` and its tab `tabId`; nothing
      happens when no group has that id. Membership of `tabId` is not
      checked. */
  function SetActiveTab(p: Panes, groupId: Id, tabId: Id): (r: Panes)
    ensures !GroupExists(p.groups, Some(groupId)) ==> r == p
    ensures GroupExists(p.groups, Some(groupId)) ==>
      r.activeGroupId == Some(groupId) && |r.groups| == |p.groups| &&
      var k := GroupIndex(p.groups, Some(groupId));
      r.groups[k] == p.groups[k].(activeTabId := Some(tabId)) &&
      forall j :: 0 <= j < |p.groups| && j != k ==> r.groups[j] == p.groups[j]
  {
    var k := GroupIndex(p.groups, Some(groupId));
    if k < 0 then p
    else Panes(p.groups[k := p.groups[k].(activeTabId := Some(tabId))], Some(groupId))
  }

  /** With `tabId` among the group's tabs the invariants survive. */
  lemma SetActiveTabValid(p: Panes, groupId: Id, tabId: Id)
    requires PanesValid(p)
    requires forall g :: g in p.groups && g.id == groupId ==> tabId in g.tabs
    ensures PanesValid(SetActiveTab(p, groupId, tabId))
  {
    var r := SetActiveTab(p, groupId, tabId);
    var k := GroupIndex(p.groups, Some(groupId));
    if k >= 0 {
      assert p.groups[k] in p.groups;
      assert r.groups[k] in r.groups;
      forall g | g in r.groups ensures GroupValid(g) {
        var j :| 0 <= j < |r.groups| && r.groups[j] == g;
        assert p.groups[j] in p.groups;
      }
    }
  }

  /** Without that caller discipline they do not: focusing a tab the group
      does not hold leaves a dangling `activeTabId`. */
  lemma SetActiveTabUnchecked()
    ensures var p := Panes([TabGroup("g", ["a"], Some("a"))], Some("g"));
      PanesValid(p) && !PanesValid(SetActiveTab(p, "g", "b"))
  {
    var p := Panes([TabGroup("g", ["a"], Some("a"))], Some("g"));
    assert p.groups[0] in p.groups;
    var r := SetActiveTab(p, "g", "b");
    assert r.groups[0] in r.groups;
    assert r.groups[0].tabs == ["a"];
  }

  /** `setActiveGroup` stores any id, so the focused group can dangle too. */
  function SetActiveGroup(p: Panes, groupId: Id): (r: Panes)
    ensures r.groups == p.groups && r.activeGroupId == Some(groupId)
  {
    p.(activeGroupId := Some(groupId))
  }

  lemma SetActiveGroupUnchecked()
    ensures var p := Panes([TabGroup("g", [], None)], Some("g"));
      PanesValid(p) && !PanesValid(SetActiveGroup(p, "h"))
  {
    var p := Panes([TabGroup("g", [], None)], Some("g"));
    assert p.groups[0] in p.groups;
  }

  // ---------------------------------------------------------------------
  // closeTab

  /** `group.tabs[i] || null`: an index past the end, or an empty id, gives
      null. */
  function TabOrNull(tabs: seq<Id>, i: nat): (r: Option<Id>)
    ensures r.Some? ==> i < |tabs| && r.value == tabs[i] && r.value != ""
    ensures r.None? ==> i >= |tabs| || tabs[i] == ""
  {
    if i < |tabs| && tabs[i] != "" then Some(tabs[i]) else None
  }

  /** The body of the `closeTab` loop for one group: remove the first
      occurrence of `tabId`; when it was the focused tab, focus the tab that
      now sits at `max(0, i - 1)`. */
  function CloseInGroup(g: TabGroup, tabId: Id): (r: TabGroup)
    ensures r.id == g.id
    ensures tabId !in g.tabs ==> r == g
    ensures g.activeTabId != Some(tabId) ==> r.activeTabId == g.activeTabId
  {
    if tabId !in g.tabs then g
    else
      var i := IndexOf(g.tabs, tabId);
      var tabs := RemoveAt(g.tabs, i);
      if g.activeTabId == Some(tabId) then
        g.(tabs := tabs, activeTabId := TabOrNull(tabs, if i > 0 then i - 1 else 0))
      else
        g.(tabs := tabs)
  }

  /** Closing removes exactly one occurrence of the tab, if any, and keeps
      the order of the others. */
  lemma CloseInGroupRemovesOne(g: TabGroup, tabId: Id)
    ensures var r := CloseInGroup(g, tabId);
      (tabId in g.tabs ==> multiset(r.tabs) == multiset(g.tabs) - multiset{tabId}) &&
      SubsequenceOf(r.tabs, g.tabs)
  {
    var i := IndexOf(g.tabs, tabId);
    if i < 0 {
      SubsequenceOfSelf(g.tabs);
    } else {
      RemoveAtIsSubsequence(g.tabs, i);
    }
  }

  /** Closing keeps the focus on a tab of the group; in a duplicate-free
      group the closed tab is gone afterwards. */
  lemma CloseInGroupValid(g: TabGroup, tabId: Id)
    ensures var r := CloseInGroup(g, tabId);
      (ActiveTabValid(g) ==> ActiveTabValid(r)) &&
      (NoDuplicates(g.tabs) ==> NoDuplicates(r.tabs) && tabId !in r.tabs)
  {
    var r := CloseInGroup(g, tabId);
    var i := IndexOf(g.tabs, tabId);
    if i >= 0 {
      var tabs := RemoveAt(g.tabs, i);
      assert r.tabs == tabs;
      RemoveAtNoDuplicates(g.tabs, i);
      if g.activeTabId.Some? && g.activeTabId != Some(tabId) && g.activeTabId.value in g.tabs {
        var j :| 0 <= j < |g.tabs| && g.tabs[j] == g.activeTabId.value;
        assert j != i;
        assert tabs[if j < i then j else j - 1] == g.tabs[j];
      }
    }
  }

  lemma RemoveAtIsSubsequence(s: seq<Id>, i: nat)
    requires i < |s|
    ensures SubsequenceOf(RemoveAt(s, i), s)
  {
    var before, after := s[..i], s[i + 1..];
    assert RemoveAt(s, i) == before + after;
    assert s[i..][1..] == after;
    SubsequenceConcat(before, before, after, s[i..]);
    assert before + s[i..] == s;
  }

  lemma {:induction false} SubsequenceConcat(a: seq<Id>, b: seq<Id>, c: seq<Id>, d: seq<Id>)
    requires a == b && |d| > 0 && c == d[1..]
    ensures SubsequenceOf(a + c, b + d)
    decreases |a|
  {
    if |a| == 0 {
      assert b + d == d && a + c == c;
      SubsequenceOfSelf(c);
      SubsequenceWeaken(c, d[1..], d[0]);
      assert [d[0]] + d[1..] == d;
    } else {
      SubsequenceConcat(a[1..], b[1..], c, d);
      assert (a + c)[1..] == a[1..] + c && (b + d)[1..] == b[1..] + d;
    }
  }

  /** Where the focused tab is closed, focus moves to its left neighbour, or,
      for the first tab, to the tab that followed it; a group left empty has
      no focus. */
  lemma CloseActiveRefocus(g: TabGroup, tabId: Id)
    requires g.activeTabId == Some(tabId) && tabId in g.tabs
    ensures var i := IndexOf(g.tabs, tabId);
      var r := CloseInGroup(g, tabId);
      (i > 0 ==> r.activeTabId == TabOrNull(g.tabs, i - 1)) &&
      (i == 0 && |g.tabs| > 1 ==> r.activeTabId == TabOrNull(g.tabs, 1)) &&
      (|g.tabs| == 1 ==> r.activeTabId == None)
  {
  }

  /** Closing the focused first tab focuses the new first tab, not nothing. */
  lemma CloseFirstActiveTab()
    ensures CloseInGroup(TabGroup("g", ["a", "b", "c"], Some("a")), "a")
         == TabGroup("g", ["b", "c"], Some("b"))
  {
    assert IndexOf(["a", "b", "c"], "a") == 0;
    assert RemoveAt(["a", "b", "c"], 0) == ["b", "c"];
  }

  /** The `closeTab` loop over all groups. */
  function CloseEverywhere(groups: seq<TabGroup>, tabId: Id): (r: seq<TabGroup>)
    ensures |r| == |groups|
    ensures forall k :: 0 <= k < |groups| ==> r[k] == CloseInGroup(groups[k], tabId)
  {
    seq(|groups|, k requires 0 <= k < |groups| => CloseInGroup(groups[k], tabId))
  }

  /** Closing one id after another, in order (the `deletePart` loops). */
  function CloseAll(groups: seq<TabGroup>, ids: seq<Id>): (r: seq<TabGroup>)
    ensures |r| == |groups|
    decreases |ids|
  {
    if |ids| == 0 then groups
    else CloseEverywhere(CloseAll(groups, ids[..|ids| - 1]), ids[|ids| - 1])
  }

  /** After closing, no duplicate-free group holds the id; every group keeps
      its id, its other tabs and its validity; a focus on another tab is
      untouched. */
  lemma CloseEverywhereSpec(groups: seq<TabGroup>, tabId: Id, k: nat)
    requires k < |groups|
    ensures var r := CloseEverywhere(groups, tabId);
      r[k].id == groups[k].id &&
      (forall x :: x != tabId ==> (x in r[k].tabs <==> x in groups[k].tabs)) &&
      (groups[k].activeTabId != Some(tabId) ==> r[k].activeTabId == groups[k].activeTabId) &&
      (GroupValid(groups[k]) ==> GroupValid(r[k]) && tabId !in r[k].tabs)
  {
    var r := CloseEverywhere(groups, tabId);
    CloseInGroupRemovesOne(groups[k], tabId);
    CloseInGroupValid(groups[k], tabId);
    if tabId in groups[k].tabs {
      forall x | x != tabId ensures x in r[k].tabs <==> x in groups[k].tabs {
        RemovingOneKeepsOthers(r[k].tabs, groups[k].tabs, tabId, x);
      }
    }
  }

  /** Closing one more id of a list closes it after the ones before it. */
  lemma CloseAllSnoc(groups: seq<TabGroup>, ids: seq<Id>, j: nat)
    requires j < |ids|
    ensures CloseAll(groups, ids[..j + 1]) == CloseEverywhere(CloseAll(groups, ids[..j]), ids[j])
  {
    assert ids[..j + 1][..j] == ids[..j];
  }

  /** Every id in `init + [last]` is `last` or an id of `init`, and back. */
  lemma InInitOrLast(ids: seq<Id>, x: Id)
    requires |ids| > 0
    ensures x in ids <==> x == ids[|ids| - 1] || x in ids[..|ids| - 1]
  {
    assert ids == ids[..|ids| - 1] + [ids[|ids| - 1]];
  }

  lemma {:induction false} CloseAllValid(groups: seq<TabGroup>, ids: seq<Id>, k: nat)
    requires k < |groups| && GroupValid(groups[k])
    ensures GroupValid(CloseAll(groups, ids)[k]) && CloseAll(groups, ids)[k].id == groups[k].id
    decreases |ids|
  {
    if |ids| > 0 {
      var init := ids[..|ids| - 1];
      CloseAllValid(groups, init, k);
      CloseEverywhereSpec(CloseAll(groups, init), ids[|ids| - 1], k);
    }
  }

  lemma {:induction false} CloseAllKeeps(groups: seq<TabGroup>, ids: seq<Id>, k: nat)
    requires k < |groups|
    ensures forall x :: x !in ids ==> (x in CloseAll(groups, ids)[k].tabs <==> x in groups[k].tabs)
    decreases |ids|
  {
    if |ids| > 0 {
      var init := ids[..|ids| - 1];
      var last := ids[|ids| - 1];
      CloseAllKeeps(groups, init, k);
      CloseEverywhereSpec(CloseAll(groups, init), last, k);
      forall x | x !in ids
        ensures x in CloseAll(groups, ids)[k].tabs <==> x in groups[k].tabs
      {
        InInitOrLast(ids, x);
      }
    }
  }

  lemma {:induction false} CloseAllRemoves(groups: seq<TabGroup>, ids: seq<Id>, k: nat)
    requires k < |groups| && GroupValid(groups[k])
    ensures forall x :: x in ids ==> x !in CloseAll(groups, ids)[k].tabs
    decreases |ids|
  {
    if |ids| > 0 {
      var init := ids[..|ids| - 1];
      var last := ids[|ids| - 1];
      CloseAllRemoves(groups, init, k);
      CloseAllValid(groups, init, k);
      CloseEverywhereSpec(CloseAll(groups, init), last, k);
      forall x | x in ids
        ensures x !in CloseAll(groups, ids)[k].tabs
      {
        InInitOrLast(ids, x);
      }
    }
  }

  /** Closing a list of ids leaves none of them in any well-formed group,
      keeps every group well formed, and closes nothing else. */
  lemma CloseAllSpec(groups: seq<TabGroup>, ids: seq<Id>, k: nat)
    requires k < |groups| && GroupValid(groups[k])
    ensures GroupValid(CloseAll(groups, ids)[k]) && CloseAll(groups, ids)[k].id == groups[k].id
    ensures forall x :: x in ids ==> x !in CloseAll(groups, ids)[k].tabs
    ensures forall x :: x !in ids ==> (x in CloseAll(groups, ids)[k].tabs <==> x in groups[k].tabs)
  {
    CloseAllValid(groups, ids, k);
    CloseAllRemoves(groups, ids, k);
    CloseAllKeeps(groups, ids, k);
  }

  // ---------------------------------------------------------------------
  // cleanupTabGroupsAndFocus

  predicate NonEmptyGroup(g: TabGroup) { |g.tabs| > 0 }

  /** `cleanupTabGroupsAndFocus`: with more than one group drop the empty ones;
      if none is left open a fresh empty group and focus it; otherwise focus
      the first group when the focused id is null, empty, or names no group. */
  function Cleanup(p: Panes, uuid: string): (r: Panes)
    ensures |r.groups| > 0
    ensures GroupExists(r.groups, r.activeGroupId)
    ensures forall g :: g in r.groups ==> g in p.groups || g == NewGroup(uuid)
  {
    var groups := if |p.groups| > 1 then Filter(p.groups, NonEmptyGroup) else p.groups;
    if |groups| == 0 then
      var g := NewGroup(uuid);
      assert g in [g];
      Panes([g], Some(g.id))
    else if !GroupExists(groups, p.activeGroupId) || !Truthy(p.activeGroupId) then
      assert groups[0] in groups;
      Panes(groups, Some(groups[0].id))
    else
      Panes(groups, p.activeGroupId)
  }

  /** What cleanup keeps: with several groups exactly the non-empty ones in
      order, a lone group (even an empty one) as it is, and the focus when it
      still names a group. */
  lemma CleanupKeeps(p: Panes, uuid: string)
    ensures var r := Cleanup(p, uuid);
      (|p.groups| > 1 && (exists g :: g in p.groups && NonEmptyGroup(g)) ==>
         r.groups == Filter(p.groups, NonEmptyGroup) && (forall g :: g in r.groups ==> NonEmptyGroup(g))) &&
      (|p.groups| == 1 ==> r.groups == p.groups) &&
      (|p.groups| > 1 && (forall g :: g in p.groups ==> !NonEmptyGroup(g)) ==> r.groups == [NewGroup(uuid)]) &&
      (|p.groups| == 0 ==> r == Panes([NewGroup(uuid)], Some(GroupPrefix + uuid))) &&
      (Truthy(p.activeGroupId) && GroupExists(r.groups, p.activeGroupId) ==> r.activeGroupId == p.activeGroupId)
  {
    if |p.groups| > 1 && (exists g :: g in p.groups && NonEmptyGroup(g)) {
      var g :| g in p.groups && NonEmptyGroup(g);
      assert g in Filter(p.groups, NonEmptyGroup);
    }
  }

  /** Scenario: a lone empty group survives cleanup, and the welcome screen
      shows in it. */
  lemma CleanupKeepsLoneEmptyGroup(uuid: string)
    ensures Cleanup(Panes([TabGroup("group-1", [], None)], Some("group-1")), uuid)
         == Panes([TabGroup("group-1", [], None)], Some("group-1"))
  {
    var gs := [TabGroup("group-1", [], None)];
    assert gs[0] in gs;
  }

  /** Cleanup keeps every surviving group well formed. */
  lemma CleanupValid(p: Panes, uuid: string)
    requires forall g :: g in p.groups ==> GroupValid(g)
    ensures PanesValid(Cleanup(p, uuid))
  {
    var r := Cleanup(p, uuid);
    forall g | g in r.groups ensures GroupValid(g) {
      if g !in p.groups {
        assert g == NewGroup(uuid);
      }
    }
  }

  /** Running cleanup twice is running it once, whatever fresh id the second
      run would use. */
  lemma CleanupIdempotent(p: Panes, uuid: string, uuid2: string)
    ensures Cleanup(Cleanup(p, uuid), uuid2) == Cleanup(p, uuid)
  {
    var r := Cleanup(p, uuid);
    if |r.groups| > 1 {
      CleanupKeeps(p, uuid);
      assert |p.groups| > 1;
      FilterAll(r.groups, NonEmptyGroup);
    }
    var k := GroupIndex(r.groups, r.activeGroupId);
    assert r.groups[0] in r.groups;
  }

  /** `closeTab` as a whole: after closing the tab everywhere and cleaning
      up, the panes are well formed and no tab names the closed document. */
  lemma CloseThenCleanup(p: Panes, tabId: Id, uuid: string)
    requires forall g :: g in p.groups ==> GroupValid(g)
    ensures var r := Cleanup(Panes(CloseEverywhere(p.groups, tabId), p.activeGroupId), uuid);
      PanesValid(r) && forall g :: g in r.groups ==> tabId !in g.tabs
  {
    var c := CloseEverywhere(p.groups, tabId);
    forall g | g in c ensures GroupValid(g) && tabId !in g.tabs {
      var k :| 0 <= k < |c| && c[k] == g;
      assert p.groups[k] in p.groups;
      CloseEverywhereSpec(p.groups, tabId, k);
    }
    CleanupValid(Panes(c, p.activeGroupId), uuid);
  }

  /** The `deletePart` cascade: closing every chapter of the part, then
      cleaning up, leaves well-formed panes with none of those tabs. */
  lemma CloseAllThenCleanup(p: Panes, ids: seq<Id>, uuid: string)
    requires forall g :: g in p.groups ==> GroupValid(g)
    ensures var r := Cleanup(Panes(CloseAll(p.groups, ids), p.activeGroupId), uuid);
      PanesValid(r) && forall g, x :: g in r.groups && x in ids ==> x !in g.tabs
  {
    var c := CloseAll(p.groups, ids);
    forall g | g in c ensures GroupValid(g) && forall x :: x in ids ==> x !in g.tabs {
      var k :| 0 <= k < |c| && c[k] == g;
      assert p.groups[k] in p.groups;
      CloseAllSpec(p.groups, ids, k);
    }
    CleanupValid(Panes(c, p.activeGroupId), uuid);
  }

  // ---------------------------------------------------------------------
  // splitEditor / unsplitEditor

  /** `splitEditor`: with at most one group add an empty group `group-<uuid>`
      and focus it; with two or more do nothing. */
  function Split(p: Panes, uuid: string): (r: Panes)
    ensures |p.groups| > 1 ==> r == p
    ensures |p.groups| <= 1 ==>
      r.groups == p.groups + [NewGroup(uuid)] && r.activeGroupId == Some(GroupPrefix + uuid)
    ensures |r.groups| <= if |p.groups| > 2 then |p.groups| else 2
  {
    if |p.groups| > 1 then p
    else
      var g := NewGroup(uuid);
      Panes(p.groups + [g], Some(g.id))
  }

  /** The `unsplitEditor` loop: push each of `b`'s tabs not already present. */
  function MergeTabs(a: seq<Id>, b: seq<Id>): (r: seq<Id>)
    ensures |a| <= |r| && r[..|a|] == a
    ensures forall x :: x in r <==> x in a || x in b
    ensures NoDuplicates(a) ==> NoDuplicates(r)
    ensures SubsequenceOf(r[|a|..], b)
    decreases |b|
  {
    if |b| == 0 then
      assert a[|a|..] == [];
      a
    else
      var m := MergeTabs(a, b[..|b| - 1]);
      var x := b[|b| - 1];
      assert b == b[..|b| - 1] + [x];
      if x in m then
        SubsequenceSnoc(m[|a|..], b[..|b| - 1], x);
        m
      else
        SubsequenceSnoc(m[|a|..], b[..|b| - 1], x);
        assert (m + [x])[|a|..] == m[|a|..] + [x];
        m + [x]
  }

  /** One more tab of `b` merged: pushed unless already present. */
  lemma MergeTabsSnoc(a: seq<Id>, b: seq<Id>, i: nat)
    requires i < |b|
    ensures MergeTabs(a, b[..i + 1]) ==
      var m := MergeTabs(a, b[..i]);
      if b[i] in m then m else m + [b[i]]
  {
    assert b[..i + 1][..i] == b[..i];
  }

  /** `unsplitEditor`: with two or more groups keep only the focused group,
      its tabs followed by the first other group's tabs it lacks; nothing
      happens with fewer than two groups or when either group is missing. */
  function Unsplit(p: Panes): (r: Panes)
    ensures |p.groups| < 2 ==> r == p
    ensures var a, b := GroupIndex(p.groups, p.activeGroupId), OtherGroupIndex(p.groups, p.activeGroupId);
      |p.groups| >= 2 && a >= 0 && b >= 0 ==>
        |r.groups| == 1 && r.activeGroupId == p.activeGroupId &&
        r.groups[0].id == p.groups[a].id &&
        r.groups[0].activeTabId == p.groups[a].activeTabId &&
        |p.groups[a].tabs| <= |r.groups[0].tabs| &&
        r.groups[0].tabs[..|p.groups[a].tabs|] == p.groups[a].tabs &&
        (forall x :: x in r.groups[0].tabs <==> x in p.groups[a].tabs || x in p.groups[b].tabs)
    ensures |p.groups| >= 2 && (GroupIndex(p.groups, p.activeGroupId) < 0 || OtherGroupIndex(p.groups, p.activeGroupId) < 0) ==> r == p
  {
    if |p.groups| < 2 then p
    else
      var a := GroupIndex(p.groups, p.activeGroupId);
      var b := OtherGroupIndex(p.groups, p.activeGroupId);
      if a < 0 || b < 0 then p
      else
        var g := p.groups[a];
        Panes([g.(tabs := MergeTabs(g.tabs, p.groups[b].tabs))], Some(g.id))
  }

  lemma UnsplitValid(p: Panes)
    requires PanesValid(p)
    ensures PanesValid(Unsplit(p))
  {
    var r := Unsplit(p);
    if r != p {
      var a := GroupIndex(p.groups, p.activeGroupId);
      assert p.groups[a] in p.groups;
      assert r.groups[0] in r.groups;
      if r.groups[0].activeTabId.Some? {
        assert r.groups[0].activeTabId.value in p.groups[a].tabs;
      }
    }
  }

  /** Splitting a single pane and unsplitting again keeps every tab, in
      order, but in the new (focused) group and with no tab focused. */
  lemma SplitThenUnsplit(g: TabGroup, uuid: string)
    requires NoDuplicates(g.tabs) && g.id != GroupPrefix + uuid
    ensures Unsplit(Split(Panes([g], Some(g.id)), uuid))
         == Panes([TabGroup(GroupPrefix + uuid, g.tabs, None)], Some(GroupPrefix + uuid))
  {
    var s := Split(Panes([g], Some(g.id)), uuid);
    assert s.groups == [g, NewGroup(uuid)];
    assert GroupIndex(s.groups, s.activeGroupId) == 1;
    assert OtherGroupIndex(s.groups, s.activeGroupId) == 0;
    MergeIntoEmpty(g.tabs);
  }

  lemma {:induction false} MergeIntoEmpty(b: seq<Id>)
    requires NoDuplicates(b)
    ensures MergeTabs([], b) == b
    decreases |b|
  {
    if |b| > 0 {
      var init := b[..|b| - 1];
      MergeIntoEmpty(init);
      assert b[|b| - 1] !in init;
      assert init + [b[|b| - 1]] == b;
    }
  }
}
