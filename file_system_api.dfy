/** Loading and saving the application data in browser storage. Storage is a
    map from key to the record stored there; a record that cannot be read
    (malformed text, or a shape whose field access throws) is `Unreadable`.
    Parsed records keep the fields older versions may lack as options, and
    loading backfills them. The clock is a parameter, and so is whether a
    write to storage succeeds. */
module FileSystemApi {
  import opened Lists
  import opened Types
  import TabGroups

  const StorageKey := "synthia-workspace-v2"
  const LegacyKey := "synthia-workspace"

  const DefaultSettings := Settings(EditorSettings("'Inter', sans-serif", 16, 1.7))

  // ---------------------------------------------------------------------
  // Parsed records

  /** A chapter as parsed; `updatedAt` is absent (or empty) in old data. */
  datatype RawChapter = RawChapter(
    id: Id,
    title: string,
    status: ChapterStatus,
    content: string,
    updatedAt: Option<Time>,
    fragmentIds: seq<Id>)

  datatype RawPart = RawPart(id: Id, title: string, chapters: seq<RawChapter>)

  datatype RawUi = RawUi(
    tabGroups: seq<TabGroup>,
    activeGroupId: Option<Id>,
    splitDirection: SplitDirection,
    bottomPanelOpen: bool,
    inspectorOpen: bool,
    commandPaletteOpen: bool,
    renamingId: Option<Id>,
    sidebarView: Option<string>,
    settingsOpen: Option<bool>,
    activeFragmentTags: Option<seq<string>>)

  datatype RawWorkspace = RawWorkspace(toc: seq<RawPart>, fragments: seq<Fragment>, uiState: RawUi, settings: Option<Settings>)

  datatype RawData = RawData(currentWorkspace: RawWorkspace, snapshots: seq<Snapshot>)

  /** What a storage key holds: empty text, something that fails to parse or
      to be read as the expected shape, a bare workspace (the legacy format)
      or the whole application data. */
  datatype Stored = EmptyText | Unreadable | WorkspaceRecord(workspace: RawWorkspace) | DataRecord(data: RawData)

  /** The record a saved value parses back to: every field present. */
  function ToRaw(d: SynthiaData): (r: RawData)
    ensures Complete(r)
  {
    var w := d.currentWorkspace;
    var ui := w.uiState;
    RawData(
      RawWorkspace(
        seq(|w.toc|, i requires 0 <= i < |w.toc| =>
          RawPart(w.toc[i].id, w.toc[i].title,
            seq(|w.toc[i].chapters|, j requires 0 <= j < |w.toc[i].chapters| =>
              var c := w.toc[i].chapters[j];
              RawChapter(c.id, c.title, c.status, c.content, Some(c.updatedAt), c.fragmentIds)))),
        w.fragments,
        RawUi(ui.tabGroups, ui.activeGroupId, ui.splitDirection, ui.bottomPanelOpen, ui.inspectorOpen,
          ui.commandPaletteOpen, ui.renamingId, Some(ui.sidebarView), Some(ui.settingsOpen), Some(ui.activeFragmentTags)),
        Some(w.settings)),
      d.snapshots)
  }

  /** Every chapter is stamped and every optional field present. */
  predicate Complete(r: RawData) {
    var w := r.currentWorkspace;
    TocStamped(w.toc) && w.settings.Some? &&
    w.uiState.sidebarView.Some? && w.uiState.settingsOpen.Some? && w.uiState.activeFragmentTags.Some?
  }

  predicate TocStamped(toc: seq<RawPart>) {
    forall i, j :: 0 <= i < |toc| && 0 <= j < |toc[i].chapters| ==> toc[i].chapters[j].updatedAt.Some?
  }

  // ---------------------------------------------------------------------
  // Backfills

  /** `if (!chapter.updatedAt) chapter.updatedAt = now` on one chapter. */
  function StampChapter(c: RawChapter, now: Time): RawChapter {
    if c.updatedAt.None? then c.(updatedAt := Some(now)) else c
  }

  /** The nested `forEach` over every chapter of every part. */
  function StampToc(toc: seq<RawPart>, now: Time): (r: seq<RawPart>)
    ensures |r| == |toc|
    ensures forall i :: 0 <= i < |toc| ==>
      r[i].id == toc[i].id && r[i].title == toc[i].title && |r[i].chapters| == |toc[i].chapters|
  {
    seq(|toc|, i requires 0 <= i < |toc| =>
      toc[i].(chapters := seq(|toc[i].chapters|, j requires 0 <= j < |toc[i].chapters| =>
        StampChapter(toc[i].chapters[j], now))))
  }

  /** After stamping every chapter has a timestamp; one that had a timestamp
      keeps it, one that had none gets `now`, and nothing else changes. */
  lemma StampTocSpec(toc: seq<RawPart>, now: Time)
    ensures TocStamped(StampToc(toc, now))
    ensures forall i, j :: 0 <= i < |toc| && 0 <= j < |toc[i].chapters| ==>
      var c, c' := toc[i].chapters[j], StampToc(toc, now)[i].chapters[j];
      c'.(updatedAt := c.updatedAt) == c &&
      c'.updatedAt == (if c.updatedAt.Some? then c.updatedAt else Some(now))
  {
  }

  /** The method form of the stamping loops. */
  method StampUpdatedAt(toc: seq<RawPart>, now: Time) returns (r: seq<RawPart>)
    ensures r == StampToc(toc, now)
  {
    r := toc;
    var i := 0;
    while i < |r|
      invariant 0 <= i <= |r| == |toc|
      invariant forall k :: 0 <= k < i ==> r[k] == StampToc(toc, now)[k]
      invariant forall k :: i <= k < |r| ==> r[k] == toc[k]
    {
      var chapters := r[i].chapters;
      var j := 0;
      while j < |chapters|
        invariant 0 <= j <= |chapters| == |toc[i].chapters|
        invariant forall m :: 0 <= m < j ==> chapters[m] == StampChapter(toc[i].chapters[m], now)
        invariant forall m :: j <= m < |chapters| ==> chapters[m] == toc[i].chapters[m]
      {
        if chapters[j].updatedAt.None? {
          chapters := chapters[j := chapters[j].(updatedAt := Some(now))];
        }
        j := j + 1;
      }
      assert chapters == StampToc(toc, now)[i].chapters;
      r := r[i := r[i].(chapters := chapters)];
      i := i + 1;
    }
  }

  /** The checks run on data read under the current key: an empty or
      missing sidebar view becomes the explorer, the retired
      `source-control` view becomes history, missing tag filters become
      empty, and every chapter gets a timestamp. Settings and the settings
      flag are not backfilled on this path. */
  function NormalizeCurrent(d: RawData, now: Time): (r: RawData)
    ensures r.snapshots == d.snapshots
    ensures r.currentWorkspace.toc == StampToc(d.currentWorkspace.toc, now)
    ensures var view, view' := d.currentWorkspace.uiState.sidebarView, r.currentWorkspace.uiState.sidebarView;
      view' == Some(if !Truthy(view) then "explorer" else if view.value == "source-control" then "history" else view.value)
    ensures var tags := d.currentWorkspace.uiState.activeFragmentTags;
      r.currentWorkspace.uiState.activeFragmentTags == Some(if tags.None? then [] else tags.value)
    ensures r.currentWorkspace.settings == d.currentWorkspace.settings
    ensures r.currentWorkspace.uiState.settingsOpen == d.currentWorkspace.uiState.settingsOpen
    ensures Complete(r) <==> d.currentWorkspace.settings.Some? && d.currentWorkspace.uiState.settingsOpen.Some?
  {
    StampTocSpec(d.currentWorkspace.toc, now);
    var w := d.currentWorkspace;
    var ui := w.uiState;
    var view := if !Truthy(ui.sidebarView) then "explorer" else ui.sidebarView.value;
    var view' := if view == "source-control" then "history" else view;
    var tags := if ui.activeFragmentTags.None? then [] else ui.activeFragmentTags.value;
    d.(currentWorkspace := w.(
      toc := StampToc(w.toc, now),
      uiState := ui.(sidebarView := Some(view'), activeFragmentTags := Some(tags))))
  }

  /** Migrating a workspace stored under the legacy key: the same backfills
      as above plus the settings and the settings flag, without the
      `source-control` rename, wrapped with an empty snapshot list. */
  function MigrateLegacy(w: RawWorkspace, now: Time): (r: RawData)
    ensures Complete(r) && r.snapshots == []
    ensures r.currentWorkspace.toc == StampToc(w.toc, now)
    ensures var view := w.uiState.sidebarView;
      r.currentWorkspace.uiState.sidebarView == Some(if !Truthy(view) then "explorer" else view.value)
    ensures r.currentWorkspace.settings == Some(if w.settings.None? then DefaultSettings else w.settings.value)
    ensures r.currentWorkspace.uiState.settingsOpen ==
      Some(if w.uiState.settingsOpen.None? then false else w.uiState.settingsOpen.value)
    ensures var tags := w.uiState.activeFragmentTags;
      r.currentWorkspace.uiState.activeFragmentTags == Some(if tags.None? then [] else tags.value)
    ensures r.currentWorkspace.fragments == w.fragments
  {
    StampTocSpec(w.toc, now);
    var ui := w.uiState;
    var ui' := ui.(
      sidebarView := if !Truthy(ui.sidebarView) then Some("explorer") else ui.sidebarView,
      settingsOpen := if ui.settingsOpen.None? then Some(false) else ui.settingsOpen,
      activeFragmentTags := if ui.activeFragmentTags.None? then Some([]) else ui.activeFragmentTags);
    var settings := if w.settings.None? then Some(DefaultSettings) else w.settings;
    RawData(w.(toc := StampToc(w.toc, now), uiState := ui', settings := settings), [])
  }

  /** The legacy path keeps a retired `source-control` view as it is. */
  lemma MigrateLegacyKeepsSourceControl(w: RawWorkspace, now: Time)
    requires w.uiState.sidebarView == Some("source-control")
    ensures MigrateLegacy(w, now).currentWorkspace.uiState.sidebarView == Some("source-control")
    ensures NormalizeCurrent(RawData(w, []), now).currentWorkspace.uiState.sidebarView == Some("history")
  {
  }

  // ---------------------------------------------------------------------
  // The seeded workspace

  function SeedFragment(id: Id, tag: string, text: string, now: Time): Fragment {
    Fragment(id, IdeaFragment, None, [tag], "<p>" + text + "</p>", now, now)
  }

  function SeedChapter(id: Id, title: string, status: ChapterStatus, body: string, now: Time, fragmentIds: seq<Id>): Chapter {
    Chapter(id, title, status, "<h1>" + title + "</h1><p>" + body + "</p>", now, fragmentIds)
  }

  const Body_1_0 := "An invitation to the reader, setting the terms for a journey of awakening where the ground will shake and the myths will dissolve. What is real, and how do we know?"
  const Body_1_1 := "The rupture is personal, not theoretical. This chapter recounts the first-hand disillusionment when the state’s promises break against the rocks of lived reality."
  const Body_1_2 := "What we thought was home was a stage. An examination of the deep-seated indoctrination from childhood, where the state becomes a surrogate parent."
  const Body_1_3 := "That is how deep the trap runs. A reflection on the sincerity of past belief, where obedience was not coerced but embraced as righteousness and moral alignment."
  const Body_1_4 := "To wear the uniform is to disappear. A clinical look at how ritualized obedience and role-play can subsume individual identity, turning a person into an instrument of the state."
  const Body_1_5 := "The myth never breaks all at once. It unravels. This chapter details the quiet gnawing of cognitive dissonance as inconsistencies in the master story begin to accumulate."
  const Body_1_6 := "The awakening begins in pain. The moment when the abstract violence of the state becomes intimate and personal, shattering the believer’s sanitized worldview."
  const Body_1_7 := "Worse than evil—it’s emptiness. The horrifying realization that the system is an automated, soulless machine without a driver, feeding on its own logic."
  const Body_1_8 := "This was the first true act. The pivot from victim to seeker; the conscious choice to step outside the frame and pursue knowledge, not as rebellion, but as a fundamental act of will."
  const Body_2_1 := "To live is to act. This is the beginning of all structure."
  const Body_2_2 := "Every choice affirms your existence as an author of your path—or denies it."
  const Body_2_3 := "Action is not reaction. It is creation with intent."
  const Body_2_4 := "Society forms not from law, but from choice."
  const Body_2_5 := "When persuasion fails, power steps in. Coercion is not policy; it is war on agency."
  const Body_2_6 := "The state is coercion with a costume—legitimacy dressed as law."
  const Body_2_7 := "The exception to the state—it is its climax."
  const Body_3_1 := "The state feeds on story. Myth is not its tool—it is its womb."
  const Body_3_2 := "Legitimacy is not consent—it is performance, repeated until believed."
  const Body_3_3 := "When institutions mask themselves as success stories, decay becomes invisible."
  const Body_3_4 := "It's the moral factory of statism."
  const Body_3_5 := "The media no longer informs—it disciplines."
  const Body_3_6 := "In the name of remembrance, freedom is forgotten."
  const Body_4_1 := "Recovery is not return—it is reckoning."
  const Body_4_2 := "Volition is not belief—it is authorship."
  const Body_4_3 := "Clarity is not found—it is built."
  const Body_4_4 := "Power withdrawn, trust returns."
  const Body_4_5 := "The future grows quietly beside the ruins."
  const Body_4_6 := "To be free is to be fully real—again."
  const Text_1_0_1 := "Tension, anticipation"
  const Text_1_0_2 := "Premonition of rupture"
  const Text_1_0_3 := "Introduction of sacred myths"
  const Text_1_0_4 := "Implicit invitation to choose"
  const Text_1_0_5 := "Direct, calm address"
  const Text_1_0_6 := "What is real? How do I know?"
  const Text_1_1_1 := "Shock, moral rupture"
  const Text_1_1_2 := "Security myth collapses"
  const Text_1_1_3 := "The gap between media narrative and lived reality"
  const Text_1_1_4 := "Plainspoken, confessional, stripped of detachment"
  const Text_1_1_5 := "The seen vs. the believed"
  const Text_1_2_1 := "Fear shaping identity"
  const Text_1_2_2 := "Childhood rituals: anthem, school, holidays"
  const Text_1_2_3 := "Founding myths internalized"
  const Text_1_2_4 := "No authorship - inherited belief sanitized early"

  function SeedFragments(now: Time): seq<Fragment> {
    [ SeedFragment("frag-1-0-1", "Psychological Dynamics", Text_1_0_1, now),
      SeedFragment("frag-1-0-2", "Synthesis", Text_1_0_2, now),
      SeedFragment("frag-1-0-3", "Information Control", Text_1_0_3, now),
      SeedFragment("frag-1-0-4", "Human Agency", Text_1_0_4, now),
      SeedFragment("frag-1-0-5", "Rhetorical / Tone", Text_1_0_5, now),
      SeedFragment("frag-1-0-6", "Philosophical / Epistemic", Text_1_0_6, now),
      SeedFragment("frag-1-1-1", "Psychological Dynamics", Text_1_1_1, now),
      SeedFragment("frag-1-1-2", "Institutional Logic", Text_1_1_2, now),
      SeedFragment("frag-1-1-3", "Narrative Power", Text_1_1_3, now),
      SeedFragment("frag-1-1-4", "Rhetorical / Tone", Text_1_1_4, now),
      SeedFragment("frag-1-1-5", "Philosophical / Epistemic", Text_1_1_5, now),
      SeedFragment("frag-1-2-1", "Psychological Dynamics", Text_1_2_1, now),
      SeedFragment("frag-1-2-2", "Institutional Logic", Text_1_2_2, now),
      SeedFragment("frag-1-2-3", "Narrative Power", Text_1_2_3, now),
      SeedFragment("frag-1-2-4", "Information Control", Text_1_2_4, now) ]
  }

  function SeedPart1(now: Time): Part {
    Part("part-1", "Part I: From Statist Faith to Praxeological Awakening", [
      SeedChapter("ch-1-0", "1.0. Stage Setting", Draft, Body_1_0, now,
        ["frag-1-0-1", "frag-1-0-2", "frag-1-0-3", "frag-1-0-4", "frag-1-0-5", "frag-1-0-6"]),
      SeedChapter("ch-1-1", "1.1. I Was There", Idea, Body_1_1, now,
        ["frag-1-1-1", "frag-1-1-2", "frag-1-1-3", "frag-1-1-4", "frag-1-1-5"]),
      SeedChapter("ch-1-2", "1.2. How We Were Raised", Idea, Body_1_2, now,
        ["frag-1-2-1", "frag-1-2-2", "frag-1-2-3", "frag-1-2-4"]),
      SeedChapter("ch-1-3", "1.3. It Felt Just", Idea, Body_1_3, now, []),
      SeedChapter("ch-1-4", "1.4. Wearing the Uniform", Idea, Body_1_4, now, []),
      SeedChapter("ch-1-5", "1.5. Didn't Add Up", Idea, Body_1_5, now, []),
      SeedChapter("ch-1-6", "1.6. It Got Personal", Idea, Body_1_6, now, []),
      SeedChapter("ch-1-7", "1.7. No One's in Charge", Idea, Body_1_7, now, []),
      SeedChapter("ch-1-8", "1.8. I Had to Understand", Idea, Body_1_8, now, []) ])
  }

  function SeedPart2(now: Time): Part {
    Part("part-2", "Part II: A Praxeological Autopsy: From Life to State", [
      SeedChapter("ch-2-1", "2.1. Life", Idea, Body_2_1, now, []),
      SeedChapter("ch-2-2", "2.2. Choice", Idea, Body_2_2, now, []),
      SeedChapter("ch-2-3", "2.3. Action", Idea, Body_2_3, now, []),
      SeedChapter("ch-2-4", "2.4. Interaction", Idea, Body_2_4, now, []),
      SeedChapter("ch-2-5", "2.5. Coercion", Idea, Body_2_5, now, []),
      SeedChapter("ch-2-6", "2.6. State", Idea, Body_2_6, now, []),
      SeedChapter("ch-2-7", "2.7. War", Idea, Body_2_7, now, []) ])
  }

  function SeedPart3(now: Time): Part {
    Part("part-3", "Part III: Statism in the Holy Land: A Live Case Study", [
      SeedChapter("ch-3-1", "3.1. Myths", Idea, Body_3_1, now, []),
      SeedChapter("ch-3-2", "3.2. Legitimacy", Idea, Body_3_2, now, []),
      SeedChapter("ch-3-3", "3.3. Institutions", Idea, Body_3_3, now, []),
      SeedChapter("ch-3-4", "3.4. The Army", Idea, Body_3_4, now, []),
      SeedChapter("ch-3-5", "3.5. Media", Idea, Body_3_5, now, []),
      SeedChapter("ch-3-6", "3.6. Trauma", Idea, Body_3_6, now, []) ])
  }

  function SeedPart4(now: Time): Part {
    Part("part-4", "Part IV: Reclaiming Agency in a Post-Statist World", [
      SeedChapter("ch-4-1", "4.1. Recovery", Idea, Body_4_1, now, []),
      SeedChapter("ch-4-2", "4.2. Volition", Idea, Body_4_2, now, []),
      SeedChapter("ch-4-3", "4.3. Clarity", Idea, Body_4_3, now, []),
      SeedChapter("ch-4-4", "4.4. Decentralization", Idea, Body_4_4, now, []),
      SeedChapter("ch-4-5", "4.5. Parallel Structures", Idea, Body_4_5, now, []),
      SeedChapter("ch-4-6", "4.6. Liberation", Idea, Body_4_6, now, []) ])
  }

  /** `createInitialWorkspaceState`: the seeded book with its first chapter
      open in the only pane. */
  function InitialWorkspaceState(now: Time): (r: WorkspaceState)
    ensures r.uiState.tabGroups == [TabGroup("group-1", ["ch-1-0"], Some("ch-1-0"))]
    ensures r.uiState.activeGroupId == Some("group-1")
    ensures r.uiState.sidebarView == "explorer" && r.uiState.activeFragmentTags == []
    ensures r.settings == DefaultSettings
  {
    WorkspaceState(
      [SeedPart1(now), SeedPart2(now), SeedPart3(now), SeedPart4(now)],
      SeedFragments(now),
      UiState([TabGroup("group-1", ["ch-1-0"], Some("ch-1-0"))], Some("group-1"), Vertical,
        true, true, false, None, "explorer", false, []),
      DefaultSettings)
  }

  /** `createInitialSynthiaData`. */
  function InitialData(now: Time): (r: SynthiaData)
    ensures r.snapshots == [] && r.currentWorkspace == InitialWorkspaceState(now)
  {
    SynthiaData(InitialWorkspaceState(now), [])
  }

  /** The ids of the seeded parts, chapters and fragments, in order. */
  function SeedIds(now: Time): seq<Id> {
    var w := InitialWorkspaceState(now);
    [w.toc[0].id, w.toc[1].id, w.toc[2].id, w.toc[3].id] +
    ChapterIdsOf(w.toc[0].chapters) + ChapterIdsOf(w.toc[1].chapters) +
    ChapterIdsOf(w.toc[2].chapters) + ChapterIdsOf(w.toc[3].chapters) +
    FragmentIdsOf(w.fragments)
  }

  function FragmentIdsOf(fragments: seq<Fragment>): (r: seq<Id>)
    ensures |r| == |fragments| && forall k :: 0 <= k < |fragments| ==> r[k] == fragments[k].id
  {
    seq(|fragments|, k requires 0 <= k < |fragments| => fragments[k].id)
  }

  /** An id listed among the fragments' ids is found by `FindFragment`. */
  lemma FindListedFragment(fragments: seq<Fragment>, x: Id)
    requires x in FragmentIdsOf(fragments)
    ensures FindFragment(fragments, x).Some?
  {
    var k :| 0 <= k < |fragments| && FragmentIdsOf(fragments)[k] == x;
    assert fragments[k] in fragments;
  }

  const SeedFragmentIds: seq<Id> := ["frag-1-0-1", "frag-1-0-2", "frag-1-0-3", "frag-1-0-4", "frag-1-0-5", "frag-1-0-6", "frag-1-1-1", "frag-1-1-2", "frag-1-1-3", "frag-1-1-4", "frag-1-1-5", "frag-1-2-1", "frag-1-2-2", "frag-1-2-3", "frag-1-2-4"]

  lemma SeedPart1Ids(now: Time)
    ensures ChapterIdsOf(SeedPart1(now).chapters) == ["ch-1-0", "ch-1-1", "ch-1-2", "ch-1-3", "ch-1-4", "ch-1-5", "ch-1-6", "ch-1-7", "ch-1-8"]
  {
  }

  lemma SeedPart2Ids(now: Time)
    ensures ChapterIdsOf(SeedPart2(now).chapters) == ["ch-2-1", "ch-2-2", "ch-2-3", "ch-2-4", "ch-2-5", "ch-2-6", "ch-2-7"]
  {
  }

  lemma SeedPart3Ids(now: Time)
    ensures ChapterIdsOf(SeedPart3(now).chapters) == ["ch-3-1", "ch-3-2", "ch-3-3", "ch-3-4", "ch-3-5", "ch-3-6"]
  {
  }

  lemma SeedPart4Ids(now: Time)
    ensures ChapterIdsOf(SeedPart4(now).chapters) == ["ch-4-1", "ch-4-2", "ch-4-3", "ch-4-4", "ch-4-5", "ch-4-6"]
  {
  }

  lemma SeedFragmentIdsListed(now: Time)
    ensures FragmentIdsOf(SeedFragments(now)) == SeedFragmentIds
  {
  }

  const SeedChapterIds: seq<Id> := ["ch-1-0", "ch-1-1", "ch-1-2", "ch-1-3", "ch-1-4", "ch-1-5", "ch-1-6", "ch-1-7", "ch-1-8", "ch-2-1", "ch-2-2", "ch-2-3", "ch-2-4", "ch-2-5", "ch-2-6", "ch-2-7", "ch-3-1", "ch-3-2", "ch-3-3", "ch-3-4", "ch-3-5", "ch-3-6", "ch-4-1", "ch-4-2", "ch-4-3", "ch-4-4", "ch-4-5", "ch-4-6"]

  /** The seeded ids, listed. */
  lemma SeedIdsListed(now: Time)
    ensures SeedIds(now) == SeedPartIds + SeedChapterIds + SeedFragmentIds
  {
    SeedPart1Ids(now);
    SeedPart2Ids(now);
    SeedPart3Ids(now);
    SeedPart4Ids(now);
    SeedFragmentIdsListed(now);
  }

  /** Two lists without duplicates whose ids start with different letters
      append to a list without duplicates. */
  lemma NoDuplicatesAppend(a: seq<Id>, b: seq<Id>, c: char)
    requires NoDuplicates(a) && NoDuplicates(b)
    requires forall i :: 0 <= i < |a| ==> |a[i]| > 0 && a[i][0] == c
    requires forall j :: 0 <= j < |b| ==> |b[j]| > 0 && b[j][0] != c
    ensures NoDuplicates(a + b)
  {
    forall i, j | 0 <= i < j < |a + b| ensures (a + b)[i] != (a + b)[j] {
      if i < |a| <= j {
        assert (a + b)[i] == a[i] && (a + b)[j] == b[j - |a|];
      }
    }
  }

  lemma SeedChapterIdsDistinct()
    ensures NoDuplicates(SeedChapterIds)
  {
  }

  lemma SeedFragmentIdsDistinct()
    ensures NoDuplicates(SeedFragmentIds)
  {
  }

  const SeedPartIds: seq<Id> := ["part-1", "part-2", "part-3", "part-4"]

  lemma SeedPartIdKind()
    ensures forall i :: 0 <= i < |SeedPartIds| ==> |SeedPartIds[i]| > 0 && SeedPartIds[i][0] == 'p'
  {
  }

  lemma SeedChapterIdKind()
    ensures forall i :: 0 <= i < |SeedChapterIds| ==> |SeedChapterIds[i]| > 0 && SeedChapterIds[i][0] == 'c'
  {
  }

  lemma SeedFragmentIdKind()
    ensures forall i :: 0 <= i < |SeedFragmentIds| ==> |SeedFragmentIds[i]| > 0 && SeedFragmentIds[i][0] == 'f'
  {
  }

  lemma SeedIdListDistinct()
    ensures NoDuplicates(SeedPartIds + SeedChapterIds + SeedFragmentIds)
  {
    SeedChapterIdsDistinct();
    SeedFragmentIdsDistinct();
    SeedPartIdKind();
    SeedChapterIdKind();
    SeedFragmentIdKind();
    NoDuplicatesAppend(SeedChapterIds, SeedFragmentIds, 'c');
    var rest := SeedChapterIds + SeedFragmentIds;
    assert forall j :: 0 <= j < |rest| ==> |rest[j]| > 0 && rest[j][0] != 'p';
    NoDuplicatesAppend(SeedPartIds, rest, 'p');
    assert SeedPartIds + SeedChapterIds + SeedFragmentIds == SeedPartIds + rest;
  }

  /** No id of the seeded workspace is used twice. */
  lemma SeedIdsDistinct(now: Time)
    ensures NoDuplicates(SeedIds(now))
  {
    SeedIdsListed(now);
    SeedIdListDistinct();
  }

  /** The seeded panes satisfy the pane invariants, and the one open tab is
      a seeded chapter. */
  lemma SeedPanesValid(now: Time)
    ensures var w := InitialWorkspaceState(now);
      TabGroups.PanesValid(TabGroups.Panes(w.uiState.tabGroups, w.uiState.activeGroupId)) &&
      forall g, t :: g in w.uiState.tabGroups && t in g.tabs ==> FindChapter(w.toc, t).Some?
  {
    var w := InitialWorkspaceState(now);
    var g := TabGroup("group-1", ["ch-1-0"], Some("ch-1-0"));
    assert TabGroups.GroupValid(g);
    assert w.toc[0].chapters[0].id == "ch-1-0";
    assert w.toc[0].chapters[0] in AllChapters(w.toc);
  }

  /** Every link of every seeded chapter names a seeded fragment. */
  lemma SeedLinksResolve(now: Time)
    ensures var w := InitialWorkspaceState(now);
      forall i, j, x :: 0 <= i < |w.toc| && 0 <= j < |w.toc[i].chapters| && x in w.toc[i].chapters[j].fragmentIds ==>
        FindFragment(w.fragments, x).Some?
  {
    var w := InitialWorkspaceState(now);
    assert FragmentIdsOf(w.fragments) == SeedFragmentIds;
    SeedPart1Links(now);
    forall i, j, x | 0 <= i < |w.toc| && 0 <= j < |w.toc[i].chapters| && x in w.toc[i].chapters[j].fragmentIds
      ensures FindFragment(w.fragments, x).Some?
    {
      assert i == 0;
      FindListedFragment(w.fragments, x);
    }
  }

  /** Only the first part's chapters carry links, and each names a seeded
      fragment. */
  lemma SeedPart1Links(now: Time)
    ensures var w := InitialWorkspaceState(now);
      (forall i, j :: 1 <= i < |w.toc| && 0 <= j < |w.toc[i].chapters| ==> w.toc[i].chapters[j].fragmentIds == []) &&
      forall j, x :: 0 <= j < |w.toc[0].chapters| && x in w.toc[0].chapters[j].fragmentIds ==> x in SeedFragmentIds
  {
  }

  // ---------------------------------------------------------------------
  // Storage

  /** The data `loadState` returns for what storage holds. */
  function LoadResult(items: map<string, Stored>, now: Time): (r: RawData)
    ensures StorageKey !in items && (LegacyKey !in items || items[LegacyKey].EmptyText?) ==>
      r == ToRaw(InitialData(now))
    ensures StorageKey in items && !items[StorageKey].DataRecord? ==> r == ToRaw(InitialData(now))
  {
    if StorageKey in items then
      match items[StorageKey]
      case DataRecord(d) => NormalizeCurrent(d, now)
      case _ => ToRaw(InitialData(now))
    else if LegacyKey in items && !items[LegacyKey].EmptyText? then
      match items[LegacyKey]
      case WorkspaceRecord(w) => MigrateLegacy(w, now)
      case _ => ToRaw(InitialData(now))
    else ToRaw(InitialData(now))
  }

  /** What storage holds after `saveState`. */
  function AfterSave(items: map<string, Stored>, d: RawData, writeOk: bool): map<string, Stored> {
    if writeOk then items[StorageKey := DataRecord(d)] else items
  }

  /** What storage holds after `loadState`: data read under the current key
      is not written back; every other outcome is saved, and a migrated
      legacy record is removed after the save. */
  function AfterLoad(items: map<string, Stored>, now: Time, writeOk: bool): (r: map<string, Stored>)
    ensures StorageKey in items && items[StorageKey].DataRecord? ==> r == items
  {
    var d := LoadResult(items, now);
    if StorageKey in items && items[StorageKey].DataRecord? then items
    else if StorageKey !in items && LegacyKey in items && items[LegacyKey].WorkspaceRecord? then
      AfterSave(items, d, writeOk) - {LegacyKey}
    else AfterSave(items, d, writeOk)
  }

  /** The current-key path of `loadState`: the record, backfilled, and
      nothing written. */
  lemma LoadFromCurrent(items: map<string, Stored>, now: Time, writeOk: bool)
    requires StorageKey in items && items[StorageKey].DataRecord?
    ensures LoadResult(items, now) == NormalizeCurrent(items[StorageKey].data, now)
    ensures AfterLoad(items, now, writeOk) == items
  {
  }

  /** The legacy path of `loadState`: the migrated record, saved, and the
      legacy key removed. */
  lemma LoadFromLegacy(items: map<string, Stored>, now: Time, writeOk: bool)
    requires StorageKey !in items && LegacyKey in items && items[LegacyKey].WorkspaceRecord?
    ensures LoadResult(items, now) == MigrateLegacy(items[LegacyKey].workspace, now)
    ensures AfterLoad(items, now, writeOk) == AfterSave(items, LoadResult(items, now), writeOk) - {LegacyKey}
  {
  }

  /** Every other outcome of `loadState`: the seed data, saved. */
  lemma LoadSeeded(items: map<string, Stored>, now: Time, writeOk: bool)
    requires !(StorageKey in items && items[StorageKey].DataRecord?)
    requires !(StorageKey !in items && LegacyKey in items && items[LegacyKey].WorkspaceRecord?)
    ensures LoadResult(items, now) == ToRaw(InitialData(now))
    ensures AfterLoad(items, now, writeOk) == AfterSave(items, ToRaw(InitialData(now)), writeOk)
  {
  }

  /** Loading always yields complete data except on the current-key path,
      where missing settings stay missing. */
  lemma LoadComplete(items: map<string, Stored>, now: Time)
    ensures !(StorageKey in items && items[StorageKey].DataRecord?) ==> Complete(LoadResult(items, now))
  {
  }

  /** Saving and loading again gives back what was saved, as long as the
      saved sidebar view is one the load checks leave alone. */
  lemma SaveThenLoad(items: map<string, Stored>, d: SynthiaData, now: Time)
    requires d.currentWorkspace.uiState.sidebarView !in {"", "source-control"}
    ensures LoadResult(AfterSave(items, ToRaw(d), true), now) == ToRaw(d)
  {
    var r := ToRaw(d);
    StampTocSpec(r.currentWorkspace.toc, now);
    var toc := r.currentWorkspace.toc;
    assert StampToc(toc, now) == toc by {
      forall i | 0 <= i < |toc| ensures StampToc(toc, now)[i] == toc[i] {
        assert StampToc(toc, now)[i].chapters == toc[i].chapters;
      }
    }
  }

  /** A failed write leaves storage as it was: saving never fails outward. */
  lemma SaveFailureContained(items: map<string, Stored>, d: RawData)
    ensures AfterSave(items, d, false) == items
    ensures AfterSave(items, d, true)[StorageKey] == DataRecord(d)
  {
  }

  /** Browser storage and the two operations on it. */
  class LocalStorage {
    var items: map<string, Stored>

    constructor (initial: map<string, Stored>)
      ensures items == initial
    {
      items := initial;
    }

    /** `saveState`: a failed write (`writeOk` false) is only logged. */
    method SaveState(data: RawData, writeOk: bool)
      modifies this
      ensures items == AfterSave(old(items), data, writeOk)
    {
      if writeOk {
        items := items[StorageKey := DataRecord(data)];
      }
    }

    /** `loadState`. */
    method LoadState(now: Time, writeOk: bool) returns (r: RawData)
      modifies this
      ensures r == LoadResult(old(items), now)
      ensures items == AfterLoad(old(items), now, writeOk)
    {
      if StorageKey in items && items[StorageKey].DataRecord? {
        LoadFromCurrent(items, now, writeOk);
        r := NormalizeRecord(items[StorageKey].data, now);
      } else if StorageKey !in items && LegacyKey in items && items[LegacyKey].WorkspaceRecord? {
        LoadFromLegacy(items, now, writeOk);
        r := MigrateRecord(items[LegacyKey].workspace, now);
        SaveState(r, writeOk);
        items := items - {LegacyKey};
      } else {
        LoadSeeded(items, now, writeOk);
        r := SeedAndSave(now, writeOk);
      }
    }

    /** The seed path of `loadState`: the seeded data, saved. */
    method SeedAndSave(now: Time, writeOk: bool) returns (r: RawData)
      modifies this
      ensures r == ToRaw(InitialData(now))
      ensures items == AfterSave(old(items), r, writeOk)
    {
      r := ToRaw(InitialData(now));
      SaveState(r, writeOk);
    }
  }

  /** The backfills of a record read under the current key, in place. */
  method NormalizeRecord(d: RawData, now: Time) returns (r: RawData)
    ensures r == NormalizeCurrent(d, now)
  {
    var ui := d.currentWorkspace.uiState;
    if !Truthy(ui.sidebarView) { ui := ui.(sidebarView := Some("explorer")); }
    if ui.sidebarView == Some("source-control") { ui := ui.(sidebarView := Some("history")); }
    if ui.activeFragmentTags.None? { ui := ui.(activeFragmentTags := Some([])); }
    var toc := StampUpdatedAt(d.currentWorkspace.toc, now);
    r := d.(currentWorkspace := d.currentWorkspace.(toc := toc, uiState := ui));
  }

  /** The migration of a legacy workspace record, in place. */
  method MigrateRecord(w: RawWorkspace, now: Time) returns (r: RawData)
    ensures r == MigrateLegacy(w, now)
  {
    var ws := w;
    var ui := w.uiState;
    if !Truthy(ui.sidebarView) { ui := ui.(sidebarView := Some("explorer")); }
    if ws.settings.None? { ws := ws.(settings := Some(DefaultSettings)); }
    if ui.settingsOpen.None? { ui := ui.(settingsOpen := Some(false)); }
    if ui.activeFragmentTags.None? { ui := ui.(activeFragmentTags := Some([])); }
    var toc := StampUpdatedAt(ws.toc, now);
    r := RawData(ws.(toc := toc, uiState := ui), []);
  }
}
