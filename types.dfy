/** The workspace document: parts own chapters, chapters refer to fragments by
    id, tab groups name open documents by id, and snapshots are deep copies of
    the whole workspace. Timestamps are milliseconds since the epoch. */
module Types {
  import opened Lists

  type Id = string
  type Time = int

  datatype ChapterStatus = Draft | Review | Done | Idea

  datatype FragmentType = NoteFragment | QuoteFragment | IdeaFragment | SourceFragment | ImageFragment

  datatype Chapter = Chapter(
    id: Id,
    title: string,
    status: ChapterStatus,
    content: string,
    updatedAt: Time,
    fragmentIds: seq<Id>)

  datatype Part = Part(id: Id, title: string, chapters: seq<Chapter>)

  type Toc = seq<Part>

  datatype Fragment = Fragment(
    id: Id,
    kind: FragmentType,
    source: Option<string>,
    tags: seq<string>,
    content: string,
    createdAt: Time,
    updatedAt: Time)

  datatype EditorSettings = EditorSettings(fontFamily: string, fontSize: int, lineHeight: real)

  datatype Settings = Settings(editor: EditorSettings)

  datatype SplitDirection = Horizontal | Vertical

  /** One editor pane. */
  datatype TabGroup = TabGroup(id: Id, tabs: seq<Id>, activeTabId: Option<Id>)

  datatype UiState = UiState(
    tabGroups: seq<TabGroup>,
    activeGroupId: Option<Id>,
    splitDirection: SplitDirection,
    bottomPanelOpen: bool,
    inspectorOpen: bool,
    commandPaletteOpen: bool,
    renamingId: Option<Id>,
    sidebarView: string,
    settingsOpen: bool,
    activeFragmentTags: seq<string>)

  datatype WorkspaceState = WorkspaceState(toc: Toc, fragments: seq<Fragment>, uiState: UiState, settings: Settings)

  datatype Snapshot = Snapshot(id: Id, name: string, createdAt: Time, workspaceState: WorkspaceState)

  datatype SynthiaData = SynthiaData(currentWorkspace: WorkspaceState, snapshots: seq<Snapshot>)

  /** JavaScript truthiness of a `string | null`: null and "" are false. */
  predicate Truthy(s: Option<string>) {
    s.Some? && s.value != ""
  }

  /** `toc.flatMap(p => p.chapters)`: every chapter, in reading order. */
  function AllChapters(toc: Toc): (r: seq<Chapter>)
    ensures forall p, c :: p in toc && c in p.chapters ==> c in r
  {
    if |toc| == 0 then [] else toc[0].chapters + AllChapters(toc[1..])
  }

  lemma {:induction false} AllChaptersAppend(a: Toc, b: Toc)
    ensures AllChapters(a + b) == AllChapters(a) + AllChapters(b)
  {
    if |a| > 0 {
      assert (a + b)[0] == a[0] && (a + b)[1..] == a[1..] + b;
      AllChaptersAppend(a[1..], b);
    } else {
      assert a + b == b;
    }
  }

  function ChapterIdsOf(chapters: seq<Chapter>): (r: seq<Id>)
    ensures |r| == |chapters|
    ensures forall i :: 0 <= i < |chapters| ==> r[i] == chapters[i].id
  {
    if |chapters| == 0 then [] else [chapters[0].id] + ChapterIdsOf(chapters[1..])
  }

  /** `toc.flatMap(p => p.chapters).find(c => c.id === id)`. */
  function FindChapter(toc: Toc, id: Id): (r: Option<Chapter>)
    ensures r.Some? ==> r.value.id == id && r.value in AllChapters(toc)
    ensures r.None? <==> forall c :: c in AllChapters(toc) ==> c.id != id
  {
    FindChapterIn(AllChapters(toc), id)
  }

  function FindChapterIn(chapters: seq<Chapter>, id: Id): (r: Option<Chapter>)
    ensures r.Some? ==> r.value.id == id && r.value in chapters
    ensures r.None? <==> forall c :: c in chapters ==> c.id != id
  {
    if |chapters| == 0 then None
    else if chapters[0].id == id then Some(chapters[0])
    else FindChapterIn(chapters[1..], id)
  }

  /** `fragments.find(f => f.id === id)`. */
  function FindFragment(fragments: seq<Fragment>, id: Id): (r: Option<Fragment>)
    ensures r.Some? ==> r.value.id == id && r.value in fragments
    ensures r.None? <==> forall f :: f in fragments ==> f.id != id
  {
    if |fragments| == 0 then None
    else if fragments[0].id == id then Some(fragments[0])
    else FindFragment(fragments[1..], id)
  }

  /** `toc.findIndex(p => p.id === id)`. */
  function PartIndex(toc: Toc, id: Id): (r: int)
    ensures -1 <= r < |toc|
    ensures r == -1 <==> forall p :: p in toc ==> p.id != id
    ensures r >= 0 ==> toc[r].id == id && forall k :: 0 <= k < r ==> toc[k].id != id
  {
    if |toc| == 0 then -1
    else if toc[0].id == id then 0
    else
      var k := PartIndex(toc[1..], id);
      if k == -1 then -1 else k + 1
  }

  /** `chapters.findIndex(c => c.id === id)`. */
  function ChapterIndex(chapters: seq<Chapter>, id: Id): (r: int)
    ensures -1 <= r < |chapters|
    ensures r == -1 <==> forall c :: c in chapters ==> c.id != id
    ensures r >= 0 ==> chapters[r].id == id && forall k :: 0 <= k < r ==> chapters[k].id != id
  {
    if |chapters| == 0 then -1
    else if chapters[0].id == id then 0
    else
      var k := ChapterIndex(chapters[1..], id);
      if k == -1 then -1 else k + 1
  }

  predicate HasChapter(p: Part, id: Id) {
    exists c :: c in p.chapters && c.id == id
  }

  /** Some chapter of some part has that id. */
  predicate ChapterExists(toc: Toc, id: Id) {
    FindChapter(toc, id).Some?
  }

  /** Every chapter in reading order belongs to one of the parts. */
  lemma {:induction false} AllChaptersMember(toc: Toc, c: Chapter)
    requires c in AllChapters(toc)
    ensures exists i :: 0 <= i < |toc| && c in toc[i].chapters
  {
    if c !in toc[0].chapters {
      AllChaptersMember(toc[1..], c);
      var i :| 0 <= i < |toc| - 1 && c in toc[1..][i].chapters;
      assert c in toc[i + 1].chapters;
    }
  }

  /** `toc.findIndex(p => p.chapters.some(c => c.id === id))`. */
  function PartHolding(toc: Toc, id: Id): (r: int)
    ensures -1 <= r < |toc|
    ensures r >= 0 ==> ChapterIndex(toc[r].chapters, id) >= 0
    ensures forall k :: 0 <= k < |toc| && (r == -1 || k < r) ==> ChapterIndex(toc[k].chapters, id) < 0
  {
    if |toc| == 0 then -1
    else if ChapterIndex(toc[0].chapters, id) >= 0 then 0
    else
      var k := PartHolding(toc[1..], id);
      if k == -1 then -1 else k + 1
  }

  /** `toc.findIndex(p => p.chapters.some(c => c.id === id) || p.id === id)`:
      the part a drop target belongs to, whether the target is one of its
      chapters or its own header. */
  function PartTargeted(toc: Toc, id: Id): (r: int)
    ensures -1 <= r < |toc|
    ensures r >= 0 ==> ChapterIndex(toc[r].chapters, id) >= 0 || toc[r].id == id
    ensures forall k :: 0 <= k < |toc| && (r == -1 || k < r) ==> ChapterIndex(toc[k].chapters, id) < 0 && toc[k].id != id
  {
    if |toc| == 0 then -1
    else if ChapterIndex(toc[0].chapters, id) >= 0 || toc[0].id == id then 0
    else
      var k := PartTargeted(toc[1..], id);
      if k == -1 then -1 else k + 1
  }

  /** Some part holds a chapter with the id exactly when the flattened
      chapter list has one. */
  lemma PartHoldingFound(toc: Toc, id: Id)
    ensures PartHolding(toc, id) >= 0 <==> FindChapter(toc, id).Some?
  {
    var r := PartHolding(toc, id);
    if r >= 0 {
      var c := toc[r].chapters[ChapterIndex(toc[r].chapters, id)];
      assert toc[r] in toc && c in toc[r].chapters;
    } else if FindChapter(toc, id).Some? {
      AllChaptersMember(toc, FindChapter(toc, id).value);
    }
  }
}
