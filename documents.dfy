/** The document side of the workspace: the table of contents (parts owning
    chapters), the fragment library, the chapter-to-fragment links, the tag
    filter and the snapshot list. Each edit the workspace actions make is
    specified here as a function on values. */
module Documents {
  import opened Lists
  import opened Types
  import Text

  const PartPrefix: string := "part-"
  const ChapterPrefix: string := "ch-"
  const FragmentPrefix: string := "frag-"
  const SnapshotPrefix: string := "snap-"
  const UntitledPart: string := "Untitled Part"
  const UntitledChapter: string := "Untitled Chapter"
  const NewChapterContent: string := "<h1>Untitled Chapter</h1>"
  const NewFragmentContent: string := "<h2>New Fragment</h2><p>Start writing your idea...</p>"

  // ---------------------------------------------------------------------
  // New items

  /** `addPart`: an empty part `part-<uuid>` titled "Untitled Part". */
  function NewPart(uuid: string): (p: Part)
    ensures p.id == PartPrefix + uuid && p.title == UntitledPart && p.chapters == []
  {
    Part(PartPrefix + uuid, UntitledPart, [])
  }

  /** The chapter `addChapter` and `addPartAndChapter` create. */
  function NewChapter(uuid: string, now: Time): (c: Chapter)
    ensures c.id == ChapterPrefix + uuid && c.title == UntitledChapter && c.status == Idea
    ensures c.content == NewChapterContent && c.updatedAt == now && c.fragmentIds == []
  {
    Chapter(ChapterPrefix + uuid, UntitledChapter, Idea, NewChapterContent, now, [])
  }

  /** The fragment `addFragment` creates: an untagged idea without a source. */
  function NewFragment(uuid: string, now: Time): (f: Fragment)
    ensures f.id == FragmentPrefix + uuid && f.kind == IdeaFragment && f.source == None
    ensures f.tags == [] && f.content == NewFragmentContent
    ensures f.createdAt == now && f.updatedAt == now
  {
    Fragment(FragmentPrefix + uuid, IdeaFragment, None, [], NewFragmentContent, now, now)
  }

  // ---------------------------------------------------------------------
  // Editing one chapter

  /** The edits the actions make to a single chapter. */
  datatype ChapterEdit =
    | SetContent(content: string, at: Time)
    | SetStatus(status: ChapterStatus, at: Time)
    | SetTitle(title: string, at: Time)
    | Link(fragmentId: Id)
    | Unlink(fragmentId: Id)

  function ApplyEdit(c: Chapter, e: ChapterEdit): (r: Chapter)
    ensures r.id == c.id
    ensures e.Link? ==> (e.fragmentId in r.fragmentIds &&
      r.fragmentIds == if e.fragmentId in c.fragmentIds then c.fragmentIds else c.fragmentIds + [e.fragmentId])
    ensures e.Unlink? ==> (e.fragmentId !in r.fragmentIds &&
      forall x :: x != e.fragmentId ==> (x in r.fragmentIds <==> x in c.fragmentIds))
    ensures (e.Link? || e.Unlink?) ==> r.(fragmentIds := c.fragmentIds) == c
    ensures !(e.Link? || e.Unlink?) ==> r.fragmentIds == c.fragmentIds && r.updatedAt == e.at
  {
    match e
    case SetContent(content, at) => c.(content := content, updatedAt := at)
    case SetStatus(status, at) => c.(status := status, updatedAt := at)
    case SetTitle(title, at) => c.(title := title, updatedAt := at)
    case Link(fid) => if fid in c.fragmentIds then c else c.(fragmentIds := c.fragmentIds + [fid])
    case Unlink(fid) => c.(fragmentIds := Without(c.fragmentIds, fid))
  }

  /** Every chapter edit is idempotent: linking twice links once, and so on. */
  lemma ApplyEditIdempotent(c: Chapter, e: ChapterEdit)
    ensures ApplyEdit(ApplyEdit(c, e), e) == ApplyEdit(c, e)
  {
    if e.Unlink? {
      var once := ApplyEdit(c, e).fragmentIds;
      assert Without(once, e.fragmentId) == once;
    }
  }

  /** Edit the first chapter with id `id` in reading order (the chapter
      `toc.flatMap(p => p.chapters).find(...)` returns, and the one the
      part-by-part search with `break` stops at). */
  function EditFirstChapter(toc: Toc, id: Id, e: ChapterEdit): (r: Toc)
    ensures |r| == |toc|
  {
    if |toc| == 0 then toc
    else
      var k := ChapterIndex(toc[0].chapters, id);
      if k >= 0 then
        [toc[0].(chapters := toc[0].chapters[k := ApplyEdit(toc[0].chapters[k], e)])] + toc[1..]
      else
        [toc[0]] + EditFirstChapter(toc[1..], id, e)
  }

  /** Editing a chapter that does not exist leaves the contents untouched. */
  lemma {:induction false} EditFirstChapterMissing(toc: Toc, id: Id, e: ChapterEdit)
    requires !ChapterExists(toc, id)
    ensures EditFirstChapter(toc, id, e) == toc
  {
    if |toc| > 0 {
      assert AllChapters(toc) == toc[0].chapters + AllChapters(toc[1..]);
      EditFirstChapterMissing(toc[1..], id, e);
      assert [toc[0]] + toc[1..] == toc;
    }
  }

  lemma {:induction false} ChapterIndexAppend(a: seq<Chapter>, b: seq<Chapter>, id: Id)
    ensures ChapterIndex(a + b, id) ==
      if ChapterIndex(a, id) >= 0 then ChapterIndex(a, id)
      else if ChapterIndex(b, id) >= 0 then |a| + ChapterIndex(b, id)
      else -1
  {
    if |a| > 0 {
      assert (a + b)[0] == a[0] && (a + b)[1..] == a[1..] + b;
      ChapterIndexAppend(a[1..], b, id);
    } else {
      assert a + b == b;
    }
  }

  /** One step of the search: a part without the chapter is kept as it is. */
  lemma EditFirstChapterPass(toc: Toc, id: Id, e: ChapterEdit)
    requires |toc| > 0 && ChapterIndex(toc[0].chapters, id) < 0
    ensures EditFirstChapter(toc, id, e) == [toc[0]] + EditFirstChapter(toc[1..], id, e)
  {
  }

  lemma SplitBefore<T>(s: seq<T>, i: nat, x: seq<T>)
    requires 0 < i <= |s|
    ensures s[..i - 1] + ([s[i - 1]] + x) == s[..i] + x
  {
    assert s[..i] == s[..i - 1] + [s[i - 1]];
  }

  lemma SplitAround<T>(s: seq<T>, i: nat, x: T)
    requires i < |s|
    ensures s[..i] + ([x] + s[i + 1..]) == s[i := x]
  {
  }

  /** Parts that do not hold the chapter are passed over unchanged: the edit
      happens in the rest of the table of contents. */
  lemma {:induction false} EditFirstChapterSkip(toc: Toc, id: Id, e: ChapterEdit, i: nat)
    requires i <= |toc|
    requires forall k :: 0 <= k < i ==> ChapterIndex(toc[k].chapters, id) < 0
    ensures EditFirstChapter(toc, id, e) == toc[..i] + EditFirstChapter(toc[i..], id, e)
  {
    if i > 0 {
      EditFirstChapterSkip(toc, id, e, i - 1);
      var s := toc[i - 1..];
      assert s[0] == toc[i - 1] && s[1..] == toc[i..];
      EditFirstChapterPass(s, id, e);
      SplitBefore(toc, i, EditFirstChapter(toc[i..], id, e));
    }
  }

  /** The edit lands in the first part that holds the chapter. */
  lemma {:induction false} EditFirstChapterAt(toc: Toc, id: Id, e: ChapterEdit, i: nat)
    requires i < |toc| && ChapterIndex(toc[i].chapters, id) >= 0
    requires forall k :: 0 <= k < i ==> ChapterIndex(toc[k].chapters, id) < 0
    ensures var k := ChapterIndex(toc[i].chapters, id);
      EditFirstChapter(toc, id, e) ==
        toc[i := toc[i].(chapters := toc[i].chapters[k := ApplyEdit(toc[i].chapters[k], e)])]
  {
    var k := ChapterIndex(toc[i].chapters, id);
    var part := toc[i].(chapters := toc[i].chapters[k := ApplyEdit(toc[i].chapters[k], e)]);
    EditFirstChapterSkip(toc, id, e, i);
    var s := toc[i..];
    assert s[0] == toc[i] && s[1..] == toc[i + 1..];
    assert EditFirstChapter(s, id, e) == [part] + toc[i + 1..];
    SplitAround(toc, i, part);
  }

  /** Only the first chapter with that id changes; every other chapter, and
      the order of all of them, is kept. */
  lemma {:induction false} EditFirstChapterOnly(toc: Toc, id: Id, e: ChapterEdit)
    ensures var all := AllChapters(toc);
      var j := ChapterIndex(all, id);
      AllChapters(EditFirstChapter(toc, id, e)) ==
        if j < 0 then all else all[j := ApplyEdit(all[j], e)]
  {
    if |toc| > 0 {
      var chs := toc[0].chapters;
      var rest := AllChapters(toc[1..]);
      assert AllChapters(toc) == chs + rest;
      ChapterIndexAppend(chs, rest, id);
      if ChapterIndex(chs, id) >= 0 {
        EditHere(toc, id, e);
      } else {
        EditFirstChapterOnly(toc[1..], id, e);
        EditLater(toc, id, e);
        var j := ChapterIndex(rest, id);
        if j >= 0 {
          assert (chs + rest)[|chs| + j] == rest[j];
        }
      }
    }
  }

  lemma EditHere(toc: Toc, id: Id, e: ChapterEdit)
    requires |toc| > 0 && ChapterIndex(toc[0].chapters, id) >= 0
    ensures var k := ChapterIndex(toc[0].chapters, id);
      AllChapters(EditFirstChapter(toc, id, e)) ==
        (toc[0].chapters + AllChapters(toc[1..]))[k := ApplyEdit(toc[0].chapters[k], e)]
  {
    var k := ChapterIndex(toc[0].chapters, id);
    var chs := toc[0].chapters;
    var c := ApplyEdit(chs[k], e);
    var r := EditFirstChapter(toc, id, e);
    assert r[0].chapters == chs[k := c];
    assert r[1..] == toc[1..];
    assert chs[k := c] + AllChapters(toc[1..]) == (chs + AllChapters(toc[1..]))[k := c];
  }

  lemma EditLater(toc: Toc, id: Id, e: ChapterEdit)
    requires |toc| > 0 && ChapterIndex(toc[0].chapters, id) < 0
    requires var rest := AllChapters(toc[1..]);
      var j := ChapterIndex(rest, id);
      AllChapters(EditFirstChapter(toc[1..], id, e)) ==
        if j < 0 then rest else rest[j := ApplyEdit(rest[j], e)]
    ensures var chs, rest := toc[0].chapters, AllChapters(toc[1..]);
      var j := ChapterIndex(rest, id);
      AllChapters(EditFirstChapter(toc, id, e)) ==
        if j < 0 then chs + rest else (chs + rest)[|chs| + j := ApplyEdit(rest[j], e)]
  {
    var r := EditFirstChapter(toc, id, e);
    var chs, rest := toc[0].chapters, AllChapters(toc[1..]);
    assert r[0] == toc[0];
    assert r[1..] == EditFirstChapter(toc[1..], id, e);
    var j := ChapterIndex(rest, id);
    if j >= 0 {
      var c := ApplyEdit(rest[j], e);
      assert chs + rest[j := c] == (chs + rest)[|chs| + j := c];
    }
  }

  lemma {:induction false} FindChapterInIndex(chapters: seq<Chapter>, id: Id)
    ensures var k := ChapterIndex(chapters, id);
      FindChapterIn(chapters, id) == if k < 0 then None else Some(chapters[k])
  {
    if |chapters| > 0 && chapters[0].id != id {
      FindChapterInIndex(chapters[1..], id);
    }
  }

  /** After an edit, looking the chapter up again finds the edited chapter. */
  lemma EditFirstChapterFind(toc: Toc, id: Id, e: ChapterEdit)
    ensures var found := FindChapter(toc, id);
      FindChapter(EditFirstChapter(toc, id, e), id) ==
        if found.Some? then Some(ApplyEdit(found.value, e)) else None
  {
    var all := AllChapters(toc);
    var j := ChapterIndex(all, id);
    EditFirstChapterOnly(toc, id, e);
    FindChapterInIndex(all, id);
    var all' := AllChapters(EditFirstChapter(toc, id, e));
    FindChapterInIndex(all', id);
    if j >= 0 {
      assert all'[j].id == id;
      assert ChapterIndex(all', id) == j by {
        ChapterIndexUpdate(all, id, j, ApplyEdit(all[j], e));
      }
    }
  }

  lemma {:induction false} ChapterIndexUpdate(chs: seq<Chapter>, id: Id, j: nat, c: Chapter)
    requires j < |chs| && ChapterIndex(chs, id) == j && c.id == id
    ensures ChapterIndex(chs[j := c], id) == j
  {
    if j > 0 {
      assert chs[j := c][1..] == chs[1..][j - 1 := c];
      ChapterIndexUpdate(chs[1..], id, j - 1, c);
    }
  }

  /** Repeating an edit of a chapter changes nothing more: in particular
      `linkFragmentToChapter` is idempotent. */
  lemma {:induction false} EditFirstChapterIdempotent(toc: Toc, id: Id, e: ChapterEdit)
    ensures EditFirstChapter(EditFirstChapter(toc, id, e), id, e) == EditFirstChapter(toc, id, e)
  {
    if |toc| > 0 {
      var r := EditFirstChapter(toc, id, e);
      var k := ChapterIndex(toc[0].chapters, id);
      if k >= 0 {
        var c := ApplyEdit(toc[0].chapters[k], e);
        ChapterIndexUpdate(toc[0].chapters, id, k, c);
        ApplyEditIdempotent(toc[0].chapters[k], e);
        assert r[0].chapters == toc[0].chapters[k := c];
        assert r[0].chapters[k := ApplyEdit(c, e)] == r[0].chapters;
        assert r[1..] == toc[1..];
      } else {
        EditFirstChapterIdempotent(toc[1..], id, e);
        assert ChapterIndex(r[0].chapters, id) < 0;
        assert r[1..] == EditFirstChapter(toc[1..], id, e);
      }
    }
  }

  /** `linkFragmentToChapter`: afterwards the chapter lists the fragment once
      more only if it did not before; a missing chapter leaves the contents
      untouched. */
  lemma LinkSpec(toc: Toc, fragmentId: Id, chapterId: Id)
    ensures var r := EditFirstChapter(toc, chapterId, Link(fragmentId));
      (!ChapterExists(toc, chapterId) ==> r == toc) &&
      (ChapterExists(toc, chapterId) ==>
        FindChapter(r, chapterId).Some? &&
        var c := FindChapter(toc, chapterId).value;
        var c' := FindChapter(r, chapterId).value;
        fragmentId in c'.fragmentIds &&
        |c'.fragmentIds| == (if fragmentId in c.fragmentIds then |c.fragmentIds| else |c.fragmentIds| + 1)) &&
      EditFirstChapter(r, chapterId, Link(fragmentId)) == r
  {
    EditFirstChapterFind(toc, chapterId, Link(fragmentId));
    if !ChapterExists(toc, chapterId) {
      EditFirstChapterMissing(toc, chapterId, Link(fragmentId));
    }
    EditFirstChapterIdempotent(toc, chapterId, Link(fragmentId));
  }

  /** `unlinkFragmentFromChapter` removes every occurrence of the fragment
      from the chapter and keeps its other links. */
  lemma UnlinkSpec(toc: Toc, fragmentId: Id, chapterId: Id)
    requires ChapterExists(toc, chapterId)
    ensures FindChapter(EditFirstChapter(toc, chapterId, Unlink(fragmentId)), chapterId).Some?
    ensures var c := FindChapter(toc, chapterId).value;
      var c' := FindChapter(EditFirstChapter(toc, chapterId, Unlink(fragmentId)), chapterId).value;
      fragmentId !in c'.fragmentIds &&
      forall x :: x != fragmentId ==> (x in c'.fragmentIds <==> x in c.fragmentIds)
  {
    EditFirstChapterFind(toc, chapterId, Unlink(fragmentId));
  }

  // ---------------------------------------------------------------------
  // Cascading deletes

  /** Strip `fragmentId` from the links of every chapter of one part. */
  function UnlinkInPart(p: Part, fragmentId: Id): (r: Part)
    ensures r.id == p.id && r.title == p.title && |r.chapters| == |p.chapters|
    ensures forall j :: 0 <= j < |p.chapters| ==>
      r.chapters[j].(fragmentIds := p.chapters[j].fragmentIds) == p.chapters[j] &&
      r.chapters[j].fragmentIds == Without(p.chapters[j].fragmentIds, fragmentId)
  {
    p.(chapters := seq(|p.chapters|, j requires 0 <= j < |p.chapters| =>
      p.chapters[j].(fragmentIds := Without(p.chapters[j].fragmentIds, fragmentId))))
  }

  /** The `deleteFragment` unlinking: every chapter of every part. */
  function UnlinkEverywhere(toc: Toc, fragmentId: Id): (r: Toc)
    ensures |r| == |toc|
    ensures forall i :: 0 <= i < |toc| ==> r[i] == UnlinkInPart(toc[i], fragmentId)
  {
    seq(|toc|, i requires 0 <= i < |toc| => UnlinkInPart(toc[i], fragmentId))
  }

  /** After unlinking, no chapter anywhere refers to the fragment, and every
      other link is kept. */
  lemma UnlinkEverywhereSpec(toc: Toc, fragmentId: Id)
    ensures var r := UnlinkEverywhere(toc, fragmentId);
      (forall c :: c in AllChapters(r) ==> fragmentId !in c.fragmentIds) &&
      (forall i, j, x :: 0 <= i < |toc| && 0 <= j < |toc[i].chapters| && x != fragmentId ==>
        (x in r[i].chapters[j].fragmentIds <==> x in toc[i].chapters[j].fragmentIds))
  {
    var r := UnlinkEverywhere(toc, fragmentId);
    forall c | c in AllChapters(r) ensures fragmentId !in c.fragmentIds {
      AllChaptersMember(r, c);
      var i :| 0 <= i < |r| && c in r[i].chapters;
      var j :| 0 <= j < |r[i].chapters| && r[i].chapters[j] == c;
    }
  }

  /** The `c => c.id !== chapterId` filter of `deleteChapter`. */
  function NotChapter(chapterId: Id): Chapter -> bool {
    (c: Chapter) => c.id != chapterId
  }

  /** `part.chapters.filter(c => c.id !== chapterId)` in every part. */
  function RemoveChapterEverywhere(toc: Toc, chapterId: Id): (r: Toc)
    ensures |r| == |toc|
    ensures forall i :: 0 <= i < |toc| ==>
      r[i].id == toc[i].id && r[i].title == toc[i].title &&
      r[i].chapters == Filter(toc[i].chapters, NotChapter(chapterId))
  {
    seq(|toc|, i requires 0 <= i < |toc| =>
      toc[i].(chapters := Filter(toc[i].chapters, NotChapter(chapterId))))
  }

  /** `deleteChapter` leaves no chapter with that id, and every part keeps its
      other chapters in their order. */
  lemma RemoveChapterEverywhereSpec(toc: Toc, chapterId: Id)
    ensures var r := RemoveChapterEverywhere(toc, chapterId);
      !ChapterExists(r, chapterId) &&
      forall i :: 0 <= i < |toc| ==>
        SubsequenceOf(r[i].chapters, toc[i].chapters) &&
        forall c :: c in toc[i].chapters && c.id != chapterId ==> c in r[i].chapters
  {
    var r := RemoveChapterEverywhere(toc, chapterId);
    forall i | 0 <= i < |toc| ensures SubsequenceOf(r[i].chapters, toc[i].chapters) {
      FilterIsSubsequence(toc[i].chapters, NotChapter(chapterId));
    }
    forall c | c in AllChapters(r) ensures c.id != chapterId {
      AllChaptersMember(r, c);
    }
  }

  // ---------------------------------------------------------------------
  // Parts

  /** `toc.find(p => p.id === partId)` then push the chapter onto it. */
  function AddChapterToPart(toc: Toc, partId: Id, c: Chapter): (r: Toc)
    ensures PartIndex(toc, partId) < 0 ==> r == toc
    ensures var i := PartIndex(toc, partId);
      i >= 0 ==> (|r| == |toc| && r[i] == toc[i].(chapters := toc[i].chapters + [c]) &&
        forall k :: 0 <= k < |toc| && k != i ==> r[k] == toc[k])
  {
    var i := PartIndex(toc, partId);
    if i < 0 then toc else toc[i := toc[i].(chapters := toc[i].chapters + [c])]
  }

  /** `updateItemName`: nothing for a blank title; otherwise the part with
      that id is renamed, and only when there is none the chapter, which
      also gets a new `updatedAt`. The stored title is not trimmed. */
  function Rename(toc: Toc, itemId: Id, title: string, now: Time): (r: Toc)
    ensures Text.Trim(title) == "" ==> r == toc
    ensures |r| == |toc|
  {
    if Text.Trim(title) == "" then toc
    else
      var i := PartIndex(toc, itemId);
      if i >= 0 then toc[i := toc[i].(title := title)]
      else EditFirstChapter(toc, itemId, SetTitle(title, now))
  }

  /** Part ids take precedence: when a part has the id, no chapter changes,
      even one with the same id; otherwise the chapter gets the title. */
  lemma RenamePrecedence(toc: Toc, itemId: Id, title: string, now: Time)
    requires Text.Trim(title) != ""
    ensures var r := Rename(toc, itemId, title, now);
      ((exists p :: p in toc && p.id == itemId) ==>
        (forall i :: 0 <= i < |toc| ==> r[i].chapters == toc[i].chapters) &&
        exists i :: 0 <= i < |r| && r[i].id == itemId && r[i].title == title) &&
      ((forall p :: p in toc ==> p.id != itemId) && ChapterExists(toc, itemId) ==>
        FindChapter(r, itemId) == Some(FindChapter(toc, itemId).value.(title := title, updatedAt := now)))
  {
    EditFirstChapterFind(toc, itemId, SetTitle(title, now));
    var i := PartIndex(toc, itemId);
    if i >= 0 {
      var r := Rename(toc, itemId, title, now);
      assert r[i].id == itemId && r[i].title == title;
    }
  }

  // ---------------------------------------------------------------------
  // Fragments

  /** `fragments.findIndex(f => f.id === id)`. */
  function FragmentIndex(fragments: seq<Fragment>, id: Id): (r: int)
    ensures -1 <= r < |fragments|
    ensures r == -1 <==> forall f :: f in fragments ==> f.id != id
    ensures r >= 0 ==> fragments[r].id == id && forall k :: 0 <= k < r ==> fragments[k].id != id
  {
    if |fragments| == 0 then -1
    else if fragments[0].id == id then 0
    else
      var k := FragmentIndex(fragments[1..], id);
      if k == -1 then -1 else k + 1
  }

  /** The fields `updateFragmentMetadata` may set: never `id`, `content` or
      `createdAt`. An absent field is left as it is. */
  datatype MetadataUpdate = MetadataUpdate(
    kind: Option<FragmentType>,
    source: Option<string>,
    tags: Option<seq<string>>)

  datatype FragmentEdit =
    | SetFragmentContent(content: string, at: Time)
    | SetMetadata(update: MetadataUpdate, at: Time)

  function ApplyFragmentEdit(f: Fragment, e: FragmentEdit): (r: Fragment)
    ensures r.id == f.id && r.createdAt == f.createdAt && r.updatedAt == e.at
    ensures e.SetMetadata? ==> r.content == f.content
    ensures e.SetFragmentContent? ==> r == f.(content := e.content, updatedAt := e.at)
  {
    match e
    case SetFragmentContent(content, at) => f.(content := content, updatedAt := at)
    case SetMetadata(m, at) =>
      f.(kind := if m.kind.Some? then m.kind.value else f.kind,
         source := if m.source.Some? then m.source else f.source,
         tags := if m.tags.Some? then m.tags.value else f.tags,
         updatedAt := at)
  }

  /** Edit the first fragment with that id; nothing when there is none. */
  function EditFragment(fragments: seq<Fragment>, id: Id, e: FragmentEdit): (r: seq<Fragment>)
    ensures |r| == |fragments|
    ensures FragmentIndex(fragments, id) < 0 ==> r == fragments
    ensures var i := FragmentIndex(fragments, id);
      i >= 0 ==> (r[i] == ApplyFragmentEdit(fragments[i], e) &&
        forall k :: 0 <= k < |fragments| && k != i ==> r[k] == fragments[k])
  {
    var i := FragmentIndex(fragments, id);
    if i < 0 then fragments else fragments[i := ApplyFragmentEdit(fragments[i], e)]
  }

  /** `fragments.filter(f => f.id !== id)`. */
  function RemoveFragment(fragments: seq<Fragment>, id: Id): (r: seq<Fragment>)
    ensures forall f :: f in r <==> f in fragments && f.id != id
    ensures SubsequenceOf(r, fragments)
  {
    FilterIsSubsequence(fragments, (f: Fragment) => f.id != id);
    Filter(fragments, (f: Fragment) => f.id != id)
  }

  // ---------------------------------------------------------------------
  // Tag filter

  /** `toggleFragmentTagFilter`: drop the first occurrence of the tag, or
      push it when absent. */
  function ToggleTag(tags: seq<string>, tag: string): (r: seq<string>)
    ensures tag in tags ==> multiset(r) == multiset(tags) - multiset{tag}
    ensures tag !in tags ==> r == tags + [tag]
  {
    var i := IndexOf(tags, tag);
    if i >= 0 then RemoveAt(tags, i) else tags + [tag]
  }

  /** Toggling a tag that is on a duplicate-free filter takes it off and
      keeps every other tag. */
  lemma ToggleTagOff(tags: seq<string>, tag: string)
    requires NoDuplicates(tags) && tag in tags
    ensures var r := ToggleTag(tags, tag);
      NoDuplicates(r) && tag !in r && forall t :: t != tag ==> (t in r <==> t in tags)
  {
    var r := ToggleTag(tags, tag);
    var i := IndexOf(tags, tag);
    RemoveAtNoDuplicates(tags, i);
    forall t | t != tag ensures t in r <==> t in tags {
      RemovingOneKeepsOthers(r, tags, tag, t);
    }
  }

  /** Toggling a tag that is not on the filter appends it, and toggling it
      again restores the filter. */
  lemma ToggleTagOn(tags: seq<string>, tag: string)
    requires NoDuplicates(tags) && tag !in tags
    ensures var r := ToggleTag(tags, tag);
      NoDuplicates(r) && tag in r && (forall t :: t != tag ==> (t in r <==> t in tags)) &&
      ToggleTag(r, tag) == tags
  {
    var r := ToggleTag(tags, tag);
    assert r[|tags|] == tag && r[..|tags|] == tags;
    assert IndexOf(r, tag) == |tags|;
    assert RemoveAt(r, |tags|) == tags;
  }

  /** On a duplicate-free filter the toggle flips membership, keeps the list
      duplicate-free, and toggling an absent tag twice restores the list. */
  lemma ToggleTagSpec(tags: seq<string>, tag: string)
    requires NoDuplicates(tags)
    ensures var r := ToggleTag(tags, tag);
      NoDuplicates(r) && (tag in r <==> tag !in tags) &&
      (forall t :: t != tag ==> (t in r <==> t in tags)) &&
      (tag !in tags ==> ToggleTag(r, tag) == tags)
  {
    if tag in tags {
      ToggleTagOff(tags, tag);
    } else {
      ToggleTagOn(tags, tag);
    }
  }

  // ---------------------------------------------------------------------
  // Snapshots

  /** `createSnapshot`: a copy of the current workspace named `name`, or the
      fallback name when `name` is empty, put in front of the list. */
  function CreateSnapshot(data: SynthiaData, name: string, uuid: string, fallbackName: string, now: Time): (r: SynthiaData)
    ensures r.currentWorkspace == data.currentWorkspace
    ensures |r.snapshots| == |data.snapshots| + 1 && r.snapshots[1..] == data.snapshots
    ensures r.snapshots[0].workspaceState == data.currentWorkspace
    ensures r.snapshots[0].id == SnapshotPrefix + uuid && r.snapshots[0].createdAt == now
    ensures r.snapshots[0].name == if name == "" then fallbackName else name
  {
    var s := Snapshot(SnapshotPrefix + uuid, if name == "" then fallbackName else name, now, data.currentWorkspace);
    data.(snapshots := [s] + data.snapshots)
  }

  /** `snapshots.find(s => s.id === id)`. */
  function FindSnapshot(snapshots: seq<Snapshot>, id: Id): (r: Option<Snapshot>)
    ensures r.Some? ==> r.value in snapshots && r.value.id == id
    ensures r.None? <==> forall s :: s in snapshots ==> s.id != id
  {
    if |snapshots| == 0 then None
    else if snapshots[0].id == id then Some(snapshots[0])
    else FindSnapshot(snapshots[1..], id)
  }

  /** `restoreSnapshot`: with a known id and confirmation the current
      workspace becomes the snapshot's; the snapshot list is kept. */
  function RestoreSnapshot(data: SynthiaData, id: Id, confirmed: bool): (r: SynthiaData)
    ensures r.snapshots == data.snapshots
    ensures var s := FindSnapshot(data.snapshots, id);
      r.currentWorkspace == if s.Some? && confirmed then s.value.workspaceState else data.currentWorkspace
  {
    var s := FindSnapshot(data.snapshots, id);
    if s.Some? && confirmed then data.(currentWorkspace := s.value.workspaceState) else data
  }

  /** `deleteSnapshot`: with a known id and confirmation every snapshot with
      that id goes and the others stay in order. */
  function DeleteSnapshot(data: SynthiaData, id: Id, confirmed: bool): (r: SynthiaData)
    ensures r.currentWorkspace == data.currentWorkspace
    ensures FindSnapshot(data.snapshots, id).None? || !confirmed ==> r == data
    ensures FindSnapshot(data.snapshots, id).Some? && confirmed ==>
      (forall s :: s in r.snapshots <==> s in data.snapshots && s.id != id) &&
      SubsequenceOf(r.snapshots, data.snapshots)
  {
    if FindSnapshot(data.snapshots, id).Some? && confirmed then
      FilterIsSubsequence(data.snapshots, (s: Snapshot) => s.id != id);
      data.(snapshots := Filter(data.snapshots, (s: Snapshot) => s.id != id))
    else data
  }

  /** Restoring a snapshot just taken gives back the workspace it copied. */
  lemma CreateThenRestore(data: SynthiaData, name: string, uuid: string, fallbackName: string, now: Time, w: WorkspaceState)
    ensures var d := CreateSnapshot(data.(currentWorkspace := w), name, uuid, fallbackName, now);
      RestoreSnapshot(d.(currentWorkspace := data.currentWorkspace), SnapshotPrefix + uuid, true).currentWorkspace == w
  {
  }
}
