/** Drag-and-drop resolution of the main layout: what a finished drag of a
    fragment, a part or a chapter does to the workspace. The decision is a
    pure function from the dragged id, the drop target and the table of
    contents to an outcome; the cross-part branch is modelled as building a
    fresh table of contents. */
module MainLayout {
  import opened Lists
  import opened Types
  import Text

  const FragmentDragPrefix := "fragment-drag-"
  const ChapterDropPrefix := "chapter-drop-"
  const PartDragPrefix := "part-"

  /** The draggable id a fragment of the library carries. */
  function FragmentDragId(fragmentId: Id): (r: string)
    ensures Text.StartsWith(r, FragmentDragPrefix) && r[|FragmentDragPrefix|..] == fragmentId
  {
    FragmentDragPrefix + fragmentId
  }

  /** The droppable id a chapter of the structure view carries. */
  function ChapterDropId(chapterId: Id): (r: string)
    ensures Text.StartsWith(r, ChapterDropPrefix) && r[|ChapterDropPrefix|..] == chapterId
  {
    ChapterDropPrefix + chapterId
  }

  datatype DragOutcome =
    | NoChange
    | LinkFragment(fragmentId: Id, chapterId: Id)
    | NewToc(toc: Toc)
      /** `arrayMove` asked to move from or to index -1: its result comes
          from the drag-and-drop library, whose source is not modelled. */
    | LibraryDefined

  /** Reordering parts: the dragged part moves to the target part's index. */
  function ReorderParts(toc: Toc, activeId: Id, overId: Id): (r: DragOutcome)
    ensures r.NewToc? || r.LibraryDefined?
    ensures r.LibraryDefined? <==> PartIndex(toc, activeId) < 0 || PartIndex(toc, overId) < 0
    ensures r.NewToc? ==>
      |r.toc| == |toc| && multiset(r.toc) == multiset(toc) &&
      r.toc[PartIndex(toc, overId)] == toc[PartIndex(toc, activeId)]
  {
    var from, to := PartIndex(toc, activeId), PartIndex(toc, overId);
    if from < 0 || to < 0 then LibraryDefined
    else NewToc(Move(toc, from, to))
  }

  /** Moving a chapter, within its part or into another one. A chapter or a
      target that belongs to no part ends the drag without a change; a
      chapter dropped on its own part's header leaves the result to the
      drag-and-drop library. */
  function MoveChapter(toc: Toc, activeId: Id, overId: Id): (r: DragOutcome)
    ensures !r.LinkFragment?
    ensures PartHolding(toc, activeId) < 0 || PartTargeted(toc, overId) < 0 ==> r == NoChange
    ensures var from, to := PartHolding(toc, activeId), PartTargeted(toc, overId);
      0 <= from && 0 <= to && from != to ==>
        r == NewToc(MoveBetweenParts(toc, from, to, ChapterIndex(toc[from].chapters, activeId),
                                     ChapterIndex(toc[to].chapters, overId)))
    ensures var from := PartHolding(toc, activeId);
      0 <= from && PartTargeted(toc, overId) == from && ChapterIndex(toc[from].chapters, overId) >= 0 ==>
        r == NewToc(MoveInPart(toc, from, ChapterIndex(toc[from].chapters, activeId),
                               ChapterIndex(toc[from].chapters, overId)))
    ensures r.LibraryDefined? <==>
      var from := PartHolding(toc, activeId);
      0 <= from && PartTargeted(toc, overId) == from && ChapterIndex(toc[from].chapters, overId) < 0
    ensures r.LibraryDefined? ==> toc[PartHolding(toc, activeId)].id == overId
    ensures r.NewToc? ==> ChapterBag(r.toc) == ChapterBag(toc)
  {
    var from := PartHolding(toc, activeId);
    var to := PartTargeted(toc, overId);
    if from < 0 || to < 0 then NoChange
    else
      var fromChapter := ChapterIndex(toc[from].chapters, activeId);
      var toChapter := ChapterIndex(toc[to].chapters, overId);
      if from == to then
        if toChapter < 0 then LibraryDefined
        else NewToc(MoveInPart(toc, from, fromChapter, toChapter))
      else NewToc(MoveBetweenParts(toc, from, to, fromChapter, toChapter))
  }

  /** The same-part branch: `arrayMove` on that part's chapters. */
  function MoveInPart(toc: Toc, i: nat, from: nat, to: nat): (r: Toc)
    requires i < |toc| && from < |toc[i].chapters| && to < |toc[i].chapters|
    ensures |r| == |toc| && forall k :: 0 <= k < |toc| && k != i ==> r[k] == toc[k]
    ensures r[i].id == toc[i].id && r[i].title == toc[i].title
    ensures multiset(r[i].chapters) == multiset(toc[i].chapters)
    ensures |r[i].chapters| == |toc[i].chapters| && r[i].chapters[to] == toc[i].chapters[from]
    ensures ChapterBag(r) == ChapterBag(toc)
  {
    var p := toc[i].(chapters := Move(toc[i].chapters, from, to));
    ChapterBagPermute(toc, i, p);
    toc[i := p]
  }

  /** The cross-part branch: the chapter leaves its part and goes before
      the target chapter, or to the end when the target is the part itself
      (`to` is then -1). */
  function MoveBetweenParts(toc: Toc, from: nat, to: nat, fromChapter: nat, toChapter: int): (r: Toc)
    requires from < |toc| && to < |toc| && from != to
    requires fromChapter < |toc[from].chapters| && -1 <= toChapter < |toc[to].chapters|
    ensures |r| == |toc| && forall k :: 0 <= k < |toc| && k != from && k != to ==> r[k] == toc[k]
    ensures r[from].id == toc[from].id && r[to].id == toc[to].id
    ensures r[from].chapters == RemoveAt(toc[from].chapters, fromChapter)
    ensures var moved := toc[from].chapters[fromChapter];
      r[to].chapters == if toChapter >= 0 then InsertAt(toc[to].chapters, toChapter, moved)
                        else toc[to].chapters + [moved]
    ensures ChapterBag(r) == ChapterBag(toc)
  {
    var moved := toc[from].chapters[fromChapter];
    var source := toc[from].(chapters := RemoveAt(toc[from].chapters, fromChapter));
    var target := toc[to].(chapters := if toChapter != -1 then InsertAt(toc[to].chapters, toChapter, moved)
                                       else toc[to].chapters + [moved]);
    ChapterBagTransfer(toc, from, to, source, target, moved);
    toc[from := source][to := target]
  }

  /** `handleDragEnd`: `over` is the drop target, if any, and `toc` the
      current table of contents, absent while no workspace is loaded. */
  function HandleDragEnd(activeId: string, over: Option<string>, toc: Option<Toc>): (r: DragOutcome)
    ensures over.None? || toc.None? ==> r == NoChange
    ensures r.LinkFragment? <==>
      over.Some? && toc.Some? &&
      Text.StartsWith(activeId, FragmentDragPrefix) && Text.StartsWith(over.value, ChapterDropPrefix)
    ensures r.LinkFragment? ==>
      FragmentDragId(r.fragmentId) == activeId && ChapterDropId(r.chapterId) == over.value
    ensures over.Some? && activeId == over.value ==> r == NoChange
    ensures over.Some? && toc.Some? && activeId != over.value && Text.StartsWith(activeId, PartDragPrefix) ==>
      r == ReorderParts(toc.value, activeId, over.value)
    ensures (over.Some? && toc.Some? && activeId != over.value && !Text.StartsWith(activeId, PartDragPrefix) &&
             !(Text.StartsWith(activeId, FragmentDragPrefix) && Text.StartsWith(over.value, ChapterDropPrefix))) ==>
      r == MoveChapter(toc.value, activeId, over.value)
  {
    if over.None? || toc.None? then NoChange
    else
      var overId := over.value;
      if Text.StartsWith(activeId, FragmentDragPrefix) && Text.StartsWith(overId, ChapterDropPrefix) then
        assert activeId[0] == 'f' && overId[0] == 'c' && PartDragPrefix[0] == 'p';
        Text.ReplacePrefix(activeId, FragmentDragPrefix);
        Text.ReplacePrefix(overId, ChapterDropPrefix);
        assert FragmentDragPrefix + activeId[|FragmentDragPrefix|..] == activeId;
        assert ChapterDropPrefix + overId[|ChapterDropPrefix|..] == overId;
        LinkFragment(Text.ReplaceFirst(activeId, FragmentDragPrefix, ""), Text.ReplaceFirst(overId, ChapterDropPrefix, ""))
      else if activeId == overId then NoChange
      else if Text.StartsWith(activeId, PartDragPrefix) then ReorderParts(toc.value, activeId, overId)
      else MoveChapter(toc.value, activeId, overId)
  }

  /** Dropping a library fragment on a chapter links exactly that fragment
      to exactly that chapter: stripping the prefixes recovers the ids the
      two draggables were tagged with. */
  lemma DragLinkRoundTrip(fragmentId: Id, chapterId: Id, toc: Toc)
    ensures HandleDragEnd(FragmentDragId(fragmentId), Some(ChapterDropId(chapterId)), Some(toc)) ==
      LinkFragment(fragmentId, chapterId)
  {
    var r := HandleDragEnd(FragmentDragId(fragmentId), Some(ChapterDropId(chapterId)), Some(toc));
    assert r.LinkFragment?;
    assert FragmentDragPrefix + r.fragmentId == FragmentDragPrefix + fragmentId;
    assert r.fragmentId == (FragmentDragPrefix + r.fragmentId)[|FragmentDragPrefix|..];
    assert r.chapterId == (ChapterDropPrefix + r.chapterId)[|ChapterDropPrefix|..];
  }

  /** Dropping an item on itself changes nothing. */
  lemma DropOnSelf(id: string, toc: Toc)
    ensures HandleDragEnd(id, Some(id), Some(toc)) == NoChange
  {
    if Text.StartsWith(id, FragmentDragPrefix) {
      assert id[0] == 'f';
      assert !Text.StartsWith(id, ChapterDropPrefix) by {
        assert ChapterDropPrefix[0] == 'c';
      }
    }
  }

  // ---------------------------------------------------------------------
  // What a reorder preserves

  /** The chapters of all parts, counted with multiplicity. */
  function ChapterBag(toc: Toc): multiset<Chapter> {
    multiset(AllChapters(toc))
  }

  /** Replacing one part changes the chapter bag by that part's chapters. */
  lemma {:induction false} ChapterBagUpdate(toc: Toc, i: nat, p: Part)
    requires i < |toc|
    ensures ChapterBag(toc[i := p]) + multiset(toc[i].chapters) == ChapterBag(toc) + multiset(p.chapters)
  {
    var t := toc[i := p];
    var rest, rest' := AllChapters(toc[1..]), AllChapters(t[1..]);
    assert AllChapters(t) == t[0].chapters + rest';
    assert AllChapters(toc) == toc[0].chapters + rest;
    assert ChapterBag(t) == multiset(t[0].chapters) + multiset(rest');
    assert ChapterBag(toc) == multiset(toc[0].chapters) + multiset(rest);
    if i == 0 {
      assert t[1..] == toc[1..];
    } else {
      assert t[1..] == toc[1..][i - 1 := p] && t[0] == toc[0] && toc[1..][i - 1] == toc[i];
      ChapterBagUpdate(toc[1..], i - 1, p);
      calc {
        ChapterBag(t) + multiset(toc[i].chapters);
        multiset(toc[0].chapters) + (multiset(rest') + multiset(toc[i].chapters));
        multiset(toc[0].chapters) + (multiset(rest) + multiset(p.chapters));
        ChapterBag(toc) + multiset(p.chapters);
      }
    }
  }

  /** Reordering the chapters of one part keeps the chapter bag. */
  lemma ChapterBagPermute(toc: Toc, i: nat, p: Part)
    requires i < |toc| && multiset(p.chapters) == multiset(toc[i].chapters)
    ensures ChapterBag(toc[i := p]) == ChapterBag(toc)
  {
    ChapterBagUpdate(toc, i, p);
    var a, b, m := ChapterBag(toc[i := p]), ChapterBag(toc), multiset(p.chapters);
    assert a + m == b + m;
    forall c ensures a[c] == b[c] {
      assert (a + m)[c] == a[c] + m[c] && (b + m)[c] == b[c] + m[c];
    }
  }

  /** Taking one chapter out of a part and adding it to another keeps the
      chapter bag. */
  lemma ChapterBagTransfer(toc: Toc, from: nat, to: nat, source: Part, target: Part, moved: Chapter)
    requires from < |toc| && to < |toc| && from != to
    requires multiset(toc[from].chapters) == multiset(source.chapters) + multiset{moved}
    requires multiset(target.chapters) == multiset(toc[to].chapters) + multiset{moved}
    ensures ChapterBag(toc[from := source][to := target]) == ChapterBag(toc)
  {
    var t1 := toc[from := source];
    var r := t1[to := target];
    ChapterBagUpdate(toc, from, source);
    ChapterBagUpdate(t1, to, target);
    var mFrom, mTo := multiset(toc[from].chapters), multiset(toc[to].chapters);
    var mSource, mTarget := multiset(source.chapters), multiset(target.chapters);
    assert t1[to] == toc[to];
    calc {
      ChapterBag(r) + mTo + mFrom;
      ChapterBag(t1) + mTarget + mFrom;
      ChapterBag(toc) + mSource + mTarget;
      ChapterBag(toc) + mFrom + mTo;
    }
    var a, b := ChapterBag(r), ChapterBag(toc);
    forall c ensures a[c] == b[c] {
      assert (a + mTo + mFrom)[c] == a[c] + mTo[c] + mFrom[c];
      assert (b + mFrom + mTo)[c] == b[c] + mFrom[c] + mTo[c];
    }
  }

  /** The example of a same-part move: in a part holding C1 then C2,
      dragging C2 onto C1 puts C2 first. */
  lemma SwapTwoChapters(c1: Chapter, c2: Chapter, partId: Id, title: string)
    requires c1.id != c2.id && partId != c1.id && partId != c2.id
    requires !Text.StartsWith(c2.id, PartDragPrefix) && !Text.StartsWith(c2.id, FragmentDragPrefix)
    ensures HandleDragEnd(c2.id, Some(c1.id), Some([Part(partId, title, [c1, c2])])) ==
      NewToc([Part(partId, title, [c2, c1])])
  {
    SwapTwoChaptersMove(c1, c2, partId, title);
  }

  lemma SwapTwoChaptersMove(c1: Chapter, c2: Chapter, partId: Id, title: string)
    requires c1.id != c2.id && partId != c1.id && partId != c2.id
    ensures MoveChapter([Part(partId, title, [c1, c2])], c2.id, c1.id) ==
      NewToc([Part(partId, title, [c2, c1])])
  {
    var toc := [Part(partId, title, [c1, c2])];
    SwapTwoChaptersFind(c1, c2, partId, title);
    assert MoveInPart(toc, 0, 1, 0) == [Part(partId, title, [c2, c1])] by {
      SwapTwoChaptersReorder(c1, c2, partId, title);
    }
  }

  lemma SwapTwoChaptersFind(c1: Chapter, c2: Chapter, partId: Id, title: string)
    requires c1.id != c2.id && partId != c1.id && partId != c2.id
    ensures ChapterIndex([c1, c2], c2.id) == 1 && ChapterIndex([c1, c2], c1.id) == 0
    ensures PartHolding([Part(partId, title, [c1, c2])], c2.id) == 0
    ensures PartTargeted([Part(partId, title, [c1, c2])], c1.id) == 0
  {
    assert [c1, c2][1..] == [c2];
  }

  lemma SwapTwoChaptersReorder(c1: Chapter, c2: Chapter, partId: Id, title: string)
    ensures MoveInPart([Part(partId, title, [c1, c2])], 0, 1, 0) == [Part(partId, title, [c2, c1])]
  {
    var toc := [Part(partId, title, [c1, c2])];
    MoveSwapsPair(c1, c2);
    assert toc[0].(chapters := [c2, c1]) == Part(partId, title, [c2, c1]);
    assert toc[0 := Part(partId, title, [c2, c1])] == [Part(partId, title, [c2, c1])];
  }
}
