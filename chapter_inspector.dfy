/** The chapter inspector: the library split into the fragments the chapter
    links and the ones it does not, and the link or unlink action a click on
    an item dispatches. */
module ChapterInspector {
  import opened Lists
  import opened Types
  import opened Documents

  function IsLinked(chapter: Chapter): Fragment -> bool {
    (f: Fragment) => f.id in chapter.fragmentIds
  }

  function IsUnlinked(chapter: Chapter): Fragment -> bool {
    (f: Fragment) => f.id !in chapter.fragmentIds
  }

  /** `linkedFragments`: the library fragments the chapter refers to, in
      library order; ids with no fragment behind them show nothing. */
  function LinkedFragments(fragments: seq<Fragment>, chapter: Chapter): (r: seq<Fragment>)
    ensures forall f :: f in r <==> f in fragments && f.id in chapter.fragmentIds
    ensures SubsequenceOf(r, fragments)
  {
    FilterIsSubsequence(fragments, IsLinked(chapter));
    Filter(fragments, IsLinked(chapter))
  }

  /** `unlinkedFragments`: the rest of the library, in library order. */
  function UnlinkedFragments(fragments: seq<Fragment>, chapter: Chapter): (r: seq<Fragment>)
    ensures forall f :: f in r <==> f in fragments && f.id !in chapter.fragmentIds
    ensures SubsequenceOf(r, fragments)
  {
    FilterIsSubsequence(fragments, IsUnlinked(chapter));
    Filter(fragments, IsUnlinked(chapter))
  }

  /** The two lists split the library: no fragment is in both, and together
      they hold every library entry exactly as often as the library does. */
  lemma {:induction false} Partition(fragments: seq<Fragment>, chapter: Chapter)
    ensures forall f :: !(f in LinkedFragments(fragments, chapter) && f in UnlinkedFragments(fragments, chapter))
    ensures multiset(LinkedFragments(fragments, chapter)) + multiset(UnlinkedFragments(fragments, chapter)) ==
      multiset(fragments)
  {
    if |fragments| > 0 {
      Partition(fragments[1..], chapter);
      assert fragments == [fragments[0]] + fragments[1..];
    }
  }

  /** What an item's button dispatches. */
  datatype LinkAction =
    | LinkFragment(fragmentId: Id, chapterId: Id)
    | UnlinkFragment(fragmentId: Id, chapterId: Id)

  /** The toggle of an item: unlink in the linked list, link in the other. */
  function Toggle(chapter: Chapter, f: Fragment, isLinked: bool): (r: LinkAction)
    ensures r.fragmentId == f.id && r.chapterId == chapter.id
    ensures r.UnlinkFragment? <==> isLinked
  {
    if isLinked then UnlinkFragment(f.id, chapter.id) else LinkFragment(f.id, chapter.id)
  }

  /** The workspace action an item's toggle runs. */
  function Dispatch(toc: Toc, a: LinkAction): (r: Toc)
    ensures a.LinkFragment? ==> r == EditFirstChapter(toc, a.chapterId, Link(a.fragmentId))
    ensures a.UnlinkFragment? ==> r == EditFirstChapter(toc, a.chapterId, Unlink(a.fragmentId))
  {
    match a
    case LinkFragment(f, c) => EditFirstChapter(toc, c, Link(f))
    case UnlinkFragment(f, c) => EditFirstChapter(toc, c, Unlink(f))
  }

  /** Clicking an item of the inspector of a chapter of the table of contents
      moves that fragment to the other list on the next render and leaves
      every fragment with another id where it was. */
  lemma ToggleMovesItem(toc: Toc, fragments: seq<Fragment>, chapter: Chapter, f: Fragment)
    requires FindChapter(toc, chapter.id) == Some(chapter)
    requires f in fragments
    ensures var linked := f in LinkedFragments(fragments, chapter);
      var toc' := Dispatch(toc, Toggle(chapter, f, linked));
      FindChapter(toc', chapter.id).Some? &&
      var chapter' := FindChapter(toc', chapter.id).value;
      (linked ==> f in UnlinkedFragments(fragments, chapter')) &&
      (!linked ==> f in LinkedFragments(fragments, chapter')) &&
      forall g :: g in fragments && g.id != f.id ==>
        (g in LinkedFragments(fragments, chapter') <==> g in LinkedFragments(fragments, chapter))
  {
    var linked := f in LinkedFragments(fragments, chapter);
    var e := if linked then Unlink(f.id) else Link(f.id);
    EditFirstChapterFind(toc, chapter.id, e);
  }
}
