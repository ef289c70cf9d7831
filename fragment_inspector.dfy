/** The fragment inspector: the metadata updates its tag field and source
    field issue, the local state cells of those fields, and the "Linked In"
    list of chapters that refer to the fragment. Every update it issues is a
    `Documents.MetadataUpdate`, a record with no `id`, `content` or
    `createdAt` field, so none of those can be touched through it. */
module FragmentInspector {
  import opened Lists
  import opened Types
  import opened Text
  import opened Documents

  // ---------------------------------------------------------------------
  // Tags

  /** `handleAddTag` on Enter: the tag list to store, or nothing when the
      trimmed input is empty or already a tag. */
  function AddTag(tags: seq<string>, input: string): (r: Option<seq<string>>)
    ensures r.None? <==> Trim(input) == "" || Trim(input) in tags
    ensures r.Some? ==> |r.value| == |tags| + 1 && r.value[..|tags|] == tags
    ensures r.Some? ==> var t := r.value[|tags|];
      t != "" && !IsSpace(t[0]) && !IsSpace(t[|t| - 1]) && Includes(input, t)
  {
    var t := Trim(input);
    if t != "" && t !in tags then
      assert (tags + [t])[..|tags|] == tags;
      Some(tags + [t])
    else None
  }

  /** Adding never creates a duplicate tag. */
  lemma AddTagDistinct(tags: seq<string>, input: string)
    requires NoDuplicates(tags)
    requires AddTag(tags, input).Some?
    ensures NoDuplicates(AddTag(tags, input).value)
    ensures forall t :: t in AddTag(tags, input).value <==> t in tags || t == Trim(input)
  {
    var r := AddTag(tags, input).value;
    assert r == tags + [Trim(input)];
    forall i, j | 0 <= i < j < |r| ensures r[i] != r[j] {
      if j == |tags| {
        assert r[i] == tags[i];
      }
    }
  }

  /** The same input entered twice adds the tag once. */
  lemma AddTagTwice(tags: seq<string>, input: string)
    requires AddTag(tags, input).Some?
    ensures AddTag(AddTag(tags, input).value, input).None?
  {
    assert AddTag(tags, input).value == tags + [Trim(input)];
    assert Trim(input) in AddTag(tags, input).value;
  }

  /** `handleRemoveTag`: every occurrence dropped, the rest kept in order. */
  function RemoveTag(tags: seq<string>, tag: string): (r: seq<string>)
    ensures tag !in r
    ensures forall t :: t != tag ==> (t in r <==> t in tags)
    ensures SubsequenceOf(r, tags)
  {
    WithoutIsSubsequence(tags, tag);
    Without(tags, tag)
  }

  lemma {:induction false} WithoutSnoc(s: seq<string>, x: string)
    requires x !in s
    ensures Without(s + [x], x) == s
  {
    if |s| == 0 {
      assert Without([x], x) == Without([x][1..], x);
    } else {
      assert (s + [x])[0] == s[0] && (s + [x])[1..] == s[1..] + [x];
      WithoutSnoc(s[1..], x);
      assert s == [s[0]] + s[1..];
    }
  }

  /** Removing a tag that was just added restores the previous list. */
  lemma RemoveUndoesAdd(tags: seq<string>, input: string)
    requires AddTag(tags, input).Some?
    ensures RemoveTag(AddTag(tags, input).value, Trim(input)) == tags
  {
    assert AddTag(tags, input).value == tags + [Trim(input)];
    WithoutSnoc(tags, Trim(input));
  }

  /** The updates the tag field issues change the tags and the update time
      of the fragment and nothing else. */
  lemma TagUpdateOnlyTags(f: Fragment, tags: seq<string>, at: Time)
    ensures ApplyFragmentEdit(f, SetMetadata(MetadataUpdate(None, None, Some(tags)), at)) ==
      f.(tags := tags, updatedAt := at)
  {
  }

  // ---------------------------------------------------------------------
  // Source

  /** `fragment.source || ''`: what the source field shows. */
  function Displayed(stored: Option<string>): (r: string)
    ensures stored.Some? ==> r == stored.value
    ensures stored.None? ==> r == ""
  {
    if stored.Some? then stored.value else ""
  }

  /** `handleSourceBlur`: the update issued for the raw input `value` when
      the fragment's stored source is `stored`. The comparison is with the
      raw input, the stored value is the trimmed one, and an absent source
      differs from every string. */
  function SourceCommit(value: string, stored: Option<string>): (r: Option<MetadataUpdate>)
    ensures r.Some? <==> stored != Some(value)
    ensures r.Some? ==> r.value.kind.None? && r.value.tags.None? && r.value.source.Some?
    ensures r.Some? ==> var s := r.value.source.value;
      Includes(value, s) && (|s| > 0 ==> !IsSpace(s[0]) && !IsSpace(s[|s| - 1]))
  {
    if stored != Some(value) then Some(MetadataUpdate(None, Some(Trim(value)), None)) else None
  }

  /** Leaving the field untouched on a fragment that has a source issues no
      update; once a committed value is shown again, blurring once more
      issues none either, unless the committed value was not already
      trimmed. */
  lemma UntouchedSourceNoUpdate(stored: string, value: string)
    ensures SourceCommit(Displayed(Some(stored)), Some(stored)).None?
    ensures var u := SourceCommit(value, Some(stored));
      u.Some? && Trim(value) == value ==> SourceCommit(Displayed(u.value.source), u.value.source).None?
  {
  }

  /** On a fragment with no source, opening and leaving the field without
      typing stores the empty string as its source. */
  lemma BlurWithoutSource()
    ensures SourceCommit(Displayed(None), None) == Some(MetadataUpdate(None, Some(""), None))
  {
    assert Trim("") == "" by {
      assert Includes("", Trim(""));
    }
  }

  /** The local state of the inspector's two text inputs. */
  class Fields {
    var editingSource: bool
    var sourceValue: string
    var newTag: string

    constructor(f: Fragment)
      ensures !editingSource && sourceValue == Displayed(f.source) && newTag == ""
    {
      editingSource := false;
      sourceValue := Displayed(f.source);
      newTag := "";
    }

    /** The effect that resets the source input when the stored source
        changes. */
    method SyncSource(stored: Option<string>)
      modifies this
      ensures sourceValue == Displayed(stored)
      ensures editingSource == old(editingSource) && newTag == old(newTag)
    {
      sourceValue := Displayed(stored);
    }

    /** A click on the shown source opens the input. */
    method BeginSourceEdit()
      modifies this
      ensures editingSource
      ensures sourceValue == old(sourceValue) && newTag == old(newTag)
    {
      editingSource := true;
    }

    method TypeSource(value: string)
      modifies this
      ensures sourceValue == value
      ensures editingSource == old(editingSource) && newTag == old(newTag)
    {
      sourceValue := value;
    }

    method TypeTag(value: string)
      modifies this
      ensures newTag == value
      ensures editingSource == old(editingSource) && sourceValue == old(sourceValue)
    {
      newTag := value;
    }

    /** `handleSourceBlur`: close the input and return the update to issue. */
    method SourceBlur(stored: Option<string>) returns (u: Option<MetadataUpdate>)
      modifies this
      ensures !editingSource
      ensures sourceValue == old(sourceValue) && newTag == old(newTag)
      ensures u == SourceCommit(old(sourceValue), stored)
    {
      editingSource := false;
      u := SourceCommit(sourceValue, stored);
    }

    /** `handleSourceKeyDown`: Enter commits as a blur does; Escape closes
        the input, shows the stored source again and issues nothing; any
        other key changes nothing. */
    method SourceKey(key: string, stored: Option<string>) returns (u: Option<MetadataUpdate>)
      modifies this
      ensures newTag == old(newTag)
      ensures key == "Enter" ==>
        u == SourceCommit(old(sourceValue), stored) && !editingSource && sourceValue == old(sourceValue)
      ensures key == "Escape" ==> u.None? && !editingSource && sourceValue == Displayed(stored)
      ensures key != "Enter" && key != "Escape" ==>
        u.None? && editingSource == old(editingSource) && sourceValue == old(sourceValue)
    {
      u := None;
      if key == "Enter" {
        u := SourceBlur(stored);
      }
      if key == "Escape" {
        editingSource := false;
        sourceValue := Displayed(stored);
      }
    }

    /** `handleAddTag`: on Enter the input is cleared whether or not a tag
        is added; other keys change nothing. */
    method TagKey(key: string, tags: seq<string>) returns (u: Option<MetadataUpdate>)
      modifies this
      ensures editingSource == old(editingSource) && sourceValue == old(sourceValue)
      ensures key == "Enter" ==> newTag == ""
      ensures key == "Enter" ==>
        u == (var a := AddTag(tags, old(newTag)); if a.Some? then Some(MetadataUpdate(None, None, a)) else None)
      ensures key != "Enter" ==> u.None? && newTag == old(newTag)
    {
      u := None;
      if key == "Enter" {
        var a := AddTag(tags, newTag);
        if a.Some? {
          u := Some(MetadataUpdate(None, None, a));
        }
        newTag := "";
      }
    }
  }

  // ---------------------------------------------------------------------
  // Backlinks

  /** A chapter that links the fragment, with the title of its part. */
  datatype Backlink = Backlink(chapter: Chapter, partTitle: string)

  function LinksTo(fragmentId: Id): Chapter -> bool {
    (c: Chapter) => fragmentId in c.fragmentIds
  }

  function WithPartTitle(chapters: seq<Chapter>, partTitle: string): (r: seq<Backlink>)
    ensures |r| == |chapters|
    ensures forall i :: 0 <= i < |r| ==> r[i] == Backlink(chapters[i], partTitle)
  {
    seq(|chapters|, i requires 0 <= i < |chapters| => Backlink(chapters[i], partTitle))
  }

  function ChaptersOf(links: seq<Backlink>): (r: seq<Chapter>)
    ensures |r| == |links|
    ensures forall i :: 0 <= i < |r| ==> r[i] == links[i].chapter
  {
    seq(|links|, i requires 0 <= i < |links| => links[i].chapter)
  }

  lemma ChaptersOfAppend(a: seq<Backlink>, b: seq<Backlink>)
    ensures ChaptersOf(a + b) == ChaptersOf(a) + ChaptersOf(b)
  {
  }

  /** The linking chapters of one part, each with the part's title. */
  function PartBacklinks(p: Part, fragmentId: Id): (r: seq<Backlink>)
    ensures forall b :: b in r <==>
      b.chapter in p.chapters && fragmentId in b.chapter.fragmentIds && b.partTitle == p.title
    ensures ChaptersOf(r) == Filter(p.chapters, LinksTo(fragmentId))
  {
    var chs := Filter(p.chapters, LinksTo(fragmentId));
    var r := WithPartTitle(chs, p.title);
    forall b ensures b in r <==> b.chapter in chs && b.partTitle == p.title {
      if b.chapter in chs && b.partTitle == p.title {
        var k :| 0 <= k < |chs| && chs[k] == b.chapter;
        assert r[k] == b;
      }
    }
    assert ChaptersOf(r) == chs;
    r
  }

  /** `backlinks`: part by part, the chapters whose links contain the
      fragment. */
  function Backlinks(toc: Toc, fragmentId: Id): (r: seq<Backlink>)
    ensures forall b :: b in r ==> fragmentId in b.chapter.fragmentIds
  {
    if |toc| == 0 then [] else PartBacklinks(toc[0], fragmentId) + Backlinks(toc[1..], fragmentId)
  }

  /** The backlinked chapters, in order, are exactly the linking chapters of
      the table of contents in reading order. */
  lemma {:induction false} BacklinksInReadingOrder(toc: Toc, fragmentId: Id)
    ensures ChaptersOf(Backlinks(toc, fragmentId)) == Filter(AllChapters(toc), LinksTo(fragmentId))
  {
    if |toc| > 0 {
      BacklinksInReadingOrder(toc[1..], fragmentId);
      FilterAppend(toc[0].chapters, AllChapters(toc[1..]), LinksTo(fragmentId));
      ChaptersOfAppend(PartBacklinks(toc[0], fragmentId), Backlinks(toc[1..], fragmentId));
    }
  }

  /** A backlink names a part holding the chapter, and every linking chapter
      of every part is listed with that part's title. */
  lemma {:induction false} BacklinkMember(toc: Toc, fragmentId: Id, b: Backlink)
    ensures b in Backlinks(toc, fragmentId) <==>
      fragmentId in b.chapter.fragmentIds &&
      exists i :: 0 <= i < |toc| && b.chapter in toc[i].chapters && b.partTitle == toc[i].title
  {
    if |toc| > 0 {
      BacklinkMember(toc[1..], fragmentId, b);
      if exists i :: 1 <= i < |toc| && b.chapter in toc[i].chapters && b.partTitle == toc[i].title {
        var i :| 1 <= i < |toc| && b.chapter in toc[i].chapters && b.partTitle == toc[i].title;
        assert toc[1..][i - 1] == toc[i];
      }
      if exists i :: 0 <= i < |toc| - 1 && b.chapter in toc[1..][i].chapters && b.partTitle == toc[1..][i].title {
        var i :| 0 <= i < |toc| - 1 && b.chapter in toc[1..][i].chapters && b.partTitle == toc[1..][i].title;
        assert toc[1..][i] == toc[i + 1];
      }
    }
  }

  /** Once `linkFragmentToChapter` has run for an existing chapter, that
      chapter is listed among the fragment's backlinks. */
  lemma LinkedChapterListed(toc: Toc, fragmentId: Id, chapterId: Id)
    requires ChapterExists(toc, chapterId)
    ensures exists b ::
      b in Backlinks(EditFirstChapter(toc, chapterId, Link(fragmentId)), fragmentId) && b.chapter.id == chapterId
  {
    LinkSpec(toc, fragmentId, chapterId);
    var r := EditFirstChapter(toc, chapterId, Link(fragmentId));
    var c := FindChapter(r, chapterId).value;
    var links := Backlinks(r, fragmentId);
    BacklinksInReadingOrder(r, fragmentId);
    assert c in Filter(AllChapters(r), LinksTo(fragmentId));
    var k :| 0 <= k < |ChaptersOf(links)| && ChaptersOf(links)[k] == c;
    assert links[k] in links && links[k].chapter.id == chapterId;
  }

  /** After `deleteFragment` has unlinked the fragment everywhere, it has no
      backlinks left. */
  lemma UnlinkedHasNoBacklinks(toc: Toc, fragmentId: Id)
    ensures Backlinks(UnlinkEverywhere(toc, fragmentId), fragmentId) == []
  {
    var r := UnlinkEverywhere(toc, fragmentId);
    UnlinkEverywhereSpec(toc, fragmentId);
    BacklinksInReadingOrder(r, fragmentId);
  }
}
