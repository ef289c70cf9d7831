/** The welcome screen: the "time ago" wording of a timestamp, the five most
    recently edited documents, and the New Chapter button. */
module WelcomeScreen {
  import opened Lists
  import opened Types
  import Text
  import Documents

  // ---------------------------------------------------------------------
  // timeSince

  datatype Unit = Years | Months | Days | Hours | Minutes | Seconds

  /** "N <unit> ago", the count not yet written out in decimal. */
  datatype Ago = Ago(count: int, unit: Unit)

  const SecondsPerYear: int := 31536000
  const SecondsPerMonth: int := 2592000
  const SecondsPerDay: int := 86400
  const SecondsPerHour: int := 3600
  const SecondsPerMinute: int := 60

  /** The seconds a unit stands for. */
  function Span(u: Unit): (r: int)
    ensures r >= 1
  {
    match u
    case Years => SecondsPerYear
    case Months => SecondsPerMonth
    case Days => SecondsPerDay
    case Hours => SecondsPerHour
    case Minutes => SecondsPerMinute
    case Seconds => 1
  }

  /** The text after the count; always plural. */
  function UnitWord(u: Unit): string {
    match u
    case Years => " years ago"
    case Months => " months ago"
    case Days => " days ago"
    case Hours => " hours ago"
    case Minutes => " minutes ago"
    case Seconds => " seconds ago"
  }

  /** Whole seconds from `date` to `now` (both in milliseconds), rounded
      down, so a time in the future gives a negative count. */
  function ElapsedSeconds(now: Time, date: Time): int {
    (now - date) / 1000
  }

  /** `timeSince`: the largest unit of which strictly more than one has
      passed, with the whole number of them; otherwise seconds. */
  function TimeSince(now: Time, date: Time): (r: Ago)
    ensures var s := ElapsedSeconds(now, date);
      r.count == s / Span(r.unit) &&
      (r.unit == Seconds || s > Span(r.unit)) &&
      (forall u :: Span(u) > Span(r.unit) ==> s <= Span(u))
  {
    var s := ElapsedSeconds(now, date);
    if s > SecondsPerYear then Ago(s / SecondsPerYear, Years)
    else if s > SecondsPerMonth then Ago(s / SecondsPerMonth, Months)
    else if s > SecondsPerDay then Ago(s / SecondsPerDay, Days)
    else if s > SecondsPerHour then Ago(s / SecondsPerHour, Hours)
    else if s > SecondsPerMinute then Ago(s / SecondsPerMinute, Minutes)
    else Ago(s, Seconds)
  }

  /** The unit is chosen by strict comparisons: exactly one minute, hour,
      day, month or year is still reported in the next smaller unit, so
      sixty seconds read "60 seconds ago" and one second more "1 minutes
      ago". */
  lemma BoundariesAreStrict(now: Time)
    ensures TimeSince(now, now - 60000) == Ago(60, Seconds)
    ensures TimeSince(now, now - 61000) == Ago(1, Minutes)
    ensures TimeSince(now, now - 3600000) == Ago(60, Minutes)
    ensures TimeSince(now, now - 86400000) == Ago(24, Hours)
    ensures TimeSince(now, now - 2592000000) == Ago(30, Days)
    ensures TimeSince(now, now - 31536000000) == Ago(12, Months)
  {
  }

  /** Every unit but seconds reports at least one, and no more than fit in
      the next larger unit: at most 12 months, 30 days, 24 hours and 60
      minutes. */
  lemma {:induction false} CountInRange(now: Time, date: Time)
    ensures var r := TimeSince(now, date);
      (r.unit != Seconds ==> r.count >= 1) &&
      (r.unit == Months ==> r.count <= 12) &&
      (r.unit == Days ==> r.count <= 30) &&
      (r.unit == Hours ==> r.count <= 24) &&
      (r.unit == Minutes ==> r.count <= 60) &&
      (r.unit == Seconds ==> r.count <= 60)
  {
    var s := ElapsedSeconds(now, date);
    var r := TimeSince(now, date);
    if r.unit != Seconds {
      FloorMonotone(Span(r.unit), s, Span(r.unit));
    }
    if r.unit == Months {
      FloorMonotone(s, SecondsPerYear, SecondsPerMonth);
    } else if r.unit == Days {
      FloorMonotone(s, SecondsPerMonth, SecondsPerDay);
    } else if r.unit == Hours {
      FloorMonotone(s, SecondsPerDay, SecondsPerHour);
    } else if r.unit == Minutes {
      FloorMonotone(s, SecondsPerHour, SecondsPerMinute);
    }
  }

  /** A larger elapsed time is never reported as a smaller count of the
      same unit. */
  lemma SameUnitMonotone(now: Time, date1: Time, date2: Time)
    requires date2 <= date1
    requires TimeSince(now, date1).unit == TimeSince(now, date2).unit
    ensures TimeSince(now, date1).count <= TimeSince(now, date2).count
  {
    var u := TimeSince(now, date1).unit;
    var s1 := ElapsedSeconds(now, date1);
    var s2 := ElapsedSeconds(now, date2);
    FloorMonotone(now - date1, now - date2, 1000);
    FloorMonotone(s1, s2, Span(u));
  }

  lemma FloorMonotone(a: int, b: int, d: int)
    requires 0 < d && a <= b
    ensures a / d <= b / d
  {
    var qa, qb := a / d, b / d;
    assert a == qa * d + a % d && b == qb * d + b % d;
    if qa > qb {
      MulStep(qa, qb, d);
    }
  }

  lemma MulStep(x: int, y: int, d: int)
    requires x > y && d > 0
    ensures x * d >= y * d + d
  {
    var k := x - y - 1;
    assert x * d == y * d + d + k * d;
    assert k * d >= 0;
  }

  // ---------------------------------------------------------------------
  // recentItems

  /** A document on the recent list, tagged with its kind. */
  datatype RecentItem = RecentChapter(chapter: Chapter) | RecentFragment(fragment: Fragment)

  function Stamp(item: RecentItem): Time {
    match item
    case RecentChapter(c) => c.updatedAt
    case RecentFragment(f) => f.updatedAt
  }

  function ItemId(item: RecentItem): Id {
    match item
    case RecentChapter(c) => c.id
    case RecentFragment(f) => f.id
  }

  /** `allItems`: every chapter of every part in reading order, then every
      library fragment. */
  function AllItems(toc: Toc, fragments: seq<Fragment>): (r: seq<RecentItem>)
    ensures |r| == |AllChapters(toc)| + |fragments|
    ensures forall item :: item in r <==>
      (item.RecentChapter? && item.chapter in AllChapters(toc)) ||
      (item.RecentFragment? && item.fragment in fragments)
  {
    var cs := AllChapters(toc);
    var chapters := seq(|cs|, i requires 0 <= i < |cs| => RecentChapter(cs[i]));
    var frags := seq(|fragments|, i requires 0 <= i < |fragments| => RecentFragment(fragments[i]));
    assert forall c :: c in cs ==> RecentChapter(c) in chapters by {
      forall c | c in cs ensures RecentChapter(c) in chapters {
        var i :| 0 <= i < |cs| && cs[i] == c;
        assert chapters[i] == RecentChapter(c);
      }
    }
    assert forall f :: f in fragments ==> RecentFragment(f) in frags by {
      forall f | f in fragments ensures RecentFragment(f) in frags {
        var i :| 0 <= i < |fragments| && fragments[i] == f;
        assert frags[i] == RecentFragment(f);
      }
    }
    chapters + frags
  }

  /** Newest `updatedAt` first. */
  predicate NewestFirst(s: seq<RecentItem>) {
    forall i, j :: 0 <= i < j < |s| ==> Stamp(s[i]) >= Stamp(s[j])
  }

  /** Places an item ahead of the first one that is no newer than it. */
  function Insert(x: RecentItem, s: seq<RecentItem>): (r: seq<RecentItem>)
    ensures |r| == |s| + 1
    ensures multiset(r) == multiset(s) + multiset{x}
  {
    if |s| == 0 then [x]
    else if Stamp(x) >= Stamp(s[0]) then [x] + s
    else
      assert s == [s[0]] + s[1..];
      [s[0]] + Insert(x, s[1..])
  }

  /** Inserting keeps every item no newer than a common bound. */
  lemma InsertBounded(x: RecentItem, s: seq<RecentItem>, bound: int)
    requires Stamp(x) <= bound
    requires forall k :: 0 <= k < |s| ==> Stamp(s[k]) <= bound
    ensures forall k :: 0 <= k < |Insert(x, s)| ==> Stamp(Insert(x, s)[k]) <= bound
  {
    var r := Insert(x, s);
    forall k | 0 <= k < |r| ensures Stamp(r[k]) <= bound {
      assert r[k] in multiset(r);
      if r[k] != x {
        assert r[k] in multiset(s);
        var j :| 0 <= j < |s| && s[j] == r[k];
      }
    }
  }

  /** Inserting into a newest-first list keeps it newest first. */
  lemma {:induction false} InsertNewestFirst(x: RecentItem, s: seq<RecentItem>)
    requires NewestFirst(s)
    ensures NewestFirst(Insert(x, s))
  {
    if |s| > 0 && Stamp(x) < Stamp(s[0]) {
      var tail := s[1..];
      var rest := Insert(x, tail);
      InsertNewestFirst(x, tail);
      assert forall k :: 0 <= k < |tail| ==> tail[k] == s[k + 1];
      InsertBounded(x, tail, Stamp(s[0]));
      var r := [s[0]] + rest;
      assert r == Insert(x, s);
      forall i, j | 0 <= i < j < |r| ensures Stamp(r[i]) >= Stamp(r[j]) {
        if i > 0 {
          assert r[i] == rest[i - 1] && r[j] == rest[j - 1];
        } else {
          assert r[j] == rest[j - 1];
        }
      }
    }
  }

  /** The comparator sort `(a, b) => b.updatedAt - a.updatedAt`, as an
      insertion sort. */
  function SortNewest(s: seq<RecentItem>): (r: seq<RecentItem>)
    ensures multiset(r) == multiset(s)
  {
    if |s| == 0 then []
    else
      assert s == [s[0]] + s[1..];
      Insert(s[0], SortNewest(s[1..]))
  }

  /** The sort returns the same items, newest first. */
  lemma {:induction false} SortNewestFirst(s: seq<RecentItem>)
    ensures NewestFirst(SortNewest(s))
    ensures |SortNewest(s)| == |s|
  {
    if |s| > 0 {
      SortNewestFirst(s[1..]);
      InsertNewestFirst(s[0], SortNewest(s[1..]));
    }
  }

  const RecentLimit: nat := 5

  /** `recentItems`: the sorted list cut after five. At most five items,
      each drawn from the documents, none more often than it occurs. */
  function RecentItems(toc: Toc, fragments: seq<Fragment>): (r: seq<RecentItem>)
    ensures |r| <= RecentLimit
    ensures multiset(r) <= multiset(AllItems(toc, fragments))
  {
    var sorted := SortNewest(AllItems(toc, fragments));
    if |sorted| <= RecentLimit then sorted
    else
      assert sorted == sorted[..RecentLimit] + sorted[RecentLimit..];
      sorted[..RecentLimit]
  }

  /** In a newest-first list, nothing after a prefix is newer than anything
      in it. */
  lemma PrefixIsNewest(s: seq<RecentItem>, k: nat)
    requires NewestFirst(s) && k <= |s|
    ensures NewestFirst(s[..k])
    ensures forall x, y :: x in s[..k] && y in s && y !in s[..k] ==> Stamp(y) <= Stamp(x)
  {
    forall x, y | x in s[..k] && y in s && y !in s[..k] ensures Stamp(y) <= Stamp(x) {
      var i :| 0 <= i < k && s[..k][i] == x;
      assert forall m :: 0 <= m < k ==> s[..k][m] == s[m];
      var j :| 0 <= j < |s| && s[j] == y;
    }
  }

  /** The recent list holds five documents, or all of them when there are
      fewer, drawn from the chapters and the library, newest first; no
      document left off is newer than any document on it. */
  lemma RecentItemsSpec(toc: Toc, fragments: seq<Fragment>)
    ensures var all := AllItems(toc, fragments);
      var r := RecentItems(toc, fragments);
      |r| == (if |all| < RecentLimit then |all| else RecentLimit) &&
      (forall item :: item in r ==> item in all) &&
      NewestFirst(r) &&
      (forall x, y :: x in r && y in all && y !in r ==> Stamp(y) <= Stamp(x))
  {
    var all := AllItems(toc, fragments);
    var sorted := SortNewest(all);
    SortNewestFirst(all);
    var r := RecentItems(toc, fragments);
    assert r == sorted[..|r|];
    PrefixIsNewest(sorted, |r|);
    forall item | item in sorted ensures item in all {
      assert item in multiset(sorted);
    }
    forall y | y in all ensures y in sorted {
      assert y in multiset(all);
    }
  }

  /** What a click on a recent item opens. */
  datatype OpenAction = OpenChapter(chapterId: Id) | OpenFragment(fragmentId: Id)

  function RecentClick(item: RecentItem): (r: OpenAction)
    ensures r.OpenChapter? <==> item.RecentChapter?
    ensures r.OpenChapter? ==> r.chapterId == ItemId(item)
    ensures r.OpenFragment? ==> r.fragmentId == ItemId(item)
  {
    match item
    case RecentChapter(c) => OpenChapter(c.id)
    case RecentFragment(f) => OpenFragment(f.id)
  }

  /** A click on a recent item opens a document that exists: a chapter of
      the table of contents or a fragment of the library. */
  lemma RecentClickOpensExisting(toc: Toc, fragments: seq<Fragment>, item: RecentItem)
    requires item in RecentItems(toc, fragments)
    ensures var a := RecentClick(item);
      (a.OpenChapter? ==> FindChapter(toc, a.chapterId).Some?) &&
      (a.OpenFragment? ==> FindFragment(fragments, a.fragmentId).Some?)
  {
    RecentItemsSpec(toc, fragments);
  }

  /** The line a recent item shows: a chapter's title, or the first forty
      characters of a fragment's text (tags removed, "Untitled" when that is
      empty) followed by an ellipsis. */
  function RecentLabel(item: RecentItem): (r: string)
    ensures item.RecentChapter? ==> r == item.chapter.title
    ensures item.RecentFragment? ==> 3 < |r| <= 43 && r[|r| - 3..] == "..."
  {
    match item
    case RecentChapter(c) => c.title
    case RecentFragment(f) =>
      var t := Text.Prefix(Text.StripTags(f.content), 40);
      (if t == "" then "Untitled" else t) + "..."
  }

  // ---------------------------------------------------------------------
  // handleNewChapter

  /** The workspace action New Chapter runs. */
  datatype NewChapterAction = AddChapterTo(partId: Id) | AddPartAndChapter

  /** `handleNewChapter`: a chapter in the first part when there is one
      with a non-empty id; otherwise a new part holding a new chapter. */
  function NewChapter(toc: Toc): (r: NewChapterAction)
    ensures r.AddChapterTo? <==> |toc| > 0 && toc[0].id != ""
    ensures r.AddChapterTo? ==> r.partId == toc[0].id
  {
    if |toc| > 0 && toc[0].id != "" then AddChapterTo(toc[0].id) else AddPartAndChapter
  }

  /** The table of contents after New Chapter. */
  function AfterNewChapter(toc: Toc, c: Chapter, partUuid: string): Toc {
    match NewChapter(toc)
    case AddChapterTo(p) => Documents.AddChapterToPart(toc, p, c)
    case AddPartAndChapter => toc + [Documents.NewPart(partUuid).(chapters := [c])]
  }

  /** New Chapter always adds the chapter: at the end of the first part
      when its id is non-empty, every other part untouched; otherwise at the
      end, in a part of its own. */
  lemma NewChapterAdds(toc: Toc, c: Chapter, partUuid: string)
    ensures var r := AfterNewChapter(toc, c, partUuid);
      c in AllChapters(r) &&
      (|toc| > 0 && toc[0].id != "" ==>
        |r| == |toc| && r[0].chapters == toc[0].chapters + [c] && r[1..] == toc[1..]) &&
      (|toc| == 0 || toc[0].id == "" ==>
        r[..|toc|] == toc && |r| == |toc| + 1 && r[|toc|].chapters == [c])
  {
    var r := AfterNewChapter(toc, c, partUuid);
    if |toc| > 0 && toc[0].id != "" {
      assert PartIndex(toc, toc[0].id) == 0;
      assert r[0].chapters == toc[0].chapters + [c];
      assert c in r[0].chapters;
    } else {
      assert c in r[|toc|].chapters;
    }
  }
}
