/** The fragment library panel: the sorted list of every tag in use, the
    fragments that carry all the active filter tags, and which library item
    shows as the open document. (The drag id of an item is
    `MainLayout.FragmentDragId`.) */
module FragmentLibrary {
  import opened Lists
  import opened Types
  import TabGroups

  // ---------------------------------------------------------------------
  // String order

  /** The order `Array.prototype.sort` uses without a comparator: strings
      compared character by character, a proper prefix first. */
  predicate Below(a: string, b: string)
    decreases |a|
  {
    |b| > 0 && (|a| == 0 || a[0] < b[0] || (a[0] == b[0] && Below(a[1..], b[1..])))
  }

  lemma {:induction false} BelowIrreflexive(a: string)
    ensures !Below(a, a)
    decreases |a|
  {
    if |a| > 0 {
      BelowIrreflexive(a[1..]);
    }
  }

  lemma {:induction false} BelowTransitive(a: string, b: string, c: string)
    requires Below(a, b) && Below(b, c)
    ensures Below(a, c)
    decreases |a|
  {
    if |a| > 0 && a[0] == b[0] && b[0] == c[0] {
      BelowTransitive(a[1..], b[1..], c[1..]);
    }
  }

  lemma {:induction false} BelowTotal(a: string, b: string)
    requires a != b
    ensures Below(a, b) || Below(b, a)
    decreases |a|
  {
    if |a| > 0 && |b| > 0 && a[0] == b[0] {
      assert a == [a[0]] + a[1..] && b == [b[0]] + b[1..];
      BelowTotal(a[1..], b[1..]);
    }
  }

  /** Sorted in that order with no string twice. */
  predicate StrictlySorted(s: seq<string>) {
    forall i, j :: 0 <= i < j < |s| ==> Below(s[i], s[j])
  }

  /** Adding a string to a sorted list of distinct strings, as adding it to a
      set and sorting again would. */
  function InsertSorted(s: seq<string>, t: string): (r: seq<string>)
    requires StrictlySorted(s)
    ensures StrictlySorted(r)
    ensures forall x :: x in r <==> x in s || x == t
  {
    if |s| == 0 then [t]
    else if t == s[0] then s
    else if Below(t, s[0]) then
      assert forall j :: 0 <= j < |s| ==> Below(t, s[j]) by {
        forall j | 0 < j < |s| ensures Below(t, s[j]) {
          BelowTransitive(t, s[0], s[j]);
        }
      }
      [t] + s
    else
      BelowTotal(t, s[0]);
      var rest := InsertSorted(s[1..], t);
      assert forall x :: x in rest ==> Below(s[0], x) by {
        forall x | x in rest ensures Below(s[0], x) {
          if x != t {
            var j :| 0 <= j < |s[1..]| && s[1..][j] == x;
            assert s[j + 1] == x;
          }
        }
      }
      assert s == [s[0]] + s[1..];
      [s[0]] + rest
  }

  /** Two sorted lists of distinct strings with the same elements are the
      same list: the tag list is determined by the set of tags. */
  lemma {:induction false} SortedUnique(a: seq<string>, b: seq<string>)
    requires StrictlySorted(a) && StrictlySorted(b)
    requires forall x :: x in a <==> x in b
    ensures a == b
    decreases |a|
  {
    assert |a| > 0 ==> a[0] in a;
    assert |b| > 0 ==> b[0] in b;
    if |a| > 0 && |b| > 0 {
      if a[0] != b[0] {
        assert b[0] in b && a[0] in a;
        var k :| 0 <= k < |a| && a[k] == b[0];
        var m :| 0 <= m < |b| && b[m] == a[0];
        assert k > 0 && m > 0;
        assert Below(a[0], b[0]) && Below(b[0], a[0]);
        BelowTransitive(a[0], b[0], a[0]);
        BelowIrreflexive(a[0]);
      }
      forall x ensures x in a[1..] <==> x in b[1..] {
        if x in a[1..] {
          var i :| 0 <= i < |a[1..]| && a[1..][i] == x;
          assert Below(a[0], a[i + 1]);
          BelowIrreflexive(x);
          assert x in b && x != b[0];
          var j :| 0 <= j < |b| && b[j] == x;
          assert b[1..][j - 1] == x;
        }
        if x in b[1..] {
          var i :| 0 <= i < |b[1..]| && b[1..][i] == x;
          assert Below(b[0], b[i + 1]);
          BelowIrreflexive(x);
          assert x in a && x != a[0];
          var j :| 0 <= j < |a| && a[j] == x;
          assert a[1..][j - 1] == x;
        }
      }
      SortedUnique(a[1..], b[1..]);
      assert a == [a[0]] + a[1..] && b == [b[0]] + b[1..];
    }
  }

  // ---------------------------------------------------------------------
  // allTags

  predicate HasTag(fragments: seq<Fragment>, tag: string) {
    exists f :: f in fragments && tag in f.tags
  }

  lemma HasTagSnoc(fragments: seq<Fragment>, i: nat, tag: string)
    requires i < |fragments|
    ensures HasTag(fragments[..i + 1], tag) <==> HasTag(fragments[..i], tag) || tag in fragments[i].tags
  {
    assert fragments[..i + 1] == fragments[..i] + [fragments[i]];
  }

  /** `allTags`: every tag some fragment carries, each once, sorted. */
  method AllTags(fragments: seq<Fragment>) returns (r: seq<string>)
    ensures StrictlySorted(r)
    ensures forall t :: t in r <==> HasTag(fragments, t)
  {
    r := [];
    for i := 0 to |fragments|
      invariant StrictlySorted(r)
      invariant forall t :: t in r <==> HasTag(fragments[..i], t)
    {
      var tags := fragments[i].tags;
      for j := 0 to |tags|
        invariant StrictlySorted(r)
        invariant forall t :: t in r <==> HasTag(fragments[..i], t) || t in tags[..j]
      {
        assert tags[..j + 1] == tags[..j] + [tags[j]];
        r := InsertSorted(r, tags[j]);
      }
      assert tags[..|tags|] == tags;
      forall t ensures t in r <==> HasTag(fragments[..i + 1], t) {
        HasTagSnoc(fragments, i, t);
      }
    }
    assert fragments[..|fragments|] == fragments;
  }

  // ---------------------------------------------------------------------
  // filteredFragments

  /** The fragment carries every one of the tags. */
  predicate CarriesAll(f: Fragment, tags: seq<string>) {
    forall t :: t in tags ==> t in f.tags
  }

  function Carrying(tags: seq<string>): Fragment -> bool {
    f => CarriesAll(f, tags)
  }

  /** `filteredFragments`: with no active tag the whole library; otherwise
      the fragments carrying every active tag, in library order. */
  function FilteredFragments(fragments: seq<Fragment>, active: seq<string>): (r: seq<Fragment>)
    ensures |active| == 0 ==> r == fragments
    ensures forall f :: f in r <==> f in fragments && CarriesAll(f, active)
    ensures SubsequenceOf(r, fragments)
  {
    if |active| == 0 then
      SubsequenceOfSelf(fragments);
      fragments
    else
      FilterIsSubsequence(fragments, Carrying(active));
      Filter(fragments, Carrying(active))
  }

  /** Activating more tags never lets more fragments through: the result for
      a larger tag set is a subsequence of the result for a smaller one. */
  lemma FilterNarrows(fragments: seq<Fragment>, active: seq<string>, more: seq<string>)
    requires forall t :: t in active ==> t in more
    ensures SubsequenceOf(FilteredFragments(fragments, more), FilteredFragments(fragments, active))
  {
    assert |active| > 0 ==> active[0] in active;
    if |more| == 0 {
      SubsequenceOfSelf(fragments);
    } else if |active| == 0 {
      FilterIsSubsequence(fragments, Carrying(more));
    } else {
      FilterStronger(fragments, Carrying(more), Carrying(active));
    }
  }

  // ---------------------------------------------------------------------
  // FragmentItem

  /** A library item is highlighted when its fragment is the tab focused in
      the focused group. */
  predicate IsActive(ui: UiState, fragmentId: Id)
    ensures IsActive(ui, fragmentId) ==>
      exists g :: g in ui.tabGroups && Some(g.id) == ui.activeGroupId && g.activeTabId == Some(fragmentId)
  {
    TabGroups.FocusedTab(TabGroups.Panes(ui.tabGroups, ui.activeGroupId)) == Some(fragmentId)
  }

  /** Opening a fragment highlights its library item, and no other. */
  lemma OpenedFragmentIsActive(ui: UiState, fragmentId: Id, other: Id, uuid: string)
    requires other != fragmentId
    ensures var p := TabGroups.Open(TabGroups.Panes(ui.tabGroups, ui.activeGroupId), fragmentId, uuid);
      var ui' := ui.(tabGroups := p.groups, activeGroupId := p.activeGroupId);
      IsActive(ui', fragmentId) && !IsActive(ui', other)
  {
    var p := TabGroups.Panes(ui.tabGroups, ui.activeGroupId);
    TabGroups.OpenFocuses(p, fragmentId, uuid);
    var q := TabGroups.Open(p, fragmentId, uuid);
    assert TabGroups.Panes(q.groups, q.activeGroupId) == q;
  }
}
