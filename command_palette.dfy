/** The command palette: the query filter over the generated commands, the
    commands grouped under their categories, and the selection index the
    arrow keys move. */
module CommandPalette {
  import opened Lists
  import opened Text
  import opened Commands

  // ---------------------------------------------------------------------
  // Filter

  /** The lower-cased label or category contains the lower-cased query. */
  predicate Matches(c: Command, query: string)
    ensures query == "" ==> Matches(c, query)
    ensures Matches(c, query) ==> |query| <= |c.labelText| || |query| <= |c.category|
  {
    assert query == "" ==> OccursAt(Lower(c.labelText), Lower(query), 0);
    Includes(Lower(c.labelText), Lower(query)) || Includes(Lower(c.category), Lower(query))
  }

  function Matching(query: string): Command -> bool {
    c => Matches(c, query)
  }

  /** `filteredCommands`: every command for the empty query, otherwise the
      matching ones in their original order. */
  function Filtered(commands: seq<Command>, query: string): (r: seq<Command>)
    ensures query == "" ==> r == commands
    ensures forall c :: c in r <==> c in commands && Matches(c, query)
    ensures SubsequenceOf(r, commands)
  {
    if query == "" then
      SubsequenceOfSelf(commands);
      forall c | c in commands ensures Matches(c, query) {
        assert OccursAt(Lower(c.labelText), "", 0);
      }
      commands
    else
      FilterIsSubsequence(commands, Matching(query));
      Filter(commands, Matching(query))
  }

  /** A string that contains `a + b` contains `a`. */
  lemma IncludesShorter(s: string, a: string, b: string)
    requires Includes(s, a + b)
    ensures Includes(s, a)
  {
    var i :| 0 <= i <= |s| - |a + b| && OccursAt(s, a + b, i);
    assert s[i..i + |a + b|] == a + b;
    assert s[i..i + |a|] == s[i..i + |a + b|][..|a|];
    assert (a + b)[..|a|] == a;
    assert OccursAt(s, a, i);
  }

  lemma MatchesShorter(c: Command, query: string, more: string)
    requires Matches(c, query + more)
    ensures Matches(c, query)
  {
    LowerAppend(query, more);
    if Includes(Lower(c.labelText), Lower(query + more)) {
      IncludesShorter(Lower(c.labelText), Lower(query), Lower(more));
    } else {
      IncludesShorter(Lower(c.category), Lower(query), Lower(more));
    }
  }

  /** Typing more of a query never brings a command back: a longer query
      keeps a subsequence of what the shorter one kept. */
  lemma RefineQuery(commands: seq<Command>, query: string, more: string)
    ensures SubsequenceOf(Filtered(commands, query + more), Filtered(commands, query))
  {
    forall c | Matches(c, query + more) ensures Matches(c, query) {
      MatchesShorter(c, query, more);
    }
    if query == "" {
      assert query + more == more;
      FilterIsSubsequence(commands, Matching(more));
    } else {
      FilterStronger(commands, Matching(query + more), Matching(query));
    }
  }

  // ---------------------------------------------------------------------
  // Grouping

  function InCategory(k: string): Command -> bool {
    (c: Command) => c.category == k
  }

  /** The commands of category `k`, in order; `commands` is read from its
      end, the way the reduce grows each list. */
  function OfCategory(commands: seq<Command>, k: string): seq<Command>
    decreases |commands|
  {
    if |commands| == 0 then []
    else
      var last := commands[|commands| - 1];
      OfCategory(commands[..|commands| - 1], k) + if last.category == k then [last] else []
  }

  lemma {:induction false} OfCategoryIsFilter(commands: seq<Command>, k: string)
    ensures OfCategory(commands, k) == Filter(commands, InCategory(k))
    decreases |commands|
  {
    if |commands| > 0 {
      var n := |commands| - 1;
      var last := commands[n];
      assert OfCategory(commands, k) ==
        OfCategory(commands[..n], k) + if last.category == k then [last] else [];
      OfCategoryIsFilter(commands[..n], k);
      assert commands == commands[..n] + [last];
      FilterAppend(commands[..n], [last], InCategory(k));
      FilterOne(last, InCategory(k));
    }
  }

  /** `keys` lists the categories of `commands` once each, in the order
      they are first met, and `groups` maps each to its commands in order. */
  ghost predicate Grouped(commands: seq<Command>, keys: seq<string>, groups: map<string, seq<Command>>) {
    NoDuplicates(keys) &&
    (forall k :: k in keys <==> k in Categories(commands)) &&
    (forall k :: k in groups <==> k in keys) &&
    (forall k :: k in groups ==> groups[k] == OfCategory(commands, k))
  }

  lemma PushSnoc(commands: seq<Command>, c: Command)
    ensures Categories(commands + [c]) == Categories(commands) + [c.category]
    ensures forall k :: OfCategory(commands + [c], k) == OfCategory(commands, k) + if c.category == k then [c] else []
  {
    CategoriesAppend(commands, [c]);
    assert (commands + [c])[..|commands|] == commands;
  }

  /** One step of the reduce onto a category already met: its list grows
      by the command. */
  lemma PushOntoGroup(commands: seq<Command>, c: Command, keys: seq<string>, groups: map<string, seq<Command>>)
    requires Grouped(commands, keys, groups)
    requires c.category in groups
    ensures Grouped(commands + [c], keys, groups[c.category := groups[c.category] + [c]])
  {
    PushSnoc(commands, c);
  }

  /** One step of the reduce onto a new category: a new key and a list
      holding just the command. */
  lemma PushNewGroup(commands: seq<Command>, c: Command, keys: seq<string>, groups: map<string, seq<Command>>)
    requires Grouped(commands, keys, groups)
    requires c.category !in groups
    ensures Grouped(commands + [c], keys + [c.category], groups[c.category := [c]])
  {
    PushSnoc(commands, c);
    var k := c.category;
    assert OfCategory(commands, k) == [] by {
      OfCategoryIsFilter(commands, k);
      forall d | d in commands ensures !InCategory(k)(d) {
        var i :| 0 <= i < |commands| && commands[i] == d;
        assert Categories(commands)[i] == d.category;
      }
      FilterEmpty(commands, InCategory(k));
    }
  }

  /** `groupedCommands`: the reduce that pushes each command onto the list
      of its category. `keys` is the order in which the categories were
      first met, the order the groups are shown in. */
  method GroupCommands(commands: seq<Command>) returns (keys: seq<string>, groups: map<string, seq<Command>>)
    ensures Grouped(commands, keys, groups)
  {
    keys := [];
    groups := map[];
    for i := 0 to |commands|
      invariant Grouped(commands[..i], keys, groups)
    {
      var c := commands[i];
      assert commands[..i + 1] == commands[..i] + [c];
      if c.category in groups {
        PushOntoGroup(commands[..i], c, keys, groups);
        groups := groups[c.category := groups[c.category] + [c]];
      } else {
        PushNewGroup(commands[..i], c, keys, groups);
        keys := keys + [c.category];
        groups := groups[c.category := [c]];
      }
    }
    assert commands[..|commands|] == commands;
  }

  /** The groups one after the other, as the palette lists them. */
  function Listed(keys: seq<string>, groups: map<string, seq<Command>>): seq<Command>
    requires forall k :: k in keys ==> k in groups
  {
    if |keys| == 0 then [] else groups[keys[0]] + Listed(keys[1..], groups)
  }

  function InCategories(keys: seq<string>): Command -> bool {
    (c: Command) => c.category in keys
  }

  lemma {:induction false} FilterSplit(commands: seq<Command>, k: string, keys: seq<string>)
    requires k !in keys
    ensures multiset(Filter(commands, InCategory(k))) + multiset(Filter(commands, InCategories(keys))) ==
      multiset(Filter(commands, InCategories([k] + keys)))
  {
    FilterDisjoint(commands, InCategory(k), InCategories(keys), InCategories([k] + keys));
  }

  lemma {:induction false} ListedFilter(commands: seq<Command>, keys: seq<string>, groups: map<string, seq<Command>>)
    requires NoDuplicates(keys)
    requires forall k :: k in keys ==> k in groups && groups[k] == Filter(commands, InCategory(k))
    ensures multiset(Listed(keys, groups)) == multiset(Filter(commands, InCategories(keys)))
  {
    if |keys| == 0 {
      FilterEmpty(commands, InCategories(keys));
    } else {
      assert keys == [keys[0]] + keys[1..];
      assert keys[0] in keys;
      ListedFilter(commands, keys[1..], groups);
      FilterSplit(commands, keys[0], keys[1..]);
    }
  }

  lemma GroupsAreFilters(commands: seq<Command>, keys: seq<string>, groups: map<string, seq<Command>>)
    requires Grouped(commands, keys, groups)
    ensures forall k :: k in keys ==> k in groups && groups[k] == Filter(commands, InCategory(k))
  {
    forall k | k in keys ensures groups[k] == Filter(commands, InCategory(k)) {
      OfCategoryIsFilter(commands, k);
    }
  }

  lemma KeysCoverCommands(commands: seq<Command>, keys: seq<string>)
    requires forall k :: k in keys <==> k in Categories(commands)
    ensures forall c :: c in commands ==> InCategories(keys)(c)
  {
    forall c | c in commands ensures InCategories(keys)(c) {
      var i :| 0 <= i < |commands| && commands[i] == c;
      assert Categories(commands)[i] == c.category;
    }
  }

  /** Every command of the filtered list is shown exactly once, under its
      own category, and in each group in filtered order. */
  lemma GroupsListEveryCommandOnce(commands: seq<Command>, keys: seq<string>, groups: map<string, seq<Command>>)
    requires Grouped(commands, keys, groups)
    ensures multiset(Listed(keys, groups)) == multiset(commands)
    ensures forall k, c :: k in groups && c in groups[k] ==> c.category == k
    ensures forall k :: k in groups ==> SubsequenceOf(groups[k], commands)
  {
    GroupsAreFilters(commands, keys, groups);
    ListedFilter(commands, keys, groups);
    KeysCoverCommands(commands, keys);
    FilterAll(commands, InCategories(keys));
    forall k | k in groups ensures SubsequenceOf(groups[k], commands) {
      FilterIsSubsequence(commands, InCategory(k));
    }
  }

  // ---------------------------------------------------------------------
  // Selection

  /** ArrowDown: one further, but not past the last command. */
  function StepDown(i: int, n: nat): (r: int)
    ensures r <= i + 1 && r <= n - 1
    ensures r == i + 1 || r == n - 1
  {
    if i + 1 < n - 1 then i + 1 else n - 1
  }

  /** ArrowUp: one back, but not before the first command. */
  function StepUp(i: int): (r: int)
    ensures r >= i - 1 && r >= 0
    ensures r == i - 1 || r == 0
  {
    if i - 1 > 0 then i - 1 else 0
  }

  /** With at least one command shown, the arrow keys keep the index on a
      command, move it by at most one, and stop at the ends. */
  lemma StepsStayInRange(i: int, n: nat)
    requires 0 <= i < n
    ensures 0 <= StepDown(i, n) < n && 0 <= StepUp(i) < n
    ensures StepDown(i, n) == i + 1 || (i == n - 1 && StepDown(i, n) == i)
    ensures StepUp(i) == i - 1 || (i == 0 && StepUp(i) == 0)
  {
  }

  /** With nothing shown, ArrowDown leaves the index at -1, on no command. */
  lemma StepDownOnEmpty()
    ensures StepDown(0, 0) == -1 && StepUp(StepDown(0, 0)) == 0
  {
  }

  /** What a key or a click does to the palette. */
  datatype Outcome = Stay | Close | ExecuteAndClose(command: Command)

  /** Enter on the selected index: the command there runs and the palette
      closes, unless there is no command there or it is disabled. */
  function EnterOutcome(shown: seq<Command>, i: int): (r: Outcome)
    ensures r != Close
    ensures r.ExecuteAndClose? <==> 0 <= i < |shown| && !shown[i].disabled
    ensures r.ExecuteAndClose? ==> r.command == shown[i]
  {
    if 0 <= i < |shown| && !shown[i].disabled then ExecuteAndClose(shown[i]) else Stay
  }

  /** A click on an item runs it and closes the palette unless disabled. */
  function ClickOutcome(c: Command): (r: Outcome)
    ensures r != Close
    ensures r.ExecuteAndClose? <==> !c.disabled
    ensures r.ExecuteAndClose? ==> r.command == c
  {
    if c.disabled then Stay else ExecuteAndClose(c)
  }

  /** Only an enabled command the query lets through is ever run from the
      keyboard. */
  lemma EnterRunsShownCommand(commands: seq<Command>, query: string, i: int)
    ensures var r := EnterOutcome(Filtered(commands, query), i);
      r.ExecuteAndClose? ==> r.command in commands && Matches(r.command, query) && !r.command.disabled
  {
    var shown := Filtered(commands, query);
    if 0 <= i < |shown| {
      assert shown[i] in shown;
    }
  }

  /** The palette's own state: the query and the selected index. */
  class Palette {
    var query: string
    var selectedIndex: int

    constructor()
      ensures query == "" && selectedIndex == 0
    {
      query := "";
      selectedIndex := 0;
    }

    /** Typing in the input; the effect on `query` moves the selection back
        to the first command. */
    method SetQuery(q: string)
      modifies this
      ensures query == q && selectedIndex == 0
    {
      query := q;
      selectedIndex := 0;
    }

    /** Hovering an item selects it. */
    method Hover(i: int)
      modifies this
      ensures selectedIndex == i && query == old(query)
    {
      selectedIndex := i;
    }

    /** The window key handler, given the commands generated for the
        current workspace. */
    method KeyDown(key: string, commands: seq<Command>) returns (r: Outcome)
      modifies this
      ensures query == old(query)
      ensures var shown := Filtered(commands, query);
        (key == "ArrowDown" ==> selectedIndex == StepDown(old(selectedIndex), |shown|) && r == Stay) &&
        (key == "ArrowUp" ==> selectedIndex == StepUp(old(selectedIndex)) && r == Stay) &&
        (key == "Enter" ==> selectedIndex == old(selectedIndex) && r == EnterOutcome(shown, selectedIndex)) &&
        (key == "Escape" ==> selectedIndex == old(selectedIndex) && r == Close)
      ensures key !in {"ArrowDown", "ArrowUp", "Enter", "Escape"} ==> selectedIndex == old(selectedIndex) && r == Stay
    {
      var shown := Filtered(commands, query);
      r := Stay;
      if key == "ArrowDown" {
        selectedIndex := StepDown(selectedIndex, |shown|);
      } else if key == "ArrowUp" {
        selectedIndex := StepUp(selectedIndex);
      } else if key == "Enter" {
        r := EnterOutcome(shown, selectedIndex);
      } else if key == "Escape" {
        r := Close;
      }
    }
  }
}
