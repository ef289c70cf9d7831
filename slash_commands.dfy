/** The editor's "/" menu catalogue and the filter that turns the text typed
    after the slash into the list of entries the menu shows. */
module SlashCommands {
  import opened Lists
  import opened Text

  /** The block change an entry applies where the slash was typed. */
  datatype BlockEdit = SetHeading(level: nat) | ToggleBlockquote | InsertHorizontalRule

  datatype CommandItem = CommandItem(title: string, edit: BlockEdit)

  const MaxItems: nat := 10

  /** `getCommandItems`. */
  const Catalogue: seq<CommandItem> := [
    CommandItem("Heading 1", SetHeading(1)),
    CommandItem("Heading 2", SetHeading(2)),
    CommandItem("Heading 3", SetHeading(3)),
    CommandItem("Blockquote", ToggleBlockquote),
    CommandItem("Divider", InsertHorizontalRule)
  ]

  /** The menu keys its entries by title: the titles are distinct. */
  lemma CatalogueTitlesDistinct()
    ensures forall i, j :: 0 <= i < j < |Catalogue| ==> Catalogue[i].title != Catalogue[j].title
  {
    assert Catalogue[0].title[8] == '1' && Catalogue[1].title[8] == '2' && Catalogue[2].title[8] == '3';
    assert Catalogue[3].title[0] == 'B' && Catalogue[4].title[0] == 'D' && Catalogue[0].title[0] == 'H';
  }

  /** The lower-cased title starts with the lower-cased query. */
  predicate Offered(item: CommandItem, query: string)
    ensures query == "" ==> Offered(item, query)
    ensures Offered(item, query) ==> |query| <= |item.title|
  {
    StartsWith(Lower(item.title), Lower(query))
  }

  function OfferedFor(query: string): CommandItem -> bool {
    item => Offered(item, query)
  }

  /** `filter` over entries, kept in order. */
  function Select(s: seq<CommandItem>, p: CommandItem -> bool): (r: seq<CommandItem>)
    ensures |r| <= |s|
  {
    if |s| == 0 then []
    else (if p(s[0]) then [s[0]] else []) + Select(s[1..], p)
  }

  lemma {:induction false} SelectSpec(s: seq<CommandItem>, p: CommandItem -> bool)
    ensures forall item :: item in Select(s, p) <==> item in s && p(item)
    ensures SubsequenceOf(Select(s, p), s)
  {
    if |s| > 0 {
      SelectSpec(s[1..], p);
      assert s == [s[0]] + s[1..];
      if !p(s[0]) {
        assert Select(s, p) == Select(s[1..], p);
        SubsequenceWeaken(Select(s[1..], p), s[1..], s[0]);
      }
    }
  }

  /** `.slice(0, n)`. */
  function Take<T>(s: seq<T>, n: nat): (r: seq<T>)
    ensures |r| <= n && |r| <= |s|
    ensures |s| <= n ==> r == s
    ensures r == s[..|r|]
  {
    if |s| <= n then s else s[..n]
  }

  /** `suggestionOptions.items`: the catalogue entries whose title starts
      with the query, ignoring case, in catalogue order, at most ten. */
  function Items(query: string): (r: seq<CommandItem>)
    ensures |r| <= MaxItems
    ensures forall item :: item in r <==> item in Catalogue && Offered(item, query)
    ensures SubsequenceOf(r, Catalogue)
  {
    SelectSpec(Catalogue, OfferedFor(query));
    Take(Select(Catalogue, OfferedFor(query)), MaxItems)
  }

  /** The catalogue is smaller than the limit, so nothing is ever cut off,
      and the empty query offers the whole catalogue. */
  lemma ItemsUncut(query: string)
    ensures Items(query) == Select(Catalogue, OfferedFor(query))
    ensures query == "" ==> Items(query) == Catalogue
  {
    if query == "" {
      SelectAll(Catalogue, OfferedFor(query));
    }
  }

  lemma {:induction false} SelectAll(s: seq<CommandItem>, p: CommandItem -> bool)
    requires forall item :: p(item)
    ensures Select(s, p) == s
  {
    if |s| > 0 {
      SelectAll(s[1..], p);
      assert s == [s[0]] + s[1..];
    }
  }

  /** Against a one-letter query only the title's first letter counts. */
  lemma OfferedByFirstLetter(item: CommandItem, q: char)
    requires |item.title| > 0
    ensures Offered(item, [q]) <==> LowerChar(item.title[0]) == LowerChar(q)
  {
    var t := Lower(item.title);
    assert Lower([q]) == [LowerChar(q)];
    assert t[..1] == [t[0]];
  }

  /** The first letters of the catalogue titles, lower-cased. */
  lemma CatalogueInitials()
    ensures forall i :: 0 <= i < |Catalogue| ==> |Catalogue[i].title| > 0
    ensures LowerChar(Catalogue[0].title[0]) == 'h' && LowerChar(Catalogue[1].title[0]) == 'h'
    ensures LowerChar(Catalogue[2].title[0]) == 'h' && LowerChar(Catalogue[3].title[0]) == 'b'
    ensures LowerChar(Catalogue[4].title[0]) == 'd'
  {
  }

  function Kept(item: CommandItem, b: bool): seq<CommandItem> {
    if b then [item] else []
  }

  /** Selecting from a five-entry list, entry by entry. */
  lemma SelectFive(s: seq<CommandItem>, p: CommandItem -> bool)
    requires |s| == 5
    ensures Select(s, p) ==
      Kept(s[0], p(s[0])) + (Kept(s[1], p(s[1])) + (Kept(s[2], p(s[2])) + (Kept(s[3], p(s[3])) + Kept(s[4], p(s[4])))))
  {
    assert s[4..][1..] == [];
    assert Select(s[4..], p) == Kept(s[4], p(s[4])) + Select(s[4..][1..], p);
    assert s[3..][1..] == s[4..];
    assert Select(s[3..], p) == Kept(s[3], p(s[3])) + Select(s[4..], p);
    assert s[2..][1..] == s[3..];
    assert Select(s[2..], p) == Kept(s[2], p(s[2])) + Select(s[3..], p);
    assert s[1..][1..] == s[2..];
    assert Select(s[1..], p) == Kept(s[1], p(s[1])) + Select(s[2..], p);
    assert Select(s, p) == Kept(s[0], p(s[0])) + Select(s[1..], p);
  }

  /** On a one-letter query an entry is kept when its initial matches. */
  lemma OneLetterFive(s: seq<CommandItem>, q: string)
    requires |s| == 5 && |q| == 1
    requires forall i :: 0 <= i < 5 ==> |s[i].title| > 0
    ensures Select(s, OfferedFor(q)) ==
      Kept(s[0], LowerChar(s[0].title[0]) == LowerChar(q[0])) +
      (Kept(s[1], LowerChar(s[1].title[0]) == LowerChar(q[0])) +
      (Kept(s[2], LowerChar(s[2].title[0]) == LowerChar(q[0])) +
      (Kept(s[3], LowerChar(s[3].title[0]) == LowerChar(q[0])) +
      Kept(s[4], LowerChar(s[4].title[0]) == LowerChar(q[0])))))
  {
    SelectFive(s, OfferedFor(q));
    assert q == [q[0]];
    forall i | 0 <= i < 5 ensures OfferedFor(q)(s[i]) <==> LowerChar(s[i].title[0]) == LowerChar(q[0]) {
      OfferedByFirstLetter(s[i], q[0]);
    }
  }

  /** On a one-letter query, the catalogue entries offered, entry by entry. */
  lemma OneLetter(q: string)
    requires |q| == 1
    ensures Items(q) ==
      Kept(Catalogue[0], LowerChar(q[0]) == 'h') +
      (Kept(Catalogue[1], LowerChar(q[0]) == 'h') +
      (Kept(Catalogue[2], LowerChar(q[0]) == 'h') +
      (Kept(Catalogue[3], LowerChar(q[0]) == 'b') +
      Kept(Catalogue[4], LowerChar(q[0]) == 'd'))))
  {
    ItemsUncut(q);
    CatalogueInitials();
    OneLetterFive(Catalogue, q);
  }

  /** Typing "h" (or "H") offers the three headings. */
  lemma HeadingQuery(q: string)
    requires |q| == 1 && LowerChar(q[0]) == 'h'
    ensures Items(q) == [Catalogue[0], Catalogue[1], Catalogue[2]]
  {
    OneLetter(q);
    KeptFirstThree(Catalogue[0], Catalogue[1], Catalogue[2], Catalogue[3], Catalogue[4]);
  }

  lemma KeptFirstThree(a: CommandItem, b: CommandItem, c: CommandItem, d: CommandItem, e: CommandItem)
    ensures Kept(a, true) + (Kept(b, true) + (Kept(c, true) + (Kept(d, false) + Kept(e, false)))) == [a, b, c]
  {
  }

  /** Typing "d" (or "D") offers only the divider. */
  lemma DividerQuery(q: string)
    requires |q| == 1 && LowerChar(q[0]) == 'd'
    ensures Items(q) == [Catalogue[4]]
  {
    var c := Catalogue;
    OneLetter(q);
    assert [c[4]] == [] + ([] + ([] + ([] + [c[4]])));
  }
}
