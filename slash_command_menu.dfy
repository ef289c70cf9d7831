/** The "/" menu's highlighted entry: a selection index stepped cyclically
    by the arrow keys, reset whenever the entries change, and the entry that
    Enter or a click hands to the editor. */
module SlashCommandMenu {
  import opened Lists
  import opened SlashCommands

  /** The `selectedIndex` state: a number, or NaN once a step on an empty
      menu has divided by zero. */
  datatype Slot = Index(i: int) | NaN

  /** JavaScript's `%` on integers: the remainder truncates toward zero and
      takes the sign of the dividend; a zero divisor gives NaN. */
  function JsRem(a: int, n: int): (r: Slot)
    ensures n == 0 <==> r.NaN?
    ensures n != 0 && a >= 0 ==> r == Index(a % if n < 0 then -n else n)
    ensures r.Index? ==> (a >= 0 ==> r.i >= 0) && (a <= 0 ==> r.i <= 0)
  {
    var m := if n < 0 then -n else n;
    if n == 0 then NaN
    else if a >= 0 then Index(a % m)
    else Index(-((-a) % m))
  }

  /** ArrowUp: `(selectedIndex + items.length - 1) % items.length`. */
  function Prev(s: Slot, n: nat): (r: Slot)
    ensures s.NaN? || n == 0 ==> r.NaN?
    ensures s.Index? && 0 <= s.i < n ==> r.Index? && 0 <= r.i < n
    ensures s.Index? && 0 < s.i < n ==> r == Index(s.i - 1)
    ensures s.Index? && s.i == 0 && n > 0 ==> r == Index(n - 1)
  {
    match s
    case NaN => NaN
    case Index(i) => JsRem(i + n - 1, n)
  }

  /** ArrowDown: `(selectedIndex + 1) % items.length`. */
  function Next(s: Slot, n: nat): (r: Slot)
    ensures s.NaN? || n == 0 ==> r.NaN?
    ensures s.Index? && 0 <= s.i < n ==> r.Index? && 0 <= r.i < n
    ensures s.Index? && 0 <= s.i < n - 1 ==> r == Index(s.i + 1)
    ensures s.Index? && s.i == n - 1 && n > 0 ==> r == Index(0)
  {
    match s
    case NaN => NaN
    case Index(i) => JsRem(i + 1, n)
  }

  /** On a non-empty menu, Up undoes Down and Down undoes Up. */
  lemma StepsUndo(s: Slot, n: nat)
    requires s.Index? && 0 <= s.i < n
    ensures Prev(Next(s, n), n) == s
    ensures Next(Prev(s, n), n) == s
  {
  }

  /** Stepping an empty menu loses the index for good: every later step
      leaves it NaN, whatever the entries are by then. */
  lemma EmptyMenuStepIsNaN(s: Slot, n: nat, k: nat)
    ensures Prev(s, 0).NaN? && Next(s, 0).NaN?
    ensures Prev(NaN, k).NaN? && Next(NaN, k).NaN?
  {
  }

  /** `selectItem`: the entry at the index, if there is one. */
  function SelectItem(items: seq<CommandItem>, s: Slot): (r: Option<CommandItem>)
    ensures r.Some? <==> s.Index? && 0 <= s.i < |items|
    ensures r.Some? ==> r.value == items[s.i] && r.value in items
  {
    if s.Index? && 0 <= s.i < |items| then Some(items[s.i]) else None
  }

  /** Whether `onKeyDown` claims the key. */
  predicate Handles(key: string) {
    key == "ArrowUp" || key == "ArrowDown" || key == "Enter"
  }

  /** The menu as the editor sees it: the entries offered and the index of
      the highlighted one. */
  class Menu {
    var items: seq<CommandItem>
    var selected: Slot

    /** Between events the index names an entry, or the menu is empty and
        the index is 0 or NaN. */
    ghost predicate Valid()
      reads this
    {
      match selected
      case NaN => |items| == 0
      case Index(i) => 0 <= i < |items| || (|items| == 0 && i == 0)
    }

    /** The initial `useState(0)`. */
    constructor(items: seq<CommandItem>)
      ensures Valid()
      ensures this.items == items && selected == Index(0)
    {
      this.items := items;
      selected := Index(0);
    }

    /** New entries from the filter; the effect on `props.items` puts the
        highlight back on the first one. */
    method SetItems(items: seq<CommandItem>)
      modifies this
      ensures Valid()
      ensures this.items == items && selected == Index(0)
    {
      this.items := items;
      selected := Index(0);
    }

    /** `onKeyDown`: the arrows move the highlight cyclically and Enter hands
        the highlighted entry to the editor; those three keys are claimed,
        every other key is left to the editor. */
    method KeyDown(key: string) returns (handled: bool, chosen: Option<CommandItem>)
      requires Valid()
      modifies this
      ensures Valid()
      ensures handled <==> Handles(key)
      ensures items == old(items)
      ensures key == "ArrowUp" ==> selected == Prev(old(selected), |items|)
      ensures key == "ArrowDown" ==> selected == Next(old(selected), |items|)
      ensures key != "ArrowUp" && key != "ArrowDown" ==> selected == old(selected)
      ensures chosen == if key == "Enter" then SelectItem(items, selected) else None
    {
      chosen := None;
      if key == "ArrowUp" {
        selected := Prev(selected, |items|);
        return true, None;
      }
      if key == "ArrowDown" {
        selected := Next(selected, |items|);
        return true, None;
      }
      if key == "Enter" {
        chosen := SelectItem(items, selected);
        return true, chosen;
      }
      return false, None;
    }

    /** A click on the entry at `index` hands that entry to the editor and
        leaves the highlight where it was. */
    method Click(index: nat) returns (chosen: Option<CommandItem>)
      requires Valid()
      requires index < |items|
      ensures chosen == Some(items[index])
    {
      chosen := SelectItem(items, Index(index));
    }
  }

  /** On a non-empty menu Enter always hands over an entry the menu shows,
      the highlighted one. */
  lemma EnterChoosesShown(items: seq<CommandItem>, s: Slot)
    requires |items| > 0
    requires s.Index? && 0 <= s.i < |items|
    ensures SelectItem(items, s) == Some(items[s.i])
    ensures SelectItem(items, Next(s, |items|)).Some? && SelectItem(items, Prev(s, |items|)).Some?
  {
  }
}
