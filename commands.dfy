/** The command list the palette offers, built from the workspace: one
    navigation entry per chapter and fragment, then the interface, export,
    fragment, table-of-contents and workspace commands. A command's action is
    described by an `Effect` value (which workspace action or download it
    triggers), fixed when the list is built, as the source's closures are.
    Also the HTML-to-Markdown conversion used by the exports. */
module Commands {
  import opened Lists
  import opened Types
  import Text
  import TabGroups

  // ---------------------------------------------------------------------
  // htmlToMarkdown

  /** `s` begins with `pat`, letters compared without regard to case
      (`pat` is written in lower case). */
  predicate StartsWithCI(s: string, pat: string) {
    |pat| <= |s| && Text.Lower(s[..|pat|]) == pat
  }

  /** A pattern beginning with `<` can only match where `s` has one. */
  lemma StartsWithAngle(s: string, pat: string)
    requires |pat| > 0 && pat[0] == '<' && StartsWithCI(s, pat)
    ensures s[0] == '<'
  {
    assert Text.Lower(s[..|pat|])[0] == Text.LowerChar(s[0]);
  }

  /** `s.replace(/pat/gi, rep)` for a pattern without special characters. */
  function ReplaceAll(s: string, pat: string, rep: string): (r: string)
    requires |pat| > 0 && pat[0] == '<'
    ensures '<' !in s ==> r == s
    decreases |s|
  {
    if |s| == 0 then ""
    else if StartsWithCI(s, pat) then
      StartsWithAngle(s, pat);
      rep + ReplaceAll(s[|pat|..], pat, rep)
    else
      assert '<' !in s ==> '<' !in s[1..];
      [s[0]] + ReplaceAll(s[1..], pat, rep)
  }

  /** The characters the regular-expression `.` does not match: line feed,
      carriage return, line separator and paragraph separator. */
  predicate LineBreak(c: char) {
    c == '\n' || c == '\r' || c == '\U{2028}' || c == '\U{2029}'
  }

  /** `s` has no line break in the sense of `LineBreak`. */
  predicate OneLine(s: string) {
    forall i :: 0 <= i < |s| ==> !LineBreak(s[i])
  }

  /** Where the lazy group `(.*?)` followed by `close` ends in `t`: the first
      index at which `close` begins, if no line break comes before it; -1
      when there is no such index. */
  function LazyEnd(t: string, close: string): (r: int)
    ensures -1 <= r <= |t|
    ensures r >= 0 ==> StartsWithCI(t[r..], close) && OneLine(t[..r])
    ensures r >= 0 ==> forall k :: 0 <= k < r ==> !StartsWithCI(t[k..], close)
    ensures r < 0 ==> forall k :: 0 <= k <= |t| && OneLine(t[..k]) ==> !StartsWithCI(t[k..], close)
    decreases |t|
  {
    if StartsWithCI(t, close) then 0
    else if |t| == 0 then -1
    else if LineBreak(t[0]) then -1
    else
      var k := LazyEnd(t[1..], close);
      if k < 0 then
        LazyEndNone(t, close);
        -1
      else
        LazyEndStep(t, close, k);
        k + 1
  }

  /** No match one character in means no match in the whole text. */
  lemma LazyEndNone(t: string, close: string)
    requires |t| > 0 && !LineBreak(t[0]) && !StartsWithCI(t, close)
    requires forall k :: 0 <= k <= |t[1..]| && OneLine(t[1..][..k]) ==> !StartsWithCI(t[1..][k..], close)
    ensures forall k :: 0 <= k <= |t| && OneLine(t[..k]) ==> !StartsWithCI(t[k..], close)
  {
    forall k | 0 < k <= |t| && OneLine(t[..k]) ensures !StartsWithCI(t[k..], close) {
      assert t[k..] == t[1..][k - 1..];
      assert t[1..][..k - 1] == t[..k][1..];
      assert OneLine(t[1..][..k - 1]);
    }
  }

  /** A match found one character in carries over to the whole text. */
  lemma LazyEndStep(t: string, close: string, k: nat)
    requires |t| > 0 && !LineBreak(t[0]) && !StartsWithCI(t, close) && k <= |t| - 1
    requires StartsWithCI(t[1..][k..], close) && OneLine(t[1..][..k])
    requires forall m :: 0 <= m < k ==> !StartsWithCI(t[1..][m..], close)
    ensures StartsWithCI(t[k + 1..], close) && OneLine(t[..k + 1])
    ensures forall m :: 0 <= m < k + 1 ==> !StartsWithCI(t[m..], close)
  {
    assert t[k + 1..] == t[1..][k..];
    assert t[..k + 1] == [t[0]] + t[1..][..k];
    forall m | 0 <= m < k + 1 ensures !StartsWithCI(t[m..], close) {
      if m > 0 {
        assert t[m..] == t[1..][m - 1..];
      }
    }
  }

  /** `s.replace(/<open>(.*?)<close>/gi, before + '$1' + after)`: every
      element on one line is replaced by its inner text wrapped in `before`
      and `after`. */
  function ReplacePairs(s: string, open: string, close: string, before: string, after: string): (r: string)
    requires |open| > 0 && open[0] == '<'
    ensures '<' !in s ==> r == s
    decreases |s|
  {
    if |s| == 0 then ""
    else if StartsWithCI(s, open) && LazyEnd(s[|open|..], close) >= 0 then
      StartsWithAngle(s, open);
      var t := s[|open|..];
      var j := LazyEnd(t, close);
      before + t[..j] + after + ReplacePairs(t[j + |close|..], open, close, before, after)
    else
      assert '<' !in s ==> '<' !in s[1..];
      [s[0]] + ReplacePairs(s[1..], open, close, before, after)
  }

  /** The lazy group stops at the first `close` when the text before it has
      no tag and no line break. */
  lemma {:induction false} LazyEndPlain(x: string, y: string, close: string)
    requires |close| > 0 && close[0] == '<' && StartsWithCI(y, close)
    requires '<' !in x && OneLine(x)
    ensures LazyEnd(x + y, close) == |x|
  {
    if |x| == 0 {
      assert x + y == y;
    } else {
      if StartsWithCI(x + y, close) {
        StartsWithAngle(x + y, close);
        assert false;
      }
      assert (x + y)[1..] == x[1..] + y;
      LazyEndPlain(x[1..], y, close);
    }
  }

  /** One element whose inner text has no tag and no line break is rewritten,
      and the rest of the text is processed after it. */
  lemma ReplacePairsStep(x: string, rest: string, open: string, close: string, before: string, after: string)
    requires |open| > 0 && open[0] == '<' && |close| > 0 && close[0] == '<'
    requires Text.Lower(open) == open
    requires StartsWithCI(close + rest, close)
    requires '<' !in x && OneLine(x)
    ensures ReplacePairs(open + x + close + rest, open, close, before, after) ==
      before + x + after + ReplacePairs(rest, open, close, before, after)
  {
    var s := open + x + close + rest;
    assert s[..|open|] == open;
    var t := s[|open|..];
    assert t == x + (close + rest);
    LazyEndPlain(x, close + rest, close);
    assert t[..|x|] == x;
    assert t[|x| + |close|..] == rest;
    assert StartsWithCI(s, open);
    assert ReplacePairs(s, open, close, before, after) ==
      before + t[..|x|] + after + ReplacePairs(t[|x| + |close|..], open, close, before, after);
  }

  /** A tag: `<` followed by text without another `<`. */
  predicate Tag(t: string) {
    |t| > 0 && t[0] == '<' && '<' !in t[1..]
  }

  /** `t` and `pat` differ, letters compared without regard to case, at
      index `i`, which both reach. */
  predicate DiffersAt(t: string, pat: string, i: nat) {
    i < |t| && i < |pat| && Text.LowerChar(t[i]) != pat[i]
  }

  /** `pat` cannot begin at the start of `s` when a character of `s` before
      the end of `pat` differs from it. */
  lemma Mismatch(s: string, pat: string, i: nat)
    requires DiffersAt(s, pat, i)
    ensures !StartsWithCI(s, pat)
  {
    if |pat| <= |s| {
      assert Text.Lower(s[..|pat|])[i] == Text.LowerChar(s[i]);
    }
  }

  /** Text without a tag is copied through by `ReplaceAll`. */
  lemma {:induction false} ReplaceAllPlain(x: string, rest: string, pat: string, rep: string)
    requires |pat| > 0 && pat[0] == '<' && '<' !in x
    ensures ReplaceAll(x + rest, pat, rep) == x + ReplaceAll(rest, pat, rep)
  {
    if |x| > 0 {
      var s := x + rest;
      assert s[0] == x[0];
      Mismatch(s, pat, 0);
      calc {
        ReplaceAll(s, pat, rep);
        [x[0]] + ReplaceAll(s[1..], pat, rep);
        { assert s[1..] == x[1..] + rest; }
        [x[0]] + ReplaceAll(x[1..] + rest, pat, rep);
        { ReplaceAllPlain(x[1..], rest, pat, rep); }
        [x[0]] + (x[1..] + ReplaceAll(rest, pat, rep));
        { AppendAssoc([x[0]], x[1..], ReplaceAll(rest, pat, rep)); assert [x[0]] + x[1..] == x; }
        x + ReplaceAll(rest, pat, rep);
      }
    } else {
      assert x + rest == rest;
    }
  }

  /** A tag that differs from `pat` is copied through by `ReplaceAll`. */
  lemma ReplaceAllTag(t: string, rest: string, pat: string, rep: string, i: nat)
    requires |pat| > 0 && pat[0] == '<' && Tag(t) && DiffersAt(t, pat, i)
    ensures ReplaceAll(t + rest, pat, rep) == t + ReplaceAll(rest, pat, rep)
  {
    var s := t + rest;
    Mismatch(s, pat, i);
    assert s[1..] == t[1..] + rest;
    ReplaceAllPlain(t[1..], rest, pat, rep);
    calc {
      ReplaceAll(s, pat, rep);
      [t[0]] + ReplaceAll(t[1..] + rest, pat, rep);
      [t[0]] + (t[1..] + ReplaceAll(rest, pat, rep));
      ([t[0]] + t[1..]) + ReplaceAll(rest, pat, rep);
      { assert [t[0]] + t[1..] == t; }
      t + ReplaceAll(rest, pat, rep);
    }
  }

  /** An occurrence of `pat` at the start is replaced, and the rest of the
      text is processed after it. */
  lemma ReplaceAllHead(rest: string, pat: string, rep: string)
    requires |pat| > 0 && pat[0] == '<' && Text.Lower(pat) == pat
    ensures ReplaceAll(pat + rest, pat, rep) == rep + ReplaceAll(rest, pat, rep)
  {
    var s := pat + rest;
    assert s[..|pat|] == pat && s[|pat|..] == rest;
  }

  /** An occurrence of `pat` after text without a tag is replaced, and the
      rest of the text is processed after it. */
  lemma ReplaceAllStep(x: string, rest: string, pat: string, rep: string)
    requires |pat| > 0 && pat[0] == '<' && Text.Lower(pat) == pat && '<' !in x
    ensures ReplaceAll(x + pat + rest, pat, rep) == x + rep + ReplaceAll(rest, pat, rep)
  {
    calc {
      ReplaceAll(x + pat + rest, pat, rep);
      { AppendAssoc(x, pat, rest); }
      ReplaceAll(x + (pat + rest), pat, rep);
      { ReplaceAllPlain(x, pat + rest, pat, rep); }
      x + ReplaceAll(pat + rest, pat, rep);
      { ReplaceAllHead(rest, pat, rep); }
      x + (rep + ReplaceAll(rest, pat, rep));
      { AppendAssoc(x, rep, ReplaceAll(rest, pat, rep)); }
      x + rep + ReplaceAll(rest, pat, rep);
    }
  }

  /** Text without a tag is copied through by `ReplacePairs`. */
  lemma {:induction false} ReplacePairsPlain(x: string, rest: string, open: string, close: string, before: string, after: string)
    requires |open| > 0 && open[0] == '<' && '<' !in x
    ensures ReplacePairs(x + rest, open, close, before, after) == x + ReplacePairs(rest, open, close, before, after)
  {
    if |x| > 0 {
      var s := x + rest;
      assert s[0] == x[0];
      Mismatch(s, open, 0);
      calc {
        ReplacePairs(s, open, close, before, after);
        [x[0]] + ReplacePairs(s[1..], open, close, before, after);
        { assert s[1..] == x[1..] + rest; }
        [x[0]] + ReplacePairs(x[1..] + rest, open, close, before, after);
        { ReplacePairsPlain(x[1..], rest, open, close, before, after); }
        [x[0]] + (x[1..] + ReplacePairs(rest, open, close, before, after));
        { AppendAssoc([x[0]], x[1..], ReplacePairs(rest, open, close, before, after)); assert [x[0]] + x[1..] == x; }
        x + ReplacePairs(rest, open, close, before, after);
      }
    } else {
      assert x + rest == rest;
    }
  }

  /** A tag that differs from `open` is copied through by `ReplacePairs`. */
  lemma ReplacePairsTag(t: string, rest: string, open: string, close: string, before: string, after: string, i: nat)
    requires |open| > 0 && open[0] == '<' && Tag(t) && DiffersAt(t, open, i)
    ensures ReplacePairs(t + rest, open, close, before, after) == t + ReplacePairs(rest, open, close, before, after)
  {
    var s := t + rest;
    Mismatch(s, open, i);
    assert s[1..] == t[1..] + rest;
    ReplacePairsPlain(t[1..], rest, open, close, before, after);
    calc {
      ReplacePairs(s, open, close, before, after);
      [t[0]] + ReplacePairs(t[1..] + rest, open, close, before, after);
      [t[0]] + (t[1..] + ReplacePairs(rest, open, close, before, after));
      ([t[0]] + t[1..]) + ReplacePairs(rest, open, close, before, after);
      { assert [t[0]] + t[1..] == t; }
      t + ReplacePairs(rest, open, close, before, after);
    }
  }

  /** The lazy group finds no `close` past a line break. */
  lemma {:induction false} LazyEndAcrossBreak(x: string, c: char, rest: string, close: string)
    requires '<' !in x && LineBreak(c) && |close| > 0 && close[0] == '<'
    ensures LazyEnd(x + [c] + rest, close) < 0
  {
    var t := x + [c] + rest;
    if |x| == 0 {
      assert t[0] == c;
      Mismatch(t, close, 0);
    } else {
      assert t[0] == x[0];
      Mismatch(t, close, 0);
      assert t[1..] == x[1..] + [c] + rest;
      LazyEndAcrossBreak(x[1..], c, rest, close);
    }
  }

  /** An element whose inner text crosses a line break is not rewritten:
      `.` does not match the break, so the element is left as it is. */
  lemma ParagraphAcrossLines(x: string, c: char, y: string)
    requires '<' !in x && '<' !in y && LineBreak(c)
    ensures var s := "<p>" + x + [c] + y + "</p>";
      ReplacePairs(s, "<p>", "</p>", "", "\n\n") == s
  {
    PairAcrossLines("<p>", "</p>", x, c, y);
  }

  /** `ParagraphAcrossLines` on the paragraph tags, given as parameters. */
  lemma PairAcrossLines(open: string, close: string, x: string, c: char, y: string)
    requires open == "<p>" && close == "</p>"
    requires '<' !in x && '<' !in y && LineBreak(c)
    ensures ReplacePairs(open + x + [c] + y + close, open, close, "", "\n\n") == open + x + [c] + y + close
  {
    var t := x + [c] + y + close;
    var body := open[1..] + x + [c] + y;
    HeadAssoc(open, x, [c], y, close);
    HeadAssoc(open[1..], x, [c], y, close);
    PairHeadKept(open, close, x, c, y);
    DropHead(open, t);
    AngleFreeJoin(open[1..], x, c, y);
    PairBodyKept(open, close, body);
    assert [open[0]] + open[1..] == open;
    AppendAssoc([open[0]], open[1..], t);
  }

  /** Five pieces, the first split off. */
  lemma HeadAssoc(a: string, b: string, c: string, d: string, e: string)
    ensures a + b + c + d + e == a + (b + c + d + e)
  {
    AppendAssoc(a, b, c);
    AppendAssoc(a, b + c, d);
    AppendAssoc(a, b + c + d, e);
  }

  lemma DropHead(a: string, t: string)
    requires |a| > 0
    ensures (a + t)[0] == a[0] && (a + t)[1..] == a[1..] + t
  {
  }

  /** The opening tag is not rewritten: its lazy group meets the break first. */
  lemma PairHeadKept(open: string, close: string, x: string, c: char, y: string)
    requires open == "<p>" && close == "</p>"
    requires '<' !in x && LineBreak(c)
    ensures var s := open + x + [c] + y + close;
      ReplacePairs(s, open, close, "", "\n\n") == [s[0]] + ReplacePairs(s[1..], open, close, "", "\n\n")
  {
    var s := open + x + [c] + y + close;
    assert s[3..] == x + [c] + (y + close);
    LazyEndAcrossBreak(x, c, y + close, close);
  }

  /** Tag-free text followed by the closing tag is copied through. */
  lemma PairBodyKept(open: string, close: string, body: string)
    requires open == "<p>" && close == "</p>" && '<' !in body
    ensures ReplacePairs(body + close, open, close, "", "\n\n") == body + close
  {
    ReplacePairsPlain(body, close, open, close, "", "\n\n");
    ReplacePairsTag(close, "", open, close, "", "\n\n", 1);
    assert close + "" == close;
  }

  lemma AngleFreeJoin(a: string, x: string, c: char, y: string)
    requires '<' !in a && '<' !in x && '<' !in y && c != '<'
    ensures '<' !in a + x + [c] + y
  {
    var body := a + x + [c] + y;
    forall k | 0 <= k < |body| ensures body[k] != '<' {
      if k < |a| {
        assert body[k] == a[k];
      } else if k < |a| + |x| {
        assert body[k] == x[k - |a|];
      } else if k > |a| + |x| {
        assert body[k] == y[k - 1 - |a| - |x|];
      }
    }
  }

  /** Four pieces grouped to the right. */
  lemma FourAssoc(a: string, b: string, c: string, d: string)
    ensures a + b + c + d == a + (b + (c + d))
  {
    AppendAssoc(a + b, c, d);
    AppendAssoc(a, b, c + d);
  }

  /** Five pieces grouped to the right. */
  lemma FiveAssoc(a: string, b: string, c: string, d: string, e: string)
    ensures a + b + c + d + e == a + (b + (c + (d + e)))
  {
    AppendAssoc(a + b + c, d, e);
    FourAssoc(a, b, c, d + e);
  }

  /** A tag that differs from `open` is left alone by `ReplacePairs`. */
  lemma ReplacePairsTagAlone(t: string, open: string, close: string, before: string, after: string, i: nat)
    requires |open| > 0 && open[0] == '<' && Tag(t) && DiffersAt(t, open, i)
    ensures ReplacePairs(t, open, close, before, after) == t
  {
    ReplacePairsTag(t, "", open, close, before, after, i);
    assert t + "" == t;
  }

  /** A tag that differs from `pat` is left alone by `ReplaceAll`. */
  lemma ReplaceAllTagAlone(t: string, pat: string, rep: string, i: nat)
    requires |pat| > 0 && pat[0] == '<' && Tag(t) && DiffersAt(t, pat, i)
    ensures ReplaceAll(t, pat, rep) == t
  {
    ReplaceAllTag(t, "", pat, rep, i);
    assert t + "" == t;
  }

  /** A one-item list, as text, is left alone by a rewrite for an element
      whose tag differs from each of the list's tags at index 1. */
  lemma ListPairsKept(ul: string, li: string, x: string, cli: string, cul: string,
                      open: string, close: string, before: string, after: string)
    requires ul == "<ul>" && li == "<li>" && cli == "</li>" && cul == "</ul>" && '<' !in x
    requires |open| > 1 && open[0] == '<' && open[1] != 'u' && open[1] != 'l' && open[1] != '/'
    ensures ReplacePairs(ul + li + x + cli + cul, open, close, before, after) == ul + li + x + cli + cul
  {
    calc {
      ReplacePairs(ul + li + x + cli + cul, open, close, before, after);
      { FiveAssoc(ul, li, x, cli, cul); }
      ReplacePairs(ul + (li + (x + (cli + cul))), open, close, before, after);
      { ReplacePairsTag(ul, li + (x + (cli + cul)), open, close, before, after, 1); }
      ul + ReplacePairs(li + (x + (cli + cul)), open, close, before, after);
      { ReplacePairsTag(li, x + (cli + cul), open, close, before, after, 1); }
      ul + (li + ReplacePairs(x + (cli + cul), open, close, before, after));
      { ReplacePairsPlain(x, cli + cul, open, close, before, after); }
      ul + (li + (x + ReplacePairs(cli + cul, open, close, before, after)));
      { ReplacePairsTag(cli, cul, open, close, before, after, 1); }
      ul + (li + (x + (cli + ReplacePairs(cul, open, close, before, after))));
      { ReplacePairsTagAlone(cul, open, close, before, after, 1); }
      ul + (li + (x + (cli + cul)));
      { FiveAssoc(ul, li, x, cli, cul); }
      ul + li + x + cli + cul;
    }
  }

  /** The same for a tag removal. */
  lemma ListAllKept(ul: string, li: string, x: string, cli: string, cul: string, pat: string, rep: string)
    requires ul == "<ul>" && li == "<li>" && cli == "</li>" && cul == "</ul>" && '<' !in x
    requires |pat| > 1 && pat[0] == '<' && pat[1] != 'u' && pat[1] != 'l' && pat[1] != '/'
    ensures ReplaceAll(ul + li + x + cli + cul, pat, rep) == ul + li + x + cli + cul
  {
    calc {
      ReplaceAll(ul + li + x + cli + cul, pat, rep);
      { FiveAssoc(ul, li, x, cli, cul); }
      ReplaceAll(ul + (li + (x + (cli + cul))), pat, rep);
      { ReplaceAllTag(ul, li + (x + (cli + cul)), pat, rep, 1); }
      ul + ReplaceAll(li + (x + (cli + cul)), pat, rep);
      { ReplaceAllTag(li, x + (cli + cul), pat, rep, 1); }
      ul + (li + ReplaceAll(x + (cli + cul), pat, rep));
      { ReplaceAllPlain(x, cli + cul, pat, rep); }
      ul + (li + (x + ReplaceAll(cli + cul, pat, rep)));
      { ReplaceAllTag(cli, cul, pat, rep, 1); }
      ul + (li + (x + (cli + ReplaceAll(cul, pat, rep))));
      { ReplaceAllTagAlone(cul, pat, rep, 1); }
      ul + (li + (x + (cli + cul)));
      { FiveAssoc(ul, li, x, cli, cul); }
      ul + li + x + cli + cul;
    }
  }

  /** `<ul>` goes from a one-item list. */
  lemma ListOpenRemoved(ul: string, li: string, x: string, cli: string, cul: string)
    requires ul == "<ul>" && li == "<li>" && cli == "</li>" && cul == "</ul>" && '<' !in x
    ensures ReplaceAll(ul + li + x + cli + cul, "<ul>", "") == li + x + cli + cul
  {
    Text.LowerNoUpper("<ul>");
    calc {
      ReplaceAll(ul + li + x + cli + cul, "<ul>", "");
      { FiveAssoc(ul, li, x, cli, cul); }
      ReplaceAll(ul + (li + (x + (cli + cul))), "<ul>", "");
      { ReplaceAllHead(li + (x + (cli + cul)), "<ul>", ""); }
      "" + ReplaceAll(li + (x + (cli + cul)), "<ul>", "");
      { EmptyPrefix(ReplaceAll(li + (x + (cli + cul)), "<ul>", "")); }
      ReplaceAll(li + (x + (cli + cul)), "<ul>", "");
      { ReplaceAllTag(li, x + (cli + cul), "<ul>", "", 1); }
      li + ReplaceAll(x + (cli + cul), "<ul>", "");
      { ReplaceAllPlain(x, cli + cul, "<ul>", ""); }
      li + (x + ReplaceAll(cli + cul, "<ul>", ""));
      { ReplaceAllTag(cli, cul, "<ul>", "", 1); }
      li + (x + (cli + ReplaceAll(cul, "<ul>", "")));
      { ReplaceAllTagAlone(cul, "<ul>", "", 1); }
      li + (x + (cli + cul));
      { FourAssoc(li, x, cli, cul); }
      li + x + cli + cul;
    }
  }

  /** `</ul>` goes from what is left. */
  lemma ListCloseRemoved(li: string, x: string, cli: string, cul: string)
    requires li == "<li>" && cli == "</li>" && cul == "</ul>" && '<' !in x
    ensures ReplaceAll(li + x + cli + cul, "</ul>", "") == li + x + cli
  {
    Text.LowerNoUpper("</ul>");
    assert ReplaceAll("", "</ul>", "") == "";
    calc {
      ReplaceAll(li + x + cli + cul, "</ul>", "");
      { FourAssoc(li, x, cli, cul); }
      ReplaceAll(li + (x + (cli + cul)), "</ul>", "");
      { ReplaceAllTag(li, x + (cli + cul), "</ul>", "", 1); }
      li + ReplaceAll(x + (cli + cul), "</ul>", "");
      { ReplaceAllPlain(x, cli + cul, "</ul>", ""); }
      li + (x + ReplaceAll(cli + cul, "</ul>", ""));
      { ReplaceAllTag(cli, cul, "</ul>", "", 2); }
      li + (x + (cli + ReplaceAll(cul, "</ul>", "")));
      { ReplaceAllHead("", "</ul>", ""); assert cul + "" == cul; }
      li + (x + (cli + ""));
      { assert cli + "" == cli; AppendAssoc(li, x, cli); }
      li + x + cli;
    }
  }

  /** The `<ol>` and `</ol>` removals leave a list item alone. */
  lemma ItemOrderedKept(li: string, x: string, cli: string, pat: string)
    requires li == "<li>" && cli == "</li>" && '<' !in x
    requires pat == "<ol>" || pat == "</ol>"
    ensures ReplaceAll(li + x + cli, pat, "") == li + x + cli
  {
    var i := if pat == "<ol>" then 1 else 2;
    calc {
      ReplaceAll(li + x + cli, pat, "");
      { AppendAssoc(li, x, cli); }
      ReplaceAll(li + (x + cli), pat, "");
      { ReplaceAllTag(li, x + cli, pat, "", 1); }
      li + ReplaceAll(x + cli, pat, "");
      { ReplaceAllPlain(x, cli, pat, ""); }
      li + (x + ReplaceAll(cli, pat, ""));
      { ReplaceAllTagAlone(cli, pat, "", i); }
      li + (x + cli);
      { AppendAssoc(li, x, cli); }
      li + x + cli;
    }
  }

  /** No three line breaks in a row. */
  predicate NoTripleNewline(s: string) {
    forall i :: 0 <= i < |s| - 2 ==> !(s[i] == '\n' && s[i + 1] == '\n' && s[i + 2] == '\n')
  }

  /** The number of line breaks `s` begins with. */
  function NewlineRun(s: string): (n: nat)
    ensures n <= |s|
    ensures forall k :: 0 <= k < n ==> s[k] == '\n'
    ensures n < |s| ==> s[n] != '\n'
  {
    if |s| > 0 && s[0] == '\n' then 1 + NewlineRun(s[1..]) else 0
  }

  /** A suffix of text without three line breaks in a row has none either. */
  lemma NoTripleNewlineSuffix(s: string, n: nat)
    requires n <= |s|
    ensures NoTripleNewline(s) ==> NoTripleNewline(s[n..])
  {
    if NoTripleNewline(s) {
      forall i | 0 <= i < |s[n..]| - 2
        ensures !(s[n..][i] == '\n' && s[n..][i + 1] == '\n' && s[n..][i + 2] == '\n')
      {
        assert s[n..][i] == s[i + n];
      }
    }
  }

  /** At most two line breaks put before text that has no triple run and
      does not begin with a line break make no triple run. */
  lemma NoTripleNewlineJoin(head: string, tail: string)
    requires |head| <= 2 && NoTripleNewline(tail)
    requires |tail| > 0 ==> tail[0] != '\n'
    ensures NoTripleNewline(head + tail)
  {
    var t := head + tail;
    forall i | 0 <= i < |t| - 2
      ensures !(t[i] == '\n' && t[i + 1] == '\n' && t[i + 2] == '\n')
    {
      if i < |head| {
        assert t[|head|] == tail[0];
      } else {
        assert t[i] == tail[i - |head|];
      }
    }
  }

  /** A character other than a line break put before text without a
      triple run makes none. */
  lemma NoTripleNewlineCons(c: char, tail: string)
    requires c != '\n' && NoTripleNewline(tail)
    ensures NoTripleNewline([c] + tail)
  {
    var t := [c] + tail;
    forall i | 1 <= i < |t| - 2
      ensures !(t[i] == '\n' && t[i + 1] == '\n' && t[i + 2] == '\n')
    {
      assert t[i] == tail[i - 1];
    }
  }

  /** `s.replace(/\n{3,}/g, '\n\n')`: every run of three or more line breaks
      becomes two; text already without such a run is left unchanged. */
  function CollapseNewlines(s: string): (r: string)
    ensures NoTripleNewline(r)
    ensures NoTripleNewline(s) ==> r == s
    ensures |s| > 0 && s[0] != '\n' ==> |r| > 0 && r[0] == s[0]
    decreases |s|
  {
    if |s| == 0 then ""
    else
      var n := NewlineRun(s);
      if n == 0 then
        var rest := CollapseNewlines(s[1..]);
        CollapseKeep(s, rest);
        [s[0]] + rest
      else
        var tail := CollapseNewlines(s[n..]);
        if n >= 3 then
          CollapseLongRun(s, n, tail);
          "\n\n" + tail
        else
          CollapseShortRun(s, n, tail);
          s[..n] + tail
  }

  /** The step of `CollapseNewlines` past a character other than a line
      break. */
  lemma CollapseKeep(s: string, rest: string)
    requires |s| > 0 && s[0] != '\n'
    requires NoTripleNewline(rest) && (NoTripleNewline(s[1..]) ==> rest == s[1..])
    ensures NoTripleNewline([s[0]] + rest)
    ensures NoTripleNewline(s) ==> [s[0]] + rest == s
  {
    NoTripleNewlineSuffix(s, 1);
    NoTripleNewlineCons(s[0], rest);
    assert [s[0]] + s[1..] == s;
  }

  /** The step of `CollapseNewlines` past a run of three or more line
      breaks: the run is cut to two. */
  lemma CollapseLongRun(s: string, n: nat, tail: string)
    requires 3 <= n == NewlineRun(s)
    requires NoTripleNewline(tail) && (NoTripleNewline(s[n..]) ==> tail == s[n..])
    requires n < |s| ==> |tail| > 0 && tail[0] == s[n]
    ensures NoTripleNewline("\n\n" + tail) && !NoTripleNewline(s)
  {
    assert s[0] == '\n' && s[1] == '\n' && s[2] == '\n';
    if n == |s| {
      assert tail == s[n..];
    }
    NoTripleNewlineJoin("\n\n", tail);
  }

  /** The step of `CollapseNewlines` past a run of one or two line breaks:
      the run is kept. */
  lemma CollapseShortRun(s: string, n: nat, tail: string)
    requires 0 < n < 3 && n == NewlineRun(s)
    requires NoTripleNewline(tail) && (NoTripleNewline(s[n..]) ==> tail == s[n..])
    requires n < |s| ==> |tail| > 0 && tail[0] == s[n]
    ensures NoTripleNewline(s[..n] + tail) && (NoTripleNewline(s) ==> s[..n] + tail == s)
  {
    if n == |s| {
      assert tail == s[n..];
    }
    NoTripleNewlineSuffix(s, n);
    NoTripleNewlineJoin(s[..n], tail);
    assert s[..n] + s[n..] == s;
  }

  /** A piece cut out of text without three line breaks in a row has none
      either. */
  lemma NoTripleNewlinePiece(s: string, r: string)
    requires NoTripleNewline(s) && Text.Includes(s, r)
    ensures NoTripleNewline(r)
  {
    var k :| 0 <= k <= |s| - |r| && Text.OccursAt(s, r, k);
    forall i | 0 <= i < |r| - 2 ensures !(r[i] == '\n' && r[i + 1] == '\n' && r[i + 2] == '\n') {
      assert r[i] == s[k + i] && r[i + 1] == s[k + i + 1] && r[i + 2] == s[k + i + 2];
    }
  }

  /** The tag rewrites of `htmlToMarkdown`, in the order the source applies
      them. */
  function MarkdownTags(html: string): string {
    AfterParagraphs(ReplacePairs(html, "<p>", "</p>", "", "\n\n"))
  }

  /** The rewrites after the paragraph one. */
  function AfterParagraphs(s: string): (r: string)
    ensures '<' !in s ==> r == s
  {
    var s := ReplacePairs(s, "<h1>", "</h1>", "# ", "\n\n");
    var s := ReplacePairs(s, "<h2>", "</h2>", "## ", "\n\n");
    var s := ReplacePairs(s, "<h3>", "</h3>", "### ", "\n\n");
    var s := ReplacePairs(s, "<strong>", "</strong>", "**", "**");
    var s := ReplacePairs(s, "<em>", "</em>", "*", "*");
    var s := ReplacePairs(s, "<blockquote>", "</blockquote>", "> ", "\n\n");
    var s := ReplaceAll(s, "<hr>", "---\n\n");
    var s := ReplaceAll(s, "<ul>", "");
    var s := ReplaceAll(s, "</ul>", "");
    var s := ReplaceAll(s, "<ol>", "");
    var s := ReplaceAll(s, "</ol>", "");
    ReplacePairs(s, "<li>", "</li>", "- ", "\n")
  }

  /** `htmlToMarkdown`: the output never has three line breaks in a row and
      neither begins nor ends with white space. */
  function HtmlToMarkdown(html: string): (r: string)
    ensures NoTripleNewline(r)
    ensures |r| > 0 ==> !Text.IsSpace(r[0]) && !Text.IsSpace(r[|r| - 1])
  {
    var c := CollapseNewlines(MarkdownTags(html));
    var r := Text.Trim(c);
    NoTripleNewlinePiece(c, r);
    r
  }

  /** Text with no tags that is already tidy passes through unchanged. */
  lemma MarkdownOfPlainText(s: string)
    requires '<' !in s && NoTripleNewline(s)
    requires |s| > 0 ==> !Text.IsSpace(s[0]) && !Text.IsSpace(s[|s| - 1])
    ensures HtmlToMarkdown(s) == s
  {
    assert MarkdownTags(s) == s;
    assert Text.TrimStart(s) == s;
  }

  /** An element alone, with plain inner text, is rewritten to its text
      wrapped in `before` and `after`. */
  lemma ReplacePairsOne(x: string, open: string, close: string, before: string, after: string)
    requires |open| > 0 && open[0] == '<' && |close| > 0 && close[0] == '<'
    requires Text.Lower(open) == open && Text.Lower(close) == close
    requires '<' !in x && OneLine(x)
    ensures ReplacePairs(open + x + close, open, close, before, after) == before + x + after
  {
    assert StartsWithCI(close + "", close) by {
      assert close + "" == close && close[..|close|] == close;
    }
    ReplacePairsStep(x, "", open, close, before, after);
    assert open + x + close + "" == open + x + close;
    assert ReplacePairs("", open, close, before, after) == "";
    assert before + x + after + "" == before + x + after;
  }

  /** The paragraph rewrite on one `<p>` element with plain inner text. */
  lemma ParagraphPair(x: string)
    requires '<' !in x && OneLine(x)
    ensures ReplacePairs("<p>" + x + "</p>", "<p>", "</p>", "", "\n\n") == x + "\n\n"
  {
    Text.LowerNoUpper("<p>");
    Text.LowerNoUpper("</p>");
    ReplacePairsOne(x, "<p>", "</p>", "", "\n\n");
    EmptyPrefix(x);
  }

  /** Text without a tag followed by a blank line has no tag. */
  lemma NoAngleBlankLine(x: string)
    requires '<' !in x
    ensures '<' !in x + "\n\n"
  {
    var y := x + "\n\n";
    forall i | 0 <= i < |y| ensures y[i] != '<' {
      if i < |x| {
        assert y[i] == x[i];
      }
    }
  }

  /** A paragraph becomes its text followed by a blank line. */
  lemma MarkdownParagraph(x: string)
    requires '<' !in x && OneLine(x)
    ensures MarkdownTags("<p>" + x + "</p>") == x + "\n\n"
  {
    ParagraphPair(x);
    NoAngleBlankLine(x);
  }

  /** A list item on one line has no run of line breaks. */
  lemma NoTripleNewlineItem(x: string)
    requires OneLine(x)
    ensures NoTripleNewline("- " + x + "\n")
  {
    var s := "- " + x + "\n";
    forall i | 0 <= i < |s| - 2 ensures !(s[i] == '\n' && s[i + 1] == '\n' && s[i + 2] == '\n') {
      if i >= 2 {
        assert s[i] == x[i - 2];
      }
    }
  }

  /** Trimming a line followed by a line break gives the line back, when
      the line neither begins nor ends with white space. */
  lemma TrimLine(y: string)
    requires |y| > 0 && !Text.IsSpace(y[0]) && !Text.IsSpace(y[|y| - 1])
    ensures Text.Trim(y + "\n") == y
  {
    var s := y + "\n";
    assert Text.TrimStart(s) == s;
    assert s[..|s| - 1] == y;
    assert Text.TrimEnd(s) == Text.TrimEnd(y) == y;
  }

  /** The heading rewrites leave a one-item list alone. */
  lemma ListHeadingsKept(ul: string, li: string, x: string, cli: string, cul: string)
    requires ul == "<ul>" && li == "<li>" && cli == "</li>" && cul == "</ul>" && '<' !in x
    ensures var s := ReplacePairs(ul + li + x + cli + cul, "<h1>", "</h1>", "# ", "\n\n");
      var s := ReplacePairs(s, "<h2>", "</h2>", "## ", "\n\n");
      ReplacePairs(s, "<h3>", "</h3>", "### ", "\n\n") == ul + li + x + cli + cul
  {
    ListPairsKept(ul, li, x, cli, cul, "<h1>", "</h1>", "# ", "\n\n");
    ListPairsKept(ul, li, x, cli, cul, "<h2>", "</h2>", "## ", "\n\n");
    ListPairsKept(ul, li, x, cli, cul, "<h3>", "</h3>", "### ", "\n\n");
  }

  /** The emphasis rewrites leave a one-item list alone. */
  lemma ListEmphasisKept(ul: string, li: string, x: string, cli: string, cul: string)
    requires ul == "<ul>" && li == "<li>" && cli == "</li>" && cul == "</ul>" && '<' !in x
    ensures var s := ReplacePairs(ul + li + x + cli + cul, "<strong>", "</strong>", "**", "**");
      ReplacePairs(s, "<em>", "</em>", "*", "*") == ul + li + x + cli + cul
  {
    ListPairsKept(ul, li, x, cli, cul, "<strong>", "</strong>", "**", "**");
    ListPairsKept(ul, li, x, cli, cul, "<em>", "</em>", "*", "*");
  }

  /** The quotation rewrite leaves a one-item list alone. */
  lemma ListQuoteKept(ul: string, li: string, x: string, cli: string, cul: string)
    requires ul == "<ul>" && li == "<li>" && cli == "</li>" && cul == "</ul>" && '<' !in x
    ensures ReplacePairs(ul + li + x + cli + cul, "<blockquote>", "</blockquote>", "> ", "\n\n") == ul + li + x + cli + cul
  {
    ListPairsKept(ul, li, x, cli, cul, "<blockquote>", "</blockquote>", "> ", "\n\n");
  }

  /** The rewrites for paired elements leave a one-item list alone. */
  lemma ListBlocksKept(ul: string, li: string, x: string, cli: string, cul: string)
    requires ul == "<ul>" && li == "<li>" && cli == "</li>" && cul == "</ul>" && '<' !in x
    ensures var s := ReplacePairs(ul + li + x + cli + cul, "<p>", "</p>", "", "\n\n");
      var s := ReplacePairs(s, "<h1>", "</h1>", "# ", "\n\n");
      var s := ReplacePairs(s, "<h2>", "</h2>", "## ", "\n\n");
      var s := ReplacePairs(s, "<h3>", "</h3>", "### ", "\n\n");
      var s := ReplacePairs(s, "<strong>", "</strong>", "**", "**");
      var s := ReplacePairs(s, "<em>", "</em>", "*", "*");
      ReplacePairs(s, "<blockquote>", "</blockquote>", "> ", "\n\n") == ul + li + x + cli + cul
  {
    ListPairsKept(ul, li, x, cli, cul, "<p>", "</p>", "", "\n\n");
    ListHeadingsKept(ul, li, x, cli, cul);
    ListEmphasisKept(ul, li, x, cli, cul);
    ListQuoteKept(ul, li, x, cli, cul);
  }

  /** The tag rewrites on a one-item list, its tags passed as parameters. */
  lemma ListItemTags(ul: string, li: string, x: string, cli: string, cul: string)
    requires ul == "<ul>" && li == "<li>" && cli == "</li>" && cul == "</ul>"
    requires '<' !in x && OneLine(x)
    ensures MarkdownTags(ul + li + x + cli + cul) == "- " + x + "\n"
  {
    ListBlocksKept(ul, li, x, cli, cul);
    ListAllKept(ul, li, x, cli, cul, "<hr>", "---\n\n");
    ListOpenRemoved(ul, li, x, cli, cul);
    ListCloseRemoved(li, x, cli, cul);
    ItemOrderedKept(li, x, cli, "<ol>");
    ItemOrderedKept(li, x, cli, "</ol>");
    ItemRewritten(x);
  }

  /** The whole conversion on a one-item list, its tags passed as
      parameters. */
  lemma ListItemChain(ul: string, li: string, x: string, cli: string, cul: string)
    requires ul == "<ul>" && li == "<li>" && cli == "</li>" && cul == "</ul>"
    requires '<' !in x && OneLine(x) && |x| > 0 && !Text.IsSpace(x[|x| - 1])
    ensures HtmlToMarkdown(ul + li + x + cli + cul) == "- " + x
  {
    ListItemTags(ul, li, x, cli, cul);
    NoTripleNewlineItem(x);
    TrimLine("- " + x);
  }

  /** The list item rewrite on one `<li>` element with plain inner text. */
  lemma ItemRewritten(x: string)
    requires '<' !in x && OneLine(x)
    ensures ReplacePairs("<li>" + x + "</li>", "<li>", "</li>", "- ", "\n") == "- " + x + "\n"
  {
    Text.LowerNoUpper("<li>");
    Text.LowerNoUpper("</li>");
    ReplacePairsOne(x, "<li>", "</li>", "- ", "\n");
  }

  /** The list tags written together. */
  lemma ListTagsJoined()
    ensures "<ul>" + "<li>" == "<ul><li>" && "</li>" + "</ul>" == "</li></ul>"
  {
  }

  /** A one-item list becomes a Markdown list item. */
  lemma MarkdownOfListItem(x: string)
    requires '<' !in x && OneLine(x) && |x| > 0 && !Text.IsSpace(x[|x| - 1])
    ensures HtmlToMarkdown("<ul><li>" + x + "</li></ul>") == "- " + x
  {
    var ul, li, cli, cul := "<ul>", "<li>", "</li>", "</ul>";
    ListItemChain(ul, li, x, cli, cul);
    ListTagsJoined();
    calc {
      ul + li + x + cli + cul;
      { FiveAssoc(ul, li, x, cli, cul); }
      ul + (li + (x + (cli + cul)));
      { AppendAssoc(ul, li, x + (cli + cul)); }
      (ul + li) + (x + (cli + cul));
      { AppendAssoc(ul + li, x, cli + cul); }
      "<ul><li>" + x + "</li></ul>";
    }
  }

  /** The paragraph and heading rewrites leave a lone `<hr>` alone. */
  lemma RuleHeadingsKept(hr: string)
    requires hr == "<hr>"
    ensures var s := ReplacePairs(hr, "<p>", "</p>", "", "\n\n");
      var s := ReplacePairs(s, "<h1>", "</h1>", "# ", "\n\n");
      var s := ReplacePairs(s, "<h2>", "</h2>", "## ", "\n\n");
      ReplacePairs(s, "<h3>", "</h3>", "### ", "\n\n") == hr
  {
    ReplacePairsTagAlone(hr, "<p>", "</p>", "", "\n\n", 1);
    ReplacePairsTagAlone(hr, "<h1>", "</h1>", "# ", "\n\n", 2);
    ReplacePairsTagAlone(hr, "<h2>", "</h2>", "## ", "\n\n", 2);
    ReplacePairsTagAlone(hr, "<h3>", "</h3>", "### ", "\n\n", 2);
  }

  /** The emphasis and quotation rewrites leave a lone `<hr>` alone. */
  lemma RuleEmphasisKept(hr: string)
    requires hr == "<hr>"
    ensures var s := ReplacePairs(hr, "<strong>", "</strong>", "**", "**");
      var s := ReplacePairs(s, "<em>", "</em>", "*", "*");
      ReplacePairs(s, "<blockquote>", "</blockquote>", "> ", "\n\n") == hr
  {
    ReplacePairsTagAlone(hr, "<strong>", "</strong>", "**", "**", 1);
    ReplacePairsTagAlone(hr, "<em>", "</em>", "*", "*", 1);
    ReplacePairsTagAlone(hr, "<blockquote>", "</blockquote>", "> ", "\n\n", 1);
  }

  /** A lone `<hr>` is replaced by a rule and a blank line. */
  lemma RuleReplaced(hr: string, rule: string)
    requires hr == "<hr>" && rule == "---\n\n"
    ensures ReplaceAll(hr, "<hr>", rule) == rule
  {
    Text.LowerNoUpper("<hr>");
    ReplaceAllHead("", "<hr>", rule);
    assert hr + "" == hr;
    assert rule + "" == rule;
  }

  /** The tag rewrites on a lone `<hr>`. */
  lemma RuleChain(hr: string, rule: string)
    requires hr == "<hr>" && rule == "---\n\n"
    ensures MarkdownTags(hr) == rule
  {
    RuleHeadingsKept(hr);
    RuleEmphasisKept(hr);
    RuleReplaced(hr, rule);
    assert '<' !in rule;
  }

  /** A rule followed by a blank line is tidy and trims to the rule. */
  lemma RuleTrimmed(rule: string)
    requires rule == "---\n\n"
    ensures NoTripleNewline(rule) && Text.Trim(rule) == "---"
  {
    var line := "---";
    assert rule == line + "\n" + "\n";
    assert Text.TrimStart(rule) == rule;
    assert Text.TrimEnd(rule) == Text.TrimEnd(line + "\n") == Text.TrimEnd(line) == line;
  }

  /** The whole conversion on a lone `<hr>`, the tag passed as a
      parameter. */
  lemma RuleMarkdown(hr: string, rule: string)
    requires hr == "<hr>" && rule == "---\n\n"
    ensures HtmlToMarkdown(hr) == "---"
  {
    RuleChain(hr, rule);
    RuleTrimmed(rule);
  }

  /** A lone `<hr>` becomes a Markdown rule. */
  lemma MarkdownOfRule()
    ensures HtmlToMarkdown("<hr>") == "---"
  {
    RuleMarkdown("<hr>", "---\n\n");
  }

  // ---------------------------------------------------------------------
  // The active document

  function ActiveTabId(ui: UiState): Option<Id> {
    TabGroups.FocusedTab(TabGroups.Panes(ui.tabGroups, ui.activeGroupId))
  }

  /** What the commands are built around: the active id, the chapter and the
      fragment it names, and the part holding that chapter. */
  datatype Active = Active(id: Option<Id>, chapter: Option<Chapter>, fragment: Option<Fragment>, part: Option<Part>)

  function ActiveOf(ws: WorkspaceState): (a: Active)
    ensures a.id == ActiveTabId(ws.uiState)
    ensures a.chapter.Some? <==> Truthy(a.id) && FindChapter(ws.toc, a.id.value).Some?
    ensures a.chapter.Some? ==> a.chapter.value.id == a.id.value
    ensures a.fragment.Some? <==> Truthy(a.id) && FindFragment(ws.fragments, a.id.value).Some?
    ensures a.part.Some? <==> a.chapter.Some?
    ensures a.part.Some? ==>
      Truthy(a.id) && 0 <= PartHolding(ws.toc, a.id.value) && a.part.value == ws.toc[PartHolding(ws.toc, a.id.value)]
  {
    var id := ActiveTabId(ws.uiState);
    var chapter := if Truthy(id) then FindChapter(ws.toc, id.value) else None;
    var fragment := if Truthy(id) then FindFragment(ws.fragments, id.value) else None;
    if chapter.Some? then
      PartHoldingFound(ws.toc, id.value);
      Active(id, chapter, fragment, Some(ws.toc[PartHolding(ws.toc, id.value)]))
    else Active(id, chapter, fragment, None)
  }

  // ---------------------------------------------------------------------
  // Commands

  datatype Effect =
    | NoEffect
    | OpenChapter(chapterId: Id)
    | OpenFragment(fragmentId: Id)
    | ToggleInspector
    | ToggleBottomPanel
    | AddFragment
    | AddPart
    | AddChapter(partId: Id)
    | SetRenamingId(itemId: Id)
    | DeleteChapter(deletedChapterId: Id)
    | DeletePart(deletedPartId: Id)
      /** A Markdown download: `html` converted by `HtmlToMarkdown`. */
    | DownloadMarkdown(filename: string, html: string)
    | DownloadManuscriptMarkdown(manuscript: Toc)
      /** A plain-text download: the text the browser extracts from `html`. */
    | DownloadText(textFilename: string, html: string)
    | DownloadManuscriptText(toc: Toc)
    | ExportWorkspace(backupFilename: string, workspace: WorkspaceState)
    | ImportWorkspace

  /** A palette entry; `labelText` is the source's `label`, a word Dafny
      reserves. */
  datatype Command = Command(id: string, labelText: string, category: string, effect: Effect, disabled: bool)

  /** A file handed to the browser for download. */
  datatype File = File(name: string, content: string, mimeType: string)

  /** The file a Markdown export downloads. */
  function MarkdownFile(e: Effect): (f: File)
    requires e.DownloadMarkdown? || e.DownloadManuscriptMarkdown?
    ensures f.mimeType == "text/markdown"
    ensures e.DownloadMarkdown? ==> f.name == e.filename && NoTripleNewline(f.content)
  {
    if e.DownloadMarkdown? then File(e.filename, HtmlToMarkdown(e.html), "text/markdown")
    else File("manuscript.md", ManuscriptMarkdown(e.manuscript), "text/markdown")
  }

  const ChapterCommandPrefix := "goto-chapter-"
  const FragmentCommandPrefix := "goto-fragment-"

  function ChapterNavigation(c: Chapter): Command {
    Command(ChapterCommandPrefix + c.id, "Go to Chapter: " + c.title, "Navigation", OpenChapter(c.id), false)
  }

  /** `getFragmentPreview`: the first 50 characters of the text, or a
      placeholder when there is none. */
  function FragmentPreview(content: string): (r: string)
    ensures |r| > 0
  {
    var t := Text.Prefix(Text.StripTags(content), 50);
    if t == "" then "Untitled Fragment" else t
  }

  function FragmentNavigation(f: Fragment): Command {
    Command(FragmentCommandPrefix + f.id, "Go to Fragment: " + FragmentPreview(f.content) + "...", "Navigation", OpenFragment(f.id), false)
  }

  function ChapterCommands(chapters: seq<Chapter>): (r: seq<Command>)
    ensures |r| == |chapters|
    ensures forall i :: 0 <= i < |chapters| ==> r[i] == ChapterNavigation(chapters[i])
  {
    seq(|chapters|, i requires 0 <= i < |chapters| => ChapterNavigation(chapters[i]))
  }

  function FragmentCommands(fragments: seq<Fragment>): (r: seq<Command>)
    ensures |r| == |fragments|
    ensures forall i :: 0 <= i < |fragments| ==> r[i] == FragmentNavigation(fragments[i])
  {
    seq(|fragments|, i requires 0 <= i < |fragments| => FragmentNavigation(fragments[i]))
  }

  /** The navigation commands: every chapter in reading order, then every
      fragment in library order. */
  function Navigation(toc: Toc, fragments: seq<Fragment>): (r: seq<Command>)
    ensures |r| == |AllChapters(toc)| + |fragments|
  {
    ChapterCommands(AllChapters(toc)) + FragmentCommands(fragments)
  }

  lemma ChapterCommandsAppend(a: seq<Chapter>, b: seq<Chapter>)
    ensures ChapterCommands(a + b) == ChapterCommands(a) + ChapterCommands(b)
  {
    assert forall i :: 0 <= i < |a + b| ==> (a + b)[i] == if i < |a| then a[i] else b[i - |a|];
  }

  lemma AllChaptersSnoc(toc: Toc, i: nat)
    requires i < |toc|
    ensures AllChapters(toc[..i + 1]) == AllChapters(toc[..i]) + toc[i].chapters
  {
    AllChaptersAppend(toc[..i], [toc[i]]);
    assert toc[..i + 1] == toc[..i] + [toc[i]];
    assert AllChapters([toc[i]]) == toc[i].chapters + AllChapters([]);
  }

  /** The loops that build the navigation commands. */
  method NavigationCommands(toc: Toc, fragments: seq<Fragment>) returns (r: seq<Command>)
    ensures r == Navigation(toc, fragments)
  {
    r := [];
    var i := 0;
    while i < |toc|
      invariant 0 <= i <= |toc|
      invariant r == ChapterCommands(AllChapters(toc[..i]))
    {
      r := PushChapterCommands(r, toc[i].chapters);
      AllChaptersSnoc(toc, i);
      ChapterCommandsAppend(AllChapters(toc[..i]), toc[i].chapters);
      i := i + 1;
    }
    assert toc[..i] == toc;
    r := PushFragmentCommands(r, fragments);
  }

  /** The library loop: one command per fragment, appended. */
  method PushFragmentCommands(r0: seq<Command>, fragments: seq<Fragment>) returns (r: seq<Command>)
    ensures r == r0 + FragmentCommands(fragments)
  {
    ghost var all := FragmentCommands(fragments);
    r := r0;
    var k := 0;
    while k < |fragments|
      invariant 0 <= k <= |fragments|
      invariant r == r0 + all[..k]
    {
      var command := FragmentNavigation(fragments[k]);
      assert command == all[k];
      r := r + [command];
      TakeOneMore(all, k);
      k := k + 1;
    }
    assert all[..k] == all;
  }

  /** The inner loop: one command per chapter of a part, appended. */
  method PushChapterCommands(r0: seq<Command>, chapters: seq<Chapter>) returns (r: seq<Command>)
    ensures r == r0 + ChapterCommands(chapters)
  {
    ghost var all := ChapterCommands(chapters);
    r := r0;
    var j := 0;
    while j < |chapters|
      invariant 0 <= j <= |chapters|
      invariant r == r0 + all[..j]
    {
      var command := ChapterNavigation(chapters[j]);
      assert command == all[j];
      r := r + [command];
      TakeOneMore(all, j);
      j := j + 1;
    }
    assert all[..j] == all;
  }

  function CommandIds(commands: seq<Command>): (r: seq<string>)
    ensures |r| == |commands| && forall i :: 0 <= i < |commands| ==> r[i] == commands[i].id
  {
    seq(|commands|, i requires 0 <= i < |commands| => commands[i].id)
  }

  /** The navigation command at a position below the chapter count opens
      that chapter. */
  lemma NavigationChapterId(toc: Toc, fragments: seq<Fragment>, i: nat)
    requires i < |AllChapters(toc)|
    ensures CommandIds(Navigation(toc, fragments))[i] == ChapterCommandPrefix + AllChapters(toc)[i].id
  {
    var cs := AllChapters(toc);
    assert Navigation(toc, fragments)[i] == ChapterCommands(cs)[i];
  }

  /** The navigation commands after the chapters open the fragments. */
  lemma NavigationFragmentId(toc: Toc, fragments: seq<Fragment>, i: nat)
    requires |AllChapters(toc)| <= i < |AllChapters(toc)| + |fragments|
    ensures CommandIds(Navigation(toc, fragments))[i] ==
      FragmentCommandPrefix + fragments[i - |AllChapters(toc)|].id
  {
    var cs := AllChapters(toc);
    assert Navigation(toc, fragments)[i] == FragmentCommands(fragments)[i - |cs|];
  }

  /** Two ids behind the same prefix differ when what follows it differs. */
  lemma PrefixedDistinct(p: string, a: string, b: string)
    requires a != b
    ensures p + a != p + b
  {
    assert (p + a)[|p|..] == a && (p + b)[|p|..] == b;
  }

  /** A chapter command id never equals a fragment command id. */
  lemma ChapterNotFragmentId(a: string, b: string)
    ensures ChapterCommandPrefix + a != FragmentCommandPrefix + b
  {
    assert (ChapterCommandPrefix + a)[5] == ChapterCommandPrefix[5] == 'c';
    assert (FragmentCommandPrefix + b)[5] == FragmentCommandPrefix[5] == 'f';
  }

  /** Two positions of the navigation list carry different ids. */
  lemma NavigationIdsDiffer(toc: Toc, fragments: seq<Fragment>, i: nat, j: nat)
    requires NoDuplicates(ChapterIdsOf(AllChapters(toc)))
    requires forall i, j :: 0 <= i < j < |fragments| ==> fragments[i].id != fragments[j].id
    requires i < j < |Navigation(toc, fragments)|
    ensures CommandIds(Navigation(toc, fragments))[i] != CommandIds(Navigation(toc, fragments))[j]
  {
    var cs := AllChapters(toc);
    var ids := CommandIds(Navigation(toc, fragments));
    if j < |cs| {
      NavigationChapterId(toc, fragments, i);
      NavigationChapterId(toc, fragments, j);
      var chapterIds := ChapterIdsOf(cs);
      assert chapterIds[i] != chapterIds[j];
      PrefixedDistinct(ChapterCommandPrefix, cs[i].id, cs[j].id);
      assert ids[i] != ids[j];
    } else if i >= |cs| {
      NavigationFragmentId(toc, fragments, i);
      NavigationFragmentId(toc, fragments, j);
      PrefixedDistinct(FragmentCommandPrefix, fragments[i - |cs|].id, fragments[j - |cs|].id);
      assert ids[i] != ids[j];
    } else {
      NavigationChapterId(toc, fragments, i);
      NavigationFragmentId(toc, fragments, j);
      ChapterNotFragmentId(cs[i].id, fragments[j - |cs|].id);
      assert ids[i] != ids[j];
    }
  }

  /** Distinct chapter ids and distinct fragment ids give distinct
      navigation command ids, even when a chapter and a fragment share an
      id. */
  lemma NavigationIdsDistinct(toc: Toc, fragments: seq<Fragment>)
    requires NoDuplicates(ChapterIdsOf(AllChapters(toc)))
    requires forall i, j :: 0 <= i < j < |fragments| ==> fragments[i].id != fragments[j].id
    ensures NoDuplicates(CommandIds(Navigation(toc, fragments)))
  {
    var ids := CommandIds(Navigation(toc, fragments));
    forall i, j | 0 <= i < j < |ids| ensures ids[i] != ids[j] {
      NavigationIdsDiffer(toc, fragments, i, j);
    }
  }

  function UiCommands(ui: UiState): (r: seq<Command>)
    ensures |r| == 2
  {
    [ Command("toggle-inspector", "UI: " + (if ui.inspectorOpen then "Hide" else "Show") + " Inspector", "UI", ToggleInspector, false),
      Command("toggle-fragments-panel", "UI: " + (if ui.bottomPanelOpen then "Hide" else "Show") + " Fragments Panel", "UI", ToggleBottomPanel, false) ]
  }

  /** The export filename: the title with every space turned into `_`,
      followed by the extension. */
  function ExportFilename(title: string, extension: string): (r: string)
    ensures |r| == |title| + |extension| && r[|title|..] == extension
    ensures ' ' !in r[..|title|]
  {
    var r := Text.ReplaceChar(title, ' ', '_') + extension;
    assert r[..|title|] == Text.ReplaceChar(title, ' ', '_');
    r
  }

  /** A title without underscores is recovered from its filename. */
  lemma ExportFilenameRecoversTitle(title: string, extension: string)
    requires '_' !in title
    ensures Text.ReplaceChar(ExportFilename(title, extension)[..|title|], '_', ' ') == title
  {
    var f := ExportFilename(title, extension)[..|title|];
    assert f == Text.ReplaceChar(title, ' ', '_');
    var back := Text.ReplaceChar(f, '_', ' ');
    forall i | 0 <= i < |title| ensures back[i] == title[i] {
      assert title[i] != '_';
    }
  }

  /** The title of the active document: a chapter's own title, else the
      fragment's preview. */
  function ActiveTitle(a: Active): string
    requires a.chapter.Some? || a.fragment.Some?
  {
    if a.chapter.Some? then a.chapter.value.title else FragmentPreview(a.fragment.value.content)
  }

  function ActiveContent(a: Active): string
    requires a.chapter.Some? || a.fragment.Some?
  {
    if a.chapter.Some? then a.chapter.value.content else a.fragment.value.content
  }

  function ExportActiveMarkdown(a: Active): (c: Command)
    ensures c.disabled <==> !Truthy(a.id)
    ensures c.effect.NoEffect? <==> a.chapter.None? && a.fragment.None?
    ensures !c.effect.NoEffect? ==>
      c.effect == DownloadMarkdown(ExportFilename(ActiveTitle(a), ".md"), ActiveContent(a))
  {
    var effect := if a.chapter.Some? || a.fragment.Some? then
        DownloadMarkdown(ExportFilename(ActiveTitle(a), ".md"), ActiveContent(a))
      else NoEffect;
    Command("export-active-md", "Export: Active Document as Markdown (.md)", "Export", effect, !Truthy(a.id))
  }

  function ExportActiveText(a: Active): (c: Command)
    ensures c.disabled <==> !Truthy(a.id)
    ensures c.effect.NoEffect? <==> a.chapter.None? && a.fragment.None?
    ensures !c.effect.NoEffect? ==> c.effect == DownloadText(ExportFilename(ActiveTitle(a), ".txt"), ActiveContent(a))
  {
    var effect := if a.chapter.Some? || a.fragment.Some? then
        DownloadText(ExportFilename(ActiveTitle(a), ".txt"), ActiveContent(a))
      else NoEffect;
    Command("export-active-txt", "Export: Active Document as Plain Text (.txt)", "Export", effect, !Truthy(a.id))
  }

  /** `arr.join(sep)`. */
  function Join(parts: seq<string>, sep: string): (r: string)
    ensures |parts| == 0 ==> r == ""
    ensures |parts| == 1 ==> r == parts[0]
  {
    if |parts| == 0 then ""
    else if |parts| == 1 then parts[0]
    else parts[0] + sep + Join(parts[1..], sep)
  }

  /** Joining two non-empty lists puts one separator between their joins. */
  lemma {:induction false} JoinAppend(a: seq<string>, b: seq<string>, sep: string)
    requires |a| > 0 && |b| > 0
    ensures Join(a + b, sep) == Join(a, sep) + sep + Join(b, sep)
  {
    assert (a + b)[0] == a[0];
    if |a| == 1 {
      assert (a + b)[1..] == b;
    } else {
      assert (a + b)[1..] == a[1..] + b;
      JoinAppend(a[1..], b, sep);
      var j, jb := Join(a[1..], sep), Join(b, sep);
      calc {
        Join(a + b, sep);
        a[0] + sep + (j + sep + jb);
        { AppendAssoc(a[0] + sep, j + sep, jb); AppendAssoc(a[0] + sep, j, sep); }
        a[0] + sep + j + sep + jb;
      }
    }
  }

  /** One string per part, in order. */
  function PartStrings(toc: Toc, f: Part -> string): (r: seq<string>)
    ensures |r| == |toc| && forall i :: 0 <= i < |toc| ==> r[i] == f(toc[i])
  {
    seq(|toc|, i requires 0 <= i < |toc| => f(toc[i]))
  }

  /** One string per chapter, in order. */
  function ChapterStrings(cs: seq<Chapter>, f: Chapter -> string): (r: seq<string>)
    ensures |r| == |cs| && forall i :: 0 <= i < |cs| ==> r[i] == f(cs[i])
  {
    seq(|cs|, i requires 0 <= i < |cs| => f(cs[i]))
  }

  /** The strings of two tables of contents put together are the strings of
      the first followed by those of the second. */
  lemma PartStringsAppend(a: Toc, b: Toc, f: Part -> string)
    ensures PartStrings(a + b, f) == PartStrings(a, f) + PartStrings(b, f)
  {
  }

  function ChapterMarkdown(c: Chapter): string {
    "## " + c.title + "\n\n" + HtmlToMarkdown(c.content)
  }

  function PartMarkdown(p: Part): string {
    "# " + p.title + "\n\n" + Join(ChapterStrings(p.chapters, ChapterMarkdown), "\n\n")
  }

  /** The whole manuscript as Markdown: each part's heading and chapters,
      parts separated by a horizontal rule. */
  function ManuscriptMarkdown(toc: Toc): (r: string)
    ensures |toc| == 0 ==> r == ""
    ensures |toc| == 1 ==> r == PartMarkdown(toc[0])
  {
    Join(PartStrings(toc, PartMarkdown), "\n\n---\n\n")
  }

  /** The manuscript of two runs of parts is the manuscript of the first, a
      horizontal rule, then the manuscript of the second. */
  lemma ManuscriptMarkdownAppend(a: Toc, b: Toc)
    requires |a| > 0 && |b| > 0
    ensures ManuscriptMarkdown(a + b) == ManuscriptMarkdown(a) + "\n\n---\n\n" + ManuscriptMarkdown(b)
  {
    PartStringsAppend(a, b, PartMarkdown);
    JoinAppend(PartStrings(a, PartMarkdown), PartStrings(b, PartMarkdown), "\n\n---\n\n");
  }

  /** A one-part, one-chapter manuscript. */
  lemma ManuscriptOfOneChapter(p: Part)
    requires |p.chapters| == 1
    ensures ManuscriptMarkdown([p]) == "# " + p.title + "\n\n" + ChapterMarkdown(p.chapters[0])
  {
    assert ChapterStrings(p.chapters, ChapterMarkdown) == [ChapterMarkdown(p.chapters[0])];
  }

  /** A chapter in the plain-text manuscript; `text` is the browser's
      `htmlToText`. */
  function ChapterText(c: Chapter, text: string -> string): string {
    "CHAPTER: " + c.title + "\n\n" + text(c.content)
  }

  function PartText(p: Part, text: string -> string): string {
    "PART: " + p.title + "\n\n" + Join(ChapterStrings(p.chapters, c => ChapterText(c, text)), "\n\n")
  }

  /** The whole manuscript as plain text: each part's title line and
      chapters, parts separated by two blank lines. */
  function ManuscriptText(toc: Toc, text: string -> string): (r: string)
    ensures |toc| == 0 ==> r == ""
    ensures |toc| == 1 ==> r == PartText(toc[0], text)
  {
    Join(PartStrings(toc, p => PartText(p, text)), "\n\n\n")
  }

  /** The plain-text manuscript of two runs of parts is that of the first,
      two blank lines, then that of the second. */
  lemma ManuscriptTextAppend(a: Toc, b: Toc, text: string -> string)
    requires |a| > 0 && |b| > 0
    ensures ManuscriptText(a + b, text) == ManuscriptText(a, text) + "\n\n\n" + ManuscriptText(b, text)
  {
    var f := p => PartText(p, text);
    PartStringsAppend(a, b, f);
    JoinAppend(PartStrings(a, f), PartStrings(b, f), "\n\n\n");
  }

  /** A one-part, one-chapter plain-text manuscript. */
  lemma ManuscriptTextOfOneChapter(p: Part, text: string -> string)
    requires |p.chapters| == 1
    ensures ManuscriptText([p], text) ==
      "PART: " + p.title + "\n\n" + "CHAPTER: " + p.chapters[0].title + "\n\n" + text(p.chapters[0].content)
  {
    var c := p.chapters[0];
    assert ChapterStrings(p.chapters, c => ChapterText(c, text)) == [ChapterText(c, text)];
    var x, d, e, f, g := "PART: " + p.title + "\n\n", "CHAPTER: ", c.title, "\n\n", text(c.content);
    calc {
      ManuscriptText([p], text);
      x + (d + e + f + g);
      { AppendAssoc(x, d + e + f, g); }
      x + (d + e + f) + g;
      { AppendAssoc(x, d + e, f); }
      x + (d + e) + f + g;
      { AppendAssoc(x, d, e); }
      x + d + e + f + g;
    }
  }

  function ExportCommands(toc: Toc, a: Active): (r: seq<Command>)
    ensures |r| == 4
  {
    [ ExportActiveMarkdown(a),
      ExportActiveText(a),
      Command("export-manuscript-md", "Export: Full Manuscript as Markdown (.md)", "Export",
        DownloadManuscriptMarkdown(toc), false),
      Command("export-manuscript-txt", "Export: Full Manuscript as Plain Text (.txt)", "Export",
        DownloadManuscriptText(toc), false) ]
  }

  function FragmentLibraryCommands(): (r: seq<Command>)
    ensures |r| == 1
  {
    [Command("create-fragment", "Fragment: Create New", "Fragments", AddFragment, false)]
  }

  /** The id names a part or one of its chapters. */
  predicate InToc(toc: Toc, id: Id) {
    exists i :: 0 <= i < |toc| && (toc[i].id == id || exists c :: c in toc[i].chapters && c.id == id)
  }

  lemma PartTargetedInToc(toc: Toc, id: Id)
    ensures PartTargeted(toc, id) >= 0 <==> InToc(toc, id)
  {
    var r := PartTargeted(toc, id);
    if r >= 0 && toc[r].id != id {
      assert toc[r].chapters[ChapterIndex(toc[r].chapters, id)] in toc[r].chapters;
    }
  }

  function CreateChapterCommand(a: Active): (c: Command)
    ensures c.disabled <==> a.part.None?
    ensures c.disabled ==> c.effect == NoEffect
    ensures !c.disabled ==> c.effect == AddChapter(a.part.value.id)
  {
    Command("create-chapter", "TOC: New Chapter in Current Part", "TOC",
      if a.part.Some? then AddChapter(a.part.value.id) else NoEffect, a.part.None?)
  }

  function RenameCommand(toc: Toc, a: Active): (c: Command)
    ensures c.disabled <==> !Truthy(a.id) || !InToc(toc, a.id.value)
    ensures !c.disabled ==> c.effect == SetRenamingId(a.id.value)
  {
    var enabled := Truthy(a.id) && PartTargeted(toc, a.id.value) >= 0;
    assert Truthy(a.id) ==> (PartTargeted(toc, a.id.value) >= 0 <==> InToc(toc, a.id.value)) by {
      if Truthy(a.id) { PartTargetedInToc(toc, a.id.value); }
    }
    Command("rename-item", "TOC: Rename Active Item", "TOC",
      if Truthy(a.id) then SetRenamingId(a.id.value) else NoEffect, !enabled)
  }

  /** Deleting prefers a chapter with the active id, then a part with it. */
  function DeleteCommand(toc: Toc, a: Active): (c: Command)
    ensures c.disabled <==> !Truthy(a.id) || !InToc(toc, a.id.value)
    ensures a.chapter.Some? ==> c.effect == DeleteChapter(a.chapter.value.id)
    ensures a.chapter.None? ==>
      c.effect == if Truthy(a.id) && PartIndex(toc, a.id.value) >= 0 then DeletePart(a.id.value) else NoEffect
  {
    var enabled := Truthy(a.id) && PartTargeted(toc, a.id.value) >= 0;
    assert Truthy(a.id) ==> (PartTargeted(toc, a.id.value) >= 0 <==> InToc(toc, a.id.value)) by {
      if Truthy(a.id) { PartTargetedInToc(toc, a.id.value); }
    }
    var effect :=
      if a.chapter.Some? then DeleteChapter(a.chapter.value.id)
      else if Truthy(a.id) && PartIndex(toc, a.id.value) >= 0 then DeletePart(a.id.value)
      else NoEffect;
    Command("delete-item", "TOC: Delete Active Item", "TOC", effect, !enabled)
  }

  function TocCommands(toc: Toc, a: Active): (r: seq<Command>)
    ensures |r| == 4
  {
    [ Command("create-part", "TOC: New Part", "TOC", AddPart, false),
      CreateChapterCommand(a),
      RenameCommand(toc, a),
      DeleteCommand(toc, a) ]
  }

  const BackupFilename := "synthia-workspace-backup.json"

  function WorkspaceCommands(ws: WorkspaceState): (r: seq<Command>)
    ensures |r| == 2
  {
    [ Command("export-workspace", "Workspace: Export as JSON backup", "Workspace", ExportWorkspace(BackupFilename, ws), false),
      Command("import-workspace", "Workspace: Import from JSON backup", "Workspace", ImportWorkspace, false) ]
  }

  /** `generateCommands`. */
  function AllCommands(ws: Option<WorkspaceState>): (r: seq<Command>)
    ensures ws.None? ==> r == []
    ensures ws.Some? ==> |r| == |AllChapters(ws.value.toc)| + |ws.value.fragments| + 13
  {
    if ws.None? then []
    else
      var w := ws.value;
      var a := ActiveOf(w);
      Navigation(w.toc, w.fragments) + UiCommands(w.uiState) + ExportCommands(w.toc, a) +
      FragmentLibraryCommands() + TocCommands(w.toc, a) + WorkspaceCommands(w)
  }

  method GenerateCommands(ws: Option<WorkspaceState>) returns (r: seq<Command>)
    ensures r == AllCommands(ws)
  {
    if ws.None? {
      return [];
    }
    var w := ws.value;
    var a := ActiveOf(w);
    var navigation := NavigationCommands(w.toc, w.fragments);
    r := navigation + UiCommands(w.uiState) + ExportCommands(w.toc, a) +
      FragmentLibraryCommands() + TocCommands(w.toc, a) + WorkspaceCommands(w);
  }

  function Categories(commands: seq<Command>): (r: seq<string>)
    ensures |r| == |commands| && forall i :: 0 <= i < |commands| ==> r[i] == commands[i].category
  {
    seq(|commands|, i requires 0 <= i < |commands| => commands[i].category)
  }

  function Repeat(s: string, n: nat): (r: seq<string>)
    ensures |r| == n && forall i :: 0 <= i < n ==> r[i] == s
  {
    seq(n, i => s)
  }

  lemma CategoriesAppend(a: seq<Command>, b: seq<Command>)
    ensures Categories(a + b) == Categories(a) + Categories(b)
  {
    assert forall i :: 0 <= i < |a + b| ==> (a + b)[i] == if i < |a| then a[i] else b[i - |a|];
  }

  lemma NavigationCategories(toc: Toc, fragments: seq<Fragment>)
    ensures Categories(Navigation(toc, fragments)) == Repeat("Navigation", |AllChapters(toc)| + |fragments|)
  {
    var cs := AllChapters(toc);
    var nav := Navigation(toc, fragments);
    forall i | 0 <= i < |nav| ensures nav[i].category == "Navigation" {
      if i < |cs| {
        assert nav[i] == ChapterNavigation(cs[i]);
      } else {
        assert nav[i] == FragmentNavigation(fragments[i - |cs|]);
      }
    }
  }

  lemma ExportCategories(toc: Toc, a: Active)
    ensures Categories(ExportCommands(toc, a)) == Repeat("Export", 4)
  {
    assert ExportActiveMarkdown(a).category == "Export";
    assert ExportActiveText(a).category == "Export";
  }

  /** The order of the list: navigation, then interface, export, fragment,
      table-of-contents and workspace commands. */
  lemma CommandOrder(w: WorkspaceState)
    ensures Categories(AllCommands(Some(w))) ==
      Repeat("Navigation", |AllChapters(w.toc)| + |w.fragments|) + ["UI", "UI"] + Repeat("Export", 4) +
      ["Fragments"] + Repeat("TOC", 4) + ["Workspace", "Workspace"]
  {
    var a := ActiveOf(w);
    var nav, ui, ex, fr, tc, ws :=
      Navigation(w.toc, w.fragments), UiCommands(w.uiState), ExportCommands(w.toc, a),
      FragmentLibraryCommands(), TocCommands(w.toc, a), WorkspaceCommands(w);
    AllCommandsParts(w);
    CategoriesOfSix(nav, ui, ex, fr, tc, ws);
    NavigationCategories(w.toc, w.fragments);
    ExportCategories(w.toc, a);
    FixedCategories(w, a);
  }

  lemma AllCommandsParts(w: WorkspaceState)
    ensures var a := ActiveOf(w);
      AllCommands(Some(w)) ==
        Navigation(w.toc, w.fragments) + UiCommands(w.uiState) + ExportCommands(w.toc, a) +
        FragmentLibraryCommands() + TocCommands(w.toc, a) + WorkspaceCommands(w)
  {
  }

  lemma CategoriesOfSix(a: seq<Command>, b: seq<Command>, c: seq<Command>, d: seq<Command>, e: seq<Command>, f: seq<Command>)
    ensures Categories(a + b + c + d + e + f) ==
      Categories(a) + Categories(b) + Categories(c) + Categories(d) + Categories(e) + Categories(f)
  {
    CategoriesAppend(a, b);
    CategoriesAppend(a + b, c);
    CategoriesAppend(a + b + c, d);
    CategoriesAppend(a + b + c + d, e);
    CategoriesAppend(a + b + c + d + e, f);
  }

  lemma FixedCategories(w: WorkspaceState, a: Active)
    ensures Categories(UiCommands(w.uiState)) == ["UI", "UI"]
    ensures Categories(FragmentLibraryCommands()) == ["Fragments"]
    ensures Categories(TocCommands(w.toc, a)) == Repeat("TOC", 4)
    ensures Categories(WorkspaceCommands(w)) == ["Workspace", "Workspace"]
  {
    assert CreateChapterCommand(a).category == "TOC";
    assert RenameCommand(w.toc, a).category == "TOC";
    assert DeleteCommand(w.toc, a).category == "TOC";
  }

  /** The table-of-contents commands in the generated list. */
  lemma TocCommandsPlaced(w: WorkspaceState)
    ensures var r, n, a := AllCommands(Some(w)), |AllChapters(w.toc)| + |w.fragments|, ActiveOf(w);
      r[n + 8] == CreateChapterCommand(a) && r[n + 9] == RenameCommand(w.toc, a) && r[n + 10] == DeleteCommand(w.toc, a)
  {
  }

  /** `create-chapter` is enabled exactly when the active tab is a chapter of
      some part, and then adds to the first such part. */
  lemma CreateChapterEnabled(w: WorkspaceState)
    ensures var a, c := ActiveOf(w), CreateChapterCommand(ActiveOf(w));
      (!c.disabled <==> Truthy(a.id) && exists i :: 0 <= i < |w.toc| && ChapterIndex(w.toc[i].chapters, a.id.value) >= 0) &&
      (!c.disabled ==> c.effect == AddChapter(w.toc[PartHolding(w.toc, a.id.value)].id))
  {
    var a := ActiveOf(w);
    if Truthy(a.id) {
      PartHoldingFound(w.toc, a.id.value);
    }
  }

  // ---------------------------------------------------------------------
  // Import

  /** What the chosen backup file parses to: no file chosen, text that is not
      JSON, or an object with the workspace fields it has. */
  datatype ImportedFile =
    | NoFile
    | Malformed
    | Parsed(toc: Option<Toc>, fragments: Option<seq<Fragment>>, uiState: Option<UiState>, settings: Settings)

  datatype ImportOutcome = Replaced(workspace: WorkspaceState) | Unchanged | Rejected

  /** The import reader: a file with a table of contents, fragments and an
      interface state replaces the workspace if the user confirms; any other
      file is rejected with an error, and the workspace is kept. */
  function ImportResult(file: ImportedFile, confirmed: bool): (r: ImportOutcome)
    ensures r.Replaced? <==>
      file.Parsed? && file.toc.Some? && file.fragments.Some? && file.uiState.Some? && confirmed
    ensures r.Replaced? ==>
      r.workspace == WorkspaceState(file.toc.value, file.fragments.value, file.uiState.value, file.settings)
    ensures r.Rejected? <==>
      file.Malformed? || (file.Parsed? && (file.toc.None? || file.fragments.None? || file.uiState.None?))
  {
    match file
    case NoFile => Unchanged
    case Malformed => Rejected
    case Parsed(toc, fragments, ui, settings) =>
      if toc.Some? && fragments.Some? && ui.Some? then
        if confirmed then Replaced(WorkspaceState(toc.value, fragments.value, ui.value, settings)) else Unchanged
      else Rejected
  }
}
