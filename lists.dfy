/**
 * What `formatMessage` makes of a markdown bullet list: lines `- x` ended by
 * newlines. The line-break pass turns each newline into `<br>`, the list-item
 * pass (line 898) wraps items in `<li>`, the list pass (line 899) wraps the
 * items in `<ul>`, and the seam pass (line 900) joins adjacent lists.
 *
 * As written, the group of the list-item pattern `- (.+)<br>` is greedy and
 * `.` also matches `<`, `b`, `r` and `>`, so on a run of bullet lines the
 * first match reaches the last `<br>`: the whole list becomes ONE item, with
 * the later bullets left inside it as text. The lazy `- (.+?)<br>` stops at
 * the first `<br>` and gives one item per line, which is what the list pass
 * and the seam pass after it are written to expect.
 */
module Lists {
  import opened Text
  import opened Render
  import opened Wrappers

  // ---------------------------------------------------------------------------
  // Bullet lists and the texts the passes make of them

  /** The text of one bullet: non-empty, plain, and on one line. */
  predicate IsItem(x: string) {
    x != [] && Plain(x) && forall i | 0 <= i < |x| :: !IsLineTerminator(x[i])
  }

  predicate AllItems(xs: seq<string>) {
    forall i | 0 <= i < |xs| :: IsItem(xs[i])
  }

  /** The markdown list: one `- x` line per item, each ended by a newline. */
  function Bullets(xs: seq<string>): string {
    if xs == [] then [] else "- " + xs[0] + "\n" + Bullets(xs[1..])
  }

  /** The list after the line-break pass. */
  function BrokenLines(xs: seq<string>): string {
    if xs == [] then [] else "- " + xs[0] + "<br>" + BrokenLines(xs[1..])
  }

  /** One `<li>` element per item. */
  function ItemElements(xs: seq<string>): string {
    if xs == [] then [] else "<li>" + xs[0] + "</li>" + ItemElements(xs[1..])
  }

  /** The single item the greedy pattern captures: every item, the later ones
      still carrying their `<br>- ` prefix. */
  function Merged(xs: seq<string>): string
    requires |xs| >= 1
  {
    if |xs| == 1 then xs[0] else xs[0] + "<br>- " + Merged(xs[1..])
  }

  /** No line terminator anywhere in `s`. */
  predicate OneLine(s: string) {
    forall i | 0 <= i < |s| :: !IsLineTerminator(s[i])
  }

  /** Every `<` in `s` opens one of the tags `<li>`, `</li>` or `<br>`. */
  predicate TagsKnown(s: string) {
    forall p | 0 <= p < |s| && s[p] == '<' ::
      OccursAt(s, "<li>", p) || OccursAt(s, "</li>", p) || OccursAt(s, "<br>", p)
  }

  // ---------------------------------------------------------------------------
  // Facts about texts

  /** An occurrence in either part is an occurrence in the concatenation. */
  lemma OccursInConcat(a: string, b: string, k: string, p: int)
    ensures OccursAt(a, k, p) ==> OccursAt(a + b, k, p)
    ensures OccursAt(b, k, p) ==> OccursAt(a + b, k, |a| + p)
  {
    if OccursAt(a, k, p) {
      assert (a + b)[p..p + |k|] == a[p..p + |k|];
    }
    if OccursAt(b, k, p) {
      assert (a + b)[|a| + p..|a| + p + |k|] == b[p..p + |k|];
    }
  }

  lemma OneLineConcat(a: string, b: string)
    requires OneLine(a) && OneLine(b)
    ensures OneLine(a + b)
  {
    assert forall i | |a| <= i < |a| + |b| :: (a + b)[i] == b[i - |a|];
  }

  lemma TagsKnownConcat(a: string, b: string)
    requires TagsKnown(a) && TagsKnown(b)
    ensures TagsKnown(a + b)
  {
    forall p | 0 <= p < |a + b| && (a + b)[p] == '<'
      ensures OccursAt(a + b, "<li>", p) || OccursAt(a + b, "</li>", p) || OccursAt(a + b, "<br>", p)
    {
      if p < |a| {
        OccursInConcat(a, b, "<li>", p);
        OccursInConcat(a, b, "</li>", p);
        OccursInConcat(a, b, "<br>", p);
      } else {
        assert b[p - |a|] == '<';
        OccursInConcat(a, b, "<li>", p - |a|);
        OccursInConcat(a, b, "</li>", p - |a|);
        OccursInConcat(a, b, "<br>", p - |a|);
      }
    }
  }

  /** An item holds no `<`, so it opens no tag. */
  lemma ItemTagsKnown(x: string)
    requires IsItem(x)
    ensures TagsKnown(x) && OneLine(x)
  {
  }

  lemma TagTexts()
    ensures TagsKnown("<li>") && TagsKnown("</li>") && TagsKnown("<br>- ")
    ensures OneLine("<li>") && OneLine("</li>") && OneLine("<br>- ") && OneLine("- ") && OneLine("<br>")
  {
    assert OccursAt("<li>", "<li>", 0);
    assert OccursAt("</li>", "</li>", 0);
    assert "<br>- "[0..4] == "<br>";
  }

  /** The bullets hold no character outside `- `, the newline and the items. */
  lemma {:induction false} BulletsAvoid(xs: seq<string>, c: char)
    requires c != '-' && c != ' ' && c != '\n'
    requires forall i | 0 <= i < |xs| :: c !in xs[i]
    ensures c !in Bullets(xs)
  {
    if xs != [] {
      BulletsAvoid(xs[1..], c);
    }
  }

  /** After the line-break pass the list is `- `, the merged item and a final
      `<br>`. */
  lemma {:induction false} BrokenLinesMerged(xs: seq<string>)
    requires |xs| >= 1
    ensures BrokenLines(xs) == "- " + Merged(xs) + "<br>"
  {
    if |xs| > 1 {
      BrokenLinesMerged(xs[1..]);
      assert BrokenLines(xs[1..]) == "- " + Merged(xs[1..]) + "<br>";
      assert BrokenLines(xs) == "- " + (xs[0] + "<br>- " + Merged(xs[1..])) + "<br>";
    } else {
      assert BrokenLines(xs[1..]) == [];
    }
  }

  lemma {:induction false} MergedShape(xs: seq<string>)
    requires |xs| >= 1 && AllItems(xs)
    ensures OneLine(Merged(xs)) && TagsKnown(Merged(xs)) && |Merged(xs)| >= 1
  {
    ItemTagsKnown(xs[0]);
    if |xs| > 1 {
      MergedShape(xs[1..]);
      TagTexts();
      OneLineConcat(xs[0], "<br>- ");
      OneLineConcat(xs[0] + "<br>- ", Merged(xs[1..]));
      TagsKnownConcat(xs[0], "<br>- ");
      TagsKnownConcat(xs[0] + "<br>- ", Merged(xs[1..]));
    }
  }

  lemma {:induction false} ItemElementsShape(xs: seq<string>)
    requires AllItems(xs)
    ensures OneLine(ItemElements(xs)) && TagsKnown(ItemElements(xs))
  {
    if xs != [] {
      ItemElementsShape(xs[1..]);
      ItemTagsKnown(xs[0]);
      TagTexts();
      var e := "<li>" + xs[0] + "</li>";
      OneLineConcat("<li>", xs[0]);
      OneLineConcat("<li>" + xs[0], "</li>");
      OneLineConcat(e, ItemElements(xs[1..]));
      TagsKnownConcat("<li>", xs[0]);
      TagsKnownConcat("<li>" + xs[0], "</li>");
      TagsKnownConcat(e, ItemElements(xs[1..]));
    }
  }

  // ---------------------------------------------------------------------------
  // The passes on these texts

  /** A one-character pattern matches exactly where its character stands. */
  lemma CharMatch(p: Pass, s: string)
    requires p.Literal? && |p.pat| == 1 && s != []
    ensures MatchAt(p, s) == if s[0] == p.pat[0] then Some(Hit(1, 0, 0)) else None
  {
    assert s[..1] == [s[0]];
    assert p.pat == [p.pat[0]];
  }

  /** What a one-character pattern `p` leaves of the character `c`. */
  function CharImage(p: Pass, c: char): string
    requires p.Literal? && |p.pat| == 1
  {
    if c == p.pat[0] then p.rep else [c]
  }

  /** The pass of a one-character pattern, character by character. */
  function MapChars(p: Pass, s: string): string
    requires p.Literal? && |p.pat| == 1
  {
    if s == [] then [] else CharImage(p, s[0]) + MapChars(p, s[1..])
  }

  /** Mapping characters one by one respects concatenation. */
  lemma {:induction false} MapCharsConcat(p: Pass, a: string, b: string)
    requires p.Literal? && |p.pat| == 1
    ensures MapChars(p, a + b) == MapChars(p, a) + MapChars(p, b)
  {
    if a == [] {
      assert a + b == b;
    } else {
      MapCharsConcat(p, a[1..], b);
      assert (a + b)[0] == a[0] && (a + b)[1..] == a[1..] + b;
    }
  }

  /** A one-character pattern is replaced wherever its character stands and
      nowhere else. */
  lemma {:induction false} ReplaceCharIsMap(p: Pass, s: string)
    requires p.Literal? && |p.pat| == 1
    ensures ReplaceAll(p, s) == MapChars(p, s)
    decreases |s|
  {
    if s != [] {
      ReplaceCharIsMap(p, s[1..]);
      CharMatch(p, s);
      if s[0] == p.pat[0] {
        ReplaceStep(p, s, Hit(1, 0, 0));
        assert s[0..0] == [];
      } else {
        ReplaceSkip(p, s);
      }
    }
  }

  /** A one-character pattern never spans a seam, so its pass `p` works on
      the parts of a concatenation separately. */
  lemma ReplaceCharConcat(p: Pass, a: string, b: string)
    requires p.Literal? && |p.pat| == 1
    ensures ReplaceAll(p, a + b) == ReplaceAll(p, a) + ReplaceAll(p, b)
  {
    ReplaceCharIsMap(p, a + b);
    ReplaceCharIsMap(p, a);
    ReplaceCharIsMap(p, b);
    MapCharsConcat(p, a, b);
  }

  /** The line-break pass turns a newline into `<br>`. */
  lemma BreakOnNewline()
    ensures ReplaceAll(Breaks, "\n") == "<br>"
  {
    ReplaceStep(Breaks, "\n", Hit(1, 0, 0));
    assert "\n"[1..] == [];
  }

  /** The line-break pass on one bullet line. */
  lemma BreaksOnLine(line: string, x: string)
    requires IsItem(x) && line == "- " + x + "\n"
    ensures ReplaceAll(Breaks, line) == "- " + x + "<br>"
  {
    assert '\n' !in x by {
      assert Plain(x);
    }
    ReplaceUnmarked(Breaks, "- ", '\n');
    ReplaceUnmarked(Breaks, x, '\n');
    BreakOnNewline();
    ReplaceCharConcat(Breaks, "- ", x);
    ReplaceCharConcat(Breaks, "- " + x, "\n");
  }

  /** The line-break pass turns the bullets' newlines into `<br>`. */
  lemma {:induction false} BreaksOnBullets(xs: seq<string>)
    requires AllItems(xs)
    ensures ReplaceAll(Breaks, Bullets(xs)) == BrokenLines(xs)
  {
    if xs != [] {
      BreaksOnBullets(xs[1..]);
      BreaksOnLine("- " + xs[0] + "\n", xs[0]);
      ReplaceCharConcat(Breaks, "- " + xs[0] + "\n", Bullets(xs[1..]));
    }
  }

  /** On a one-line text that starts with `open` and ends with `close`,
      the greedy `open(.+)close` matches all of it. */
  lemma GreedyMatchWhole(open: string, close: string, s: string)
    requires |open| + 1 + |close| <= |s|
    requires OccursAt(s, open, 0) && OccursAt(s, close, |s| - |close|) && OneLine(s)
    ensures MatchLine(open, close, false, s) == Some(Hit(|s|, |open|, |s| - |close|))
  {
    var k := |s| - |close| - |open|;
    assert LineAt(s, open, close, k);
    var h := MatchLine(open, close, false, s).value;
    var found := h.to - h.from;
    assert LineAt(s, open, close, found);
    assert found <= k;
    assert found >= k;
  }

  /** A greedy `open(.+)close` pass `p` on a one-line text that starts with
      `open` and ends with `close` makes one match of all of it. */
  lemma GreedyWhole(p: Pass, s: string)
    requires p.Line? && !p.lazy && |p.open| + 1 + |p.close| <= |s|
    requires OccursAt(s, p.open, 0) && OccursAt(s, p.close, |s| - |p.close|) && OneLine(s)
    ensures ReplaceAll(p, s) == p.before + s[|p.open|..|s| - |p.close|] + p.after
  {
    var h := Hit(|s|, |p.open|, |s| - |p.close|);
    GreedyMatchWhole(p.open, p.close, s);
    ReplaceStep(p, s, h);
    assert s[h.len..] == [];
  }

  /** One step of a global replacement: a match at the start is replaced,
      and the scan goes on after it. */
  lemma ReplaceStep(p: Pass, s: string, h: Hit)
    requires s != [] && MatchAt(p, s) == Some(h)
    ensures h.from <= h.to <= h.len <= |s|
    ensures ReplaceAll(p, s) == Before(p) + s[h.from..h.to] + After(p) + ReplaceAll(p, s[h.len..])
  {
  }

  /** Where no match starts, a global replacement keeps the character and
      goes on with the next. */
  lemma ReplaceSkip(p: Pass, s: string)
    requires s != [] && MatchAt(p, s).None?
    ensures ReplaceAll(p, s) == [s[0]] + ReplaceAll(p, s[1..])
  {
  }

  /** The lazy `- (.+?)<br>` matches a bullet line up to its own `<br>`. */
  lemma LazyMatch(s: string, x: string, rest: string)
    requires IsItem(x) && s == "- " + x + "<br>" + rest
    ensures MatchLine("- ", "<br>", true, s) == Some(Hit(6 + |x|, 2, 2 + |x|))
  {
    assert s[..2] == "- ";
    assert s[2 + |x|..6 + |x|] == "<br>";
    assert forall i | 2 <= i < 2 + |x| :: s[i] == x[i - 2];
    assert LineAt(s, "- ", "<br>", |x|);
    var h := MatchLine("- ", "<br>", true, s).value;
    var k := h.to - h.from;
    assert s[2 + k..2 + k + 4][0] == '<';
    assert k == |x|;
  }

  /** The lazy list-item pass turns the first bullet line into one item
      and goes on after its `<br>`. */
  lemma LazyStep(s: string, x: string, rest: string)
    requires IsItem(x) && s == "- " + x + "<br>" + rest
    ensures ReplaceAll(LazyItems, s) == "<li>" + x + "</li>" + ReplaceAll(LazyItems, rest)
  {
    var h := Hit(6 + |x|, 2, 2 + |x|);
    LazyMatch(s, x, rest);
    ReplaceStep(LazyItems, s, h);
    assert s[2..2 + |x|] == x;
    assert s[6 + |x|..] == rest;
  }

  /** The lazy list-item pass makes one `<li>` element per bullet line. */
  lemma {:induction false} LazyItemsOnLines(xs: seq<string>)
    requires AllItems(xs)
    ensures ReplaceAll(LazyItems, BrokenLines(xs)) == ItemElements(xs)
  {
    if xs != [] {
      LazyStep(BrokenLines(xs), xs[0], BrokenLines(xs[1..]));
      LazyItemsOnLines(xs[1..]);
    }
  }

  /** A literal pass leaves a text with no occurrence of its pattern alone. */
  lemma {:induction false} ReplaceAbsent(pat: string, rep: string, s: string)
    requires forall i :: !OccursAt(s, pat, i)
    ensures ReplaceAll(Literal(pat, rep), s) == s
  {
    if s != [] {
      forall i ensures !OccursAt(s[1..], pat, i) {
        if OccursAt(s[1..], pat, i) {
          assert s[1..][i..i + |pat|] == s[i + 1..i + 1 + |pat|];
          assert OccursAt(s, pat, i + 1);
        }
      }
      ReplaceAbsent(pat, rep, s[1..]);
      assert [s[0]] + s[1..] == s;
    }
  }

  /** A list around text whose tags are all items and breaks has no seam
      `</ul><ul>` in it. */
  lemma NoSeam(inner: string)
    requires TagsKnown(inner)
    ensures forall i :: !OccursAt("<ul>" + inner + "</ul>", "</ul><ul>", i)
  {
    var s := "<ul>" + inner + "</ul>";
    forall i ensures !OccursAt(s, "</ul><ul>", i) {
      if 0 <= i && i + 9 <= |s| {
        var m := s[i..i + 9];
        assert m[0] == s[i] && m[1] == s[i + 1] && m[2] == s[i + 2];
        if s[i] == '<' && s[i + 1] == '/' {
          assert s[..4] == "<ul>";
          assert i >= 4;
          var p := i - 4;
          assert inner[p] == '<' && inner[p + 1] == '/';
          if p + 4 <= |inner| {
            assert inner[p..p + 4][1] == inner[p + 1];
          }
          assert !OccursAt(inner, "<li>", p) && !OccursAt(inner, "<br>", p);
          assert OccursAt(inner, "</li>", p);
          assert inner[p + 2] == inner[p..p + 5][2];
          assert s[i + 2] == inner[p + 2];
        }
      }
    }
  }

  /** A one-line text between `- ` and `<br>` is one line, and the text
      is what lies between them. */
  lemma LineShape(m: string)
    requires OneLine(m) && |m| >= 1
    ensures var lines := "- " + m + "<br>";
      OccursAt(lines, "- ", 0) && OccursAt(lines, "<br>", |lines| - 4) && OneLine(lines)
      && lines[2..|lines| - 4] == m
  {
    var lines := "- " + m + "<br>";
    assert lines[..2] == "- ";
    assert lines[|lines| - 4..] == "<br>";
    forall i | 0 <= i < |lines| ensures !IsLineTerminator(lines[i]) {
      if 2 <= i < 2 + |m| {
        assert lines[i] == m[i - 2];
      }
    }
    assert lines[2..|lines| - 4] == m;
  }

  /** The greedy list-item pass on one-line text between `- ` and `<br>`
      makes a single item of all of it. */
  lemma GreedyItemsWhole(lines: string, m: string)
    requires OneLine(m) && |m| >= 1 && lines == "- " + m + "<br>"
    ensures ReplaceAll(Items, lines) == "<li>" + m + "</li>"
  {
    LineShape(m);
    GreedyWhole(Items, lines);
  }

  /** An item element around one-line text with known tags. */
  lemma ElementShape(m: string)
    requires OneLine(m) && TagsKnown(m) && |m| >= 1
    ensures var t := "<li>" + m + "</li>";
      OneLine(t) && TagsKnown(t) && |t| >= 10 && OccursAt(t, "<li>", 0) && OccursAt(t, "</li>", |t| - 5)
  {
    var t := "<li>" + m + "</li>";
    TagTexts();
    OneLineConcat("<li>", m);
    OneLineConcat("<li>" + m, "</li>");
    TagsKnownConcat("<li>", m);
    TagsKnownConcat("<li>" + m, "</li>");
    assert t[..4] == "<li>" && t[|t| - 5..] == "</li>";
  }

  /** A text from `<li>` to `</li>` is those tags around what lies between. */
  lemma ElementSplit(t: string)
    requires |t| >= 9 && OccursAt(t, "<li>", 0) && OccursAt(t, "</li>", |t| - 5)
    ensures t == "<li>" + t[4..|t| - 5] + "</li>"
    ensures "<ul><li>" + t[4..|t| - 5] + "</li></ul>" == "<ul>" + t + "</ul>"
  {
    assert t == t[..4] + t[4..|t| - 5] + t[|t| - 5..];
  }

  /** The list pass wraps one-line text from the first `<li>` to the last
      `</li>` in a single list. */
  lemma ListsWhole(t: string)
    requires OneLine(t) && |t| >= 10 && OccursAt(t, "<li>", 0) && OccursAt(t, "</li>", |t| - 5)
    ensures ReplaceAll(ListPass, t) == "<ul>" + t + "</ul>"
  {
    GreedyWhole(ListPass, t);
    ElementSplit(t);
  }

  /** The seam pass leaves one list alone. */
  lemma SeamsNone(t: string)
    requires TagsKnown(t)
    ensures ReplaceAll(ListSeams, "<ul>" + t + "</ul>") == "<ul>" + t + "</ul>"
  {
    NoSeam(t);
    ReplaceAbsent("</ul><ul>", "", "<ul>" + t + "</ul>");
  }

  // ---------------------------------------------------------------------------
  // The whole of `formatMessage` on a bullet list

  /** The first four passes turn the bullets into `<br>`-ended lines. */
  lemma EarlyPassesOnBullets(xs: seq<string>)
    requires AllItems(xs)
    ensures ReplaceAll(Breaks, ReplaceAll(BoldText, ReplaceAll(InlineCodes, ReplaceAll(CodeBlocks, Bullets(xs)))))
         == BrokenLines(xs)
  {
    forall i | 0 <= i < |xs| ensures '`' !in xs[i] && '*' !in xs[i] {
      assert Plain(xs[i]);
    }
    BulletsAvoid(xs, '`');
    BulletsAvoid(xs, '*');
    ReplaceUnmarked(CodeBlocks, Bullets(xs), '`');
    ReplaceUnmarked(InlineCodes, Bullets(xs), '`');
    ReplaceUnmarked(BoldText, Bullets(xs), '*');
    BreaksOnBullets(xs);
  }

  /** The seven passes, chained through the texts each one produces. */
  lemma RenderThrough(items: Pass, s: string, lines: string, elements: string, list: string)
    requires ReplaceAll(Breaks, ReplaceAll(BoldText, ReplaceAll(InlineCodes, ReplaceAll(CodeBlocks, s)))) == lines
    requires ReplaceAll(items, lines) == elements
    requires ReplaceAll(ListPass, elements) == list
    requires ReplaceAll(ListSeams, list) == list
    ensures Passes(items, s) == list
  {
  }

  /** The last three passes on the bullets as written: one item holding all
      of them, in one list. */
  lemma MergedPasses(xs: seq<string>, t: string)
    requires |xs| >= 1 && AllItems(xs) && t == "<li>" + Merged(xs) + "</li>"
    ensures ReplaceAll(Items, BrokenLines(xs)) == t
    ensures ReplaceAll(ListPass, t) == "<ul>" + t + "</ul>"
    ensures ReplaceAll(ListSeams, "<ul>" + t + "</ul>") == "<ul>" + t + "</ul>"
  {
    var m := Merged(xs);
    BrokenLinesMerged(xs);
    MergedShape(xs);
    GreedyItemsWhole(BrokenLines(xs), m);
    ElementShape(m);
    ListsWhole(t);
    SeamsNone(t);
  }

  /** As written, `formatMessage` turns a bullet list into a list of ONE
      item holding every bullet: from the second on, each is left in the item
      as `<br>- ` and its text. */
  lemma FormatMessageMergesList(xs: seq<string>)
    requires |xs| >= 1 && AllItems(xs)
    ensures FormatMessage(Bullets(xs)) == "<ul>" + ("<li>" + Merged(xs) + "</li>") + "</ul>"
  {
    var t := "<li>" + Merged(xs) + "</li>";
    EarlyPassesOnBullets(xs);
    MergedPasses(xs, t);
    RenderThrough(Items, Bullets(xs), BrokenLines(xs), t, "<ul>" + t + "</ul>");
  }

  /** With the lazy list-item pattern, `formatMessage` turns a bullet list
      into one list with one item per bullet. */
  lemma FormatMessageCorrectedList(xs: seq<string>)
    requires |xs| >= 1 && AllItems(xs)
    ensures FormatMessageCorrected(Bullets(xs)) == "<ul>" + ItemElements(xs) + "</ul>"
  {
    var e := ItemElements(xs);
    EarlyPassesOnBullets(xs);
    LazyItemsOnLines(xs);
    ItemElementsShape(xs);
    LastElement(xs);
    ListsWhole(e);
    SeamsNone(e);
    RenderThrough(LazyItems, Bullets(xs), BrokenLines(xs), e, "<ul>" + e + "</ul>");
  }

  /** The item elements of a non-empty list start with `<li>`, end with
      `</li>` and are long enough to hold a whole element. */
  lemma {:induction false} LastElement(xs: seq<string>)
    requires |xs| >= 1 && AllItems(xs)
    ensures |ItemElements(xs)| >= 10
    ensures OccursAt(ItemElements(xs), "<li>", 0)
    ensures OccursAt(ItemElements(xs), "</li>", |ItemElements(xs)| - 5)
  {
    var e := "<li>" + xs[0] + "</li>";
    assert e[..4] == "<li>";
    if |xs| == 1 {
      assert ItemElements(xs[1..]) == [];
      assert ItemElements(xs) == e;
      assert e[|e| - 5..] == "</li>";
    } else {
      LastElement(xs[1..]);
      OccursInConcat(e, ItemElements(xs[1..]), "<li>", 0);
      OccursInConcat(e, ItemElements(xs[1..]), "</li>", |ItemElements(xs[1..])| - 5);
    }
  }

  /** Two bullets `a` and `b`, as written: they become one item `a<br>- b`. */
  lemma TwoBulletsMerged()
    ensures FormatMessage("- a\n- b\n") == "<ul><li>a<br>- b</li></ul>"
  {
    var xs := ["a", "b"];
    TwoBulletsText();
    FormatMessageMergesList(xs);
    assert Merged(xs) == "a" + "<br>- " + "b";
    MergedText();
  }

  lemma MergedText()
    ensures "<ul>" + ("<li>" + ("a" + "<br>- " + "b") + "</li>") + "</ul>" == "<ul><li>a<br>- b</li></ul>"
  {
    assert "a" + "<br>- " + "b" == "a<br>- b";
    assert "<li>" + "a<br>- b" + "</li>" == "<li>a<br>- b</li>";
  }

  /** Two bullets `a` and `b`, with the lazy pattern: they become the items
      `a` and `b`. */
  lemma TwoBulletsCorrected()
    ensures FormatMessageCorrected("- a\n- b\n") == "<ul><li>a</li><li>b</li></ul>"
  {
    var xs := ["a", "b"];
    TwoBulletsText();
    FormatMessageCorrectedList(xs);
    assert ItemElements(xs[1..][1..]) == [];
    assert ItemElements(xs) == "<li>" + "a" + "</li>" + ("<li>" + "b" + "</li>" + []);
    ElementsText();
  }

  lemma ElementsText()
    ensures "<ul>" + ("<li>" + "a" + "</li>" + ("<li>" + "b" + "</li>" + [])) + "</ul>" == "<ul><li>a</li><li>b</li></ul>"
  {
    assert "<li>" + "a" + "</li>" == "<li>a</li>";
    assert "<li>" + "b" + "</li>" + [] == "<li>b</li>";
    assert "<li>a</li>" + "<li>b</li>" == "<li>a</li><li>b</li>";
  }

  /** The two bullets are items, and their markdown is `- a`, `- b`. */
  lemma TwoBulletsText()
    ensures AllItems(["a", "b"]) && Bullets(["a", "b"]) == "- a\n- b\n"
  {
    var xs := ["a", "b"];
    assert IsItem(xs[0]) && IsItem(xs[1]);
    assert Bullets(xs[1..][1..]) == [];
    assert Bullets(xs) == "- " + "a" + "\n" + ("- " + "b" + "\n" + []);
  }
}
