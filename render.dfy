/**
 * `formatMessage`: the reply text is turned into HTML by seven global
 * regular-expression replacements applied one after the other (fenced code
 * blocks, inline code, bold, line breaks, list items, lists, and the seams
 * between adjacent lists).
 *
 * A global replacement scans the text from the left: where a match of the
 * pattern starts, the match is replaced and the scan resumes after it;
 * elsewhere the character is kept. Each pattern is matched here by a
 * function written out from the regular expression's own semantics
 * (leftmost match, greedy and lazy quantifiers with backtracking), and the
 * matchers' contracts and the `...Spec` lemmas state that semantics.
 */
module Render {
  import opened Text
  import opened Wrappers
  import opened KnowledgeBase

  // ---------------------------------------------------------------------------
  // Character classes and runs

  /** `\w`: an ASCII letter or digit, or `_`. */
  predicate IsWordChar(c: char) {
    'a' <= c <= 'z' || 'A' <= c <= 'Z' || '0' <= c <= '9' || c == '_'
  }

  /** The two classes a greedy quantifier runs over: `\w`, and `.`, which
      matches every character but a line terminator. */
  datatype Class = Word | AnyButLineTerminator

  predicate InClass(cl: Class, c: char) {
    match cl
    case Word => IsWordChar(c)
    case AnyButLineTerminator => !IsLineTerminator(c)
  }

  /** The length of the longest run of characters of class `cl` starting at
      index `i`: how far a greedy `\w+` or `.+` reaches before it backtracks. */
  function Run(s: string, i: nat, cl: Class): (n: nat)
    requires i <= |s|
    ensures i + n <= |s|
    ensures forall j :: i <= j < i + n ==> InClass(cl, s[j])
    ensures i + n == |s| || !InClass(cl, s[i + n])
    decreases |s| - i
  {
    if i < |s| && InClass(cl, s[i]) then 1 + Run(s, i + 1, cl) else 0
  }

  /** The first index at or after `from` where `k` occurs in `s`. */
  function IndexOf(s: string, k: string, from: nat): (r: Option<nat>)
    ensures r.Some? ==> from <= r.value && OccursAt(s, k, r.value)
    ensures r.Some? ==> forall i :: from <= i < r.value ==> !OccursAt(s, k, i)
    ensures r.None? ==> forall i :: from <= i ==> !OccursAt(s, k, i)
    decreases |s| - from
  {
    if |s| < from + |k| then None
    else if OccursAt(s, k, from) then Some(from)
    else IndexOf(s, k, from + 1)
  }

  /** The last index in `[lo, hi]` where `k` occurs in `s`. */
  function LastIndexOf(s: string, k: string, lo: nat, hi: int): (r: Option<nat>)
    ensures r.Some? ==> lo <= r.value <= hi && OccursAt(s, k, r.value)
    ensures r.Some? ==> forall i :: r.value < i <= hi ==> !OccursAt(s, k, i)
    ensures r.None? ==> forall i :: lo <= i <= hi ==> !OccursAt(s, k, i)
    decreases hi - lo
  {
    if hi < lo then None
    else if OccursAt(s, k, hi) then Some(hi)
    else LastIndexOf(s, k, lo, hi - 1)
  }

  // ---------------------------------------------------------------------------
  // The patterns

  /** One replace pass of `formatMessage`, by the shape of its pattern.
      `Literal(pat, rep)` replaces the text `pat` by `rep`;
      `Line(open, close, before, after, lazy)` is `open(.+)close` (or
      `open(.+?)close` when `lazy`) replaced by `before$1after`. */
  datatype Pass =
    | CodeBlock
    | InlineCode
    | Bold
    | Literal(pat: string, rep: string)
    | Line(open: string, close: string, before: string, after: string, lazy: bool)

  /** Line 886: a fenced code block, with an optional language name. */
  const CodeBlocks: Pass := CodeBlock
  /** Line 889: inline code. */
  const InlineCodes: Pass := InlineCode
  /** Line 892: bold text. */
  const BoldText: Pass := Bold
  /** Line 895: every newline becomes a line break. */
  const Breaks: Pass := Literal("\n", "<br>")
  /** Line 898, as written: `- (.+)<br>`, with a greedy group. */
  const Items: Pass := Line("- ", "<br>", "<li>", "</li>", false)
  /** Line 898 with a lazy group, `- (.+?)<br>`: one item per line. */
  const LazyItems: Pass := Line("- ", "<br>", "<li>", "</li>", true)
  /** Line 899: a run of items becomes a list. */
  const ListPass: Pass := Line("<li>", "</li>", "<ul><li>", "</li></ul>", false)
  /** Line 900: adjacent lists are merged. */
  const ListSeams: Pass := Literal("</ul><ul>", "")

  /** The text a replacement puts before the captured group. */
  function Before(p: Pass): string {
    match p
    case CodeBlock => "<pre><code>"
    case InlineCode => "<code>"
    case Bold => "<strong>"
    case Literal(_, rep) => rep
    case Line(_, _, before, _, _) => before
  }

  /** The text a replacement puts after the captured group. */
  function After(p: Pass): string {
    match p
    case CodeBlock => "</code></pre>"
    case InlineCode => "</code>"
    case Bold => "</strong>"
    case Literal(_, _) => ""
    case Line(_, _, _, after, _) => after
  }

  /** A match at the start of the remaining text: it spans `len` characters
      and its captured group is the slice `[from, to)`. */
  datatype Hit = Hit(len: nat, from: nat, to: nat)

  /** A match that consumes at least one character and lies within `s`. */
  predicate Fits(h: Hit, s: string) {
    0 < h.len <= |s| && h.from <= h.to <= h.len
  }

  /** A fenced code block at the start of `s` whose language name has `w`
      characters and whose body ends at the fence at `j`: the first fence
      after the newline. */
  predicate FenceAt(s: string, w: nat, j: nat) {
    OccursAt(s, "```", 0) && 3 + w < |s|
    && (forall i :: 3 <= i < 3 + w ==> IsWordChar(s[i])) && s[3 + w] == '\n'
    && 4 + w <= j && OccursAt(s, "```", j)
    && forall i :: 4 + w <= i < j ==> !OccursAt(s, "```", i)
  }

  /** ```` ```(\w+)?\n([\s\S]*?)``` ````: a fence, a run of word characters
      ended by a newline, and the shortest body up to the next fence. It
      matches exactly the fenced blocks, capturing the body. */
  function MatchCodeBlock(s: string): (h: Option<Hit>)
    ensures h.Some? ==> Fits(h.value, s)
    ensures h.Some? ==> 4 <= h.value.from && FenceAt(s, h.value.from - 4, h.value.to) && h.value.len == h.value.to + 3
    ensures h.None? ==> forall w: nat, j: nat :: !FenceAt(s, w, j)
  {
    if !OccursAt(s, "```", 0) then None
    else
      var w := Run(s, 3, Word);
      if 3 + w < |s| && s[3 + w] == '\n' then
        match IndexOf(s, "```", 4 + w)
        case Some(j) => Some(Hit(j + 3, 4 + w, j))
        case None => None
      else None
  }

  /** `` `([^`]+)` ``: a backtick, a non-empty run without backticks, and the
      next backtick. */
  function MatchInlineCode(s: string): (h: Option<Hit>)
    ensures h.Some? ==> Fits(h.value, s)
  {
    if s == [] || s[0] != '`' then None
    else
      match IndexOf(s, "`", 1)
      case Some(q) => if 2 <= q then Some(Hit(q + 1, 1, q)) else None
      case None => None
  }

  /** `\*\*([^*]+)\*\*`: two stars, a non-empty run without stars, and two
      stars. */
  function MatchBold(s: string): (h: Option<Hit>)
    ensures h.Some? ==> Fits(h.value, s)
  {
    if !OccursAt(s, "**", 0) then None
    else
      match IndexOf(s, "*", 2)
      case Some(q) => if 3 <= q && OccursAt(s, "**", q) then Some(Hit(q + 2, 2, q)) else None
      case None => None
  }

  /** A fixed text, captured as nothing. */
  function MatchLiteral(pat: string, s: string): (h: Option<Hit>)
    ensures h.Some? ==> Fits(h.value, s)
  {
    if pat != [] && OccursAt(s, pat, 0) then Some(Hit(|pat|, 0, 0)) else None
  }

  /** `open(.+)close` matches `s` with a group of `k` characters. */
  predicate LineAt(s: string, open: string, close: string, k: nat) {
    OccursAt(s, open, 0) && 1 <= k && |open| + k <= |s|
    && (forall i :: |open| <= i < |open| + k ==> !IsLineTerminator(s[i]))
    && OccursAt(s, close, |open| + k)
  }

  /** `open(.+)close`, or `open(.+?)close`: the group runs over characters
      other than line terminators; greedy, it backtracks from the end of that
      run to the last `close`, so the group is the longest possible; lazy, it
      stops at the first, so the group is the shortest possible. */
  function MatchLine(open: string, close: string, lazy: bool, s: string): (h: Option<Hit>)
    ensures h.Some? ==> Fits(h.value, s)
    ensures h.Some? ==> h.value.from == |open| && h.value.len == h.value.to + |close|
    ensures h.Some? ==> LineAt(s, open, close, h.value.to - h.value.from)
    ensures h.Some? && lazy ==> forall k: nat :: k < h.value.to - h.value.from ==> !LineAt(s, open, close, k)
    ensures h.Some? && !lazy ==> forall k: nat :: k > h.value.to - h.value.from ==> !LineAt(s, open, close, k)
    ensures h.None? ==> forall k: nat :: !LineAt(s, open, close, k)
  {
    if !OccursAt(s, open, 0) then None
    else
      var o := |open|;
      var r := Run(s, o, AnyButLineTerminator);
      var found := if lazy then IndexOf(s, close, o + 1) else LastIndexOf(s, close, o + 1, o + r);
      match found
      case Some(j) => if j <= o + r then Some(Hit(j + |close|, o, j)) else None
      case None => None
  }

  /** The match of pass `p` at the start of `s`, if there is one. */
  function MatchAt(p: Pass, s: string): (h: Option<Hit>)
    ensures h.Some? ==> Fits(h.value, s)
  {
    match p
    case CodeBlock => MatchCodeBlock(s)
    case InlineCode => MatchInlineCode(s)
    case Bold => MatchBold(s)
    case Literal(pat, _) => MatchLiteral(pat, s)
    case Line(open, close, _, _, lazy) => MatchLine(open, close, lazy, s)
  }

  /** `s.replace(pattern, replacement)` with a global pattern. */
  function ReplaceAll(p: Pass, s: string): string
    decreases |s|
  {
    if s == [] then []
    else
      match MatchAt(p, s)
      case Some(h) => Before(p) + s[h.from..h.to] + After(p) + ReplaceAll(p, s[h.len..])
      case None => [s[0]] + ReplaceAll(p, s[1..])
  }

  /** The seven passes in order, with `items` as the list-item pass. */
  function Passes(items: Pass, s: string): string {
    var code := ReplaceAll(InlineCodes, ReplaceAll(CodeBlocks, s));
    var bold := ReplaceAll(BoldText, code);
    var lines := ReplaceAll(Breaks, bold);
    ReplaceAll(ListSeams, ReplaceAll(ListPass, ReplaceAll(items, lines)))
  }

  /** `formatMessage(content)`, as written. */
  function FormatMessage(content: string): string {
    Passes(Items, content)
  }

  /** `formatMessage(content)` with one list item per line. */
  function FormatMessageCorrected(content: string): string {
    Passes(LazyItems, content)
  }

  // ---------------------------------------------------------------------------
  // What each pattern matches

  /** A one-character text occurs exactly where that character stands. */
  lemma OccursAtChar(s: string, c: char, i: int)
    ensures OccursAt(s, [c], i) <==> 0 <= i < |s| && s[i] == c
  {
    if 0 <= i < |s| {
      assert s[i..i + 1] == [s[i]];
    }
  }

  /** Inline code at the start of `s`, closed by the backtick at `q`. */
  predicate CodeSpanAt(s: string, q: nat) {
    2 <= q < |s| && s[0] == '`' && s[q] == '`'
    && forall i :: 1 <= i < q ==> s[i] != '`'
  }

  /** The inline-code pattern matches exactly a backtick, a non-empty run
      without backticks and the backtick that ends it, capturing the run. */
  lemma InlineCodeSpec(s: string)
    ensures MatchInlineCode(s).Some? ==>
      var h := MatchInlineCode(s).value;
      h.from == 1 && CodeSpanAt(s, h.to) && h.len == h.to + 1
    ensures MatchInlineCode(s).None? ==> forall q: nat :: !CodeSpanAt(s, q)
  {
    if s != [] && s[0] == '`' {
      var r := IndexOf(s, "`", 1);
      forall i | 1 <= i ensures OccursAt(s, "`", i) <==> i < |s| && s[i] == '`' {
        OccursAtChar(s, '`', i);
      }
      forall q: nat | CodeSpanAt(s, q) ensures r == Some(q) {
      }
    }
  }

  /** Bold text at the start of `s`, closed by the two stars at `q`. */
  predicate BoldAt(s: string, q: nat) {
    3 <= q && OccursAt(s, "**", 0) && OccursAt(s, "**", q)
    && forall i :: 2 <= i < q ==> s[i] != '*'
  }

  /** The bold pattern matches exactly two stars, a non-empty run without
      stars and the two stars that end it, capturing the run. */
  lemma BoldSpec(s: string)
    ensures MatchBold(s).Some? ==>
      var h := MatchBold(s).value;
      h.from == 2 && BoldAt(s, h.to) && h.len == h.to + 2
    ensures MatchBold(s).None? ==> forall q: nat :: !BoldAt(s, q)
  {
    if OccursAt(s, "**", 0) {
      var r := IndexOf(s, "*", 2);
      forall i | 2 <= i ensures OccursAt(s, "*", i) <==> i < |s| && s[i] == '*' {
        OccursAtChar(s, '*', i);
      }
      forall q: nat | BoldAt(s, q) ensures r == Some(q) {
        assert s[q] == s[q..q + 2][0];
      }
    }
  }


  // ---------------------------------------------------------------------------
  // Text a pass leaves alone

  /** Every match of pass `p` holds the character `c`. */
  predicate Marks(p: Pass, c: char) {
    match p
    case CodeBlock => c == '`'
    case InlineCode => c == '`'
    case Bold => c == '*'
    case Literal(pat, _) => c in pat
    case Line(_, close, _, _, _) => c in close
  }

  /** A match of `p` holds each character that marks `p`. */
  lemma MatchMarked(p: Pass, s: string, c: char)
    requires Marks(p, c) && MatchAt(p, s).Some?
    ensures c in s[..MatchAt(p, s).value.len]
  {
    var h := MatchAt(p, s).value;
    match p
    case CodeBlock =>
      assert s[0] == s[..3][0];
    case InlineCode =>
    case Bold =>
      assert s[0] == s[..2][0];
    case Literal(pat, _) =>
      assert s[..h.len] == pat;
    case Line(open, close, _, _, lazy) =>
      assert s[h.to..h.len] == close;
      assert s[h.to..h.len] == s[..h.len][h.to..];
  }

  /** A pass leaves unchanged a text without a character that marks it. */
  lemma {:induction false} ReplaceUnmarked(p: Pass, s: string, c: char)
    requires Marks(p, c) && c !in s
    ensures ReplaceAll(p, s) == s
  {
    if s != [] {
      if MatchAt(p, s).Some? {
        MatchMarked(p, s, c);
        assert false;
      }
      ReplaceUnmarked(p, s[1..], c);
      assert [s[0]] + s[1..] == s;
    }
  }

  /** A pass adds a character only through its replacement text: the group
      it re-inserts is taken from the input. */
  lemma {:induction false} ReplaceKeepsOut(p: Pass, s: string, c: char)
    requires c !in s && c !in Before(p) && c !in After(p)
    ensures c !in ReplaceAll(p, s)
  {
    if s != [] {
      match MatchAt(p, s)
      case Some(h) =>
        assert forall i :: h.from <= i < h.to ==> s[h.from..h.to][i - h.from] == s[i];
        ReplaceKeepsOut(p, s[h.len..], c);
      case None =>
        ReplaceKeepsOut(p, s[1..], c);
    }
  }

  /** Replacing one character by a text without it removes every occurrence. */
  lemma {:induction false} ReplaceRemovesChar(c: char, rep: string, s: string)
    requires c !in rep
    ensures c !in ReplaceAll(Literal([c], rep), s)
  {
    if s != [] {
      OccursAtChar(s, c, 0);
      ReplaceRemovesChar(c, rep, s[1..]);
    }
  }

  /** Text without backticks, stars, newlines or `<`. */
  predicate Plain(s: string) {
    forall i | 0 <= i < |s| :: s[i] != '`' && s[i] != '*' && s[i] != '\n' && s[i] != '<'
  }

  /** A list-item pass whose closing text holds a `<`, as both variants do. */
  predicate ItemPass(items: Pass) {
    items.Line? && '<' in items.close && '\n' !in items.before && '\n' !in items.after
  }

  /** Plain text goes through the seven passes unchanged. */
  lemma RenderPlain(items: Pass, s: string)
    requires ItemPass(items) && Plain(s)
    ensures Passes(items, s) == s
  {
    ReplaceUnmarked(CodeBlocks, s, '`');
    ReplaceUnmarked(InlineCodes, s, '`');
    ReplaceUnmarked(BoldText, s, '*');
    ReplaceUnmarked(Breaks, s, '\n');
    ReplaceUnmarked(items, s, '<');
    ReplaceUnmarked(ListPass, s, '<');
    ReplaceUnmarked(ListSeams, s, '<');
  }

  /** The rendered text holds no newline: the line-break pass removes them
      all, and the passes after it bring none back. */
  lemma RenderHasNoNewline(items: Pass, s: string)
    requires ItemPass(items)
    ensures '\n' !in Passes(items, s)
  {
    var code := ReplaceAll(InlineCodes, ReplaceAll(CodeBlocks, s));
    var lines := ReplaceAll(Breaks, ReplaceAll(BoldText, code));
    ReplaceRemovesChar('\n', "<br>", ReplaceAll(BoldText, code));
    ReplaceKeepsOut(items, lines, '\n');
    ReplaceKeepsOut(ListPass, ReplaceAll(items, lines), '\n');
    ReplaceKeepsOut(ListSeams, ReplaceAll(ListPass, ReplaceAll(items, lines)), '\n');
  }

  /** `formatMessage` returns plain text unchanged. */
  lemma FormatMessagePlain(content: string)
    requires Plain(content)
    ensures FormatMessage(content) == content
    ensures FormatMessageCorrected(content) == content
  {
    RenderPlain(Items, content);
    RenderPlain(LazyItems, content);
  }

  /** `formatMessage` never returns a newline. */
  lemma FormatMessageHasNoNewline(content: string)
    ensures '\n' !in FormatMessage(content)
    ensures '\n' !in FormatMessageCorrected(content)
  {
    RenderHasNoNewline(Items, content);
    RenderHasNoNewline(LazyItems, content);
  }

  // ---------------------------------------------------------------------------
  // The fallback replies

  /** Plain pieces concatenate to plain text. */
  lemma PlainConcat(a: string, b: string)
    requires Plain(a) && Plain(b)
    ensures Plain(a + b)
  {
    assert forall i | |a| <= i < |a| + |b| :: (a + b)[i] == b[i - |a|];
  }

  /** The reply of line 760 is plain, piece by piece. */
  lemma DesignedPlain()
    ensures Plain(Designed)
  {
    var s := "I'm designed to ";
    PlainConcat(s, "help with ");
    s := s + "help with ";
    PlainConcat(s, "DGS-Pay API ");
    s := s + "DGS-Pay API ";
    PlainConcat(s, "documentation ");
    s := s + "documentation ";
    PlainConcat(s, "only. Could you ");
    s := s + "only. Could you ";
    PlainConcat(s, "ask a question ");
    s := s + "ask a question ";
    PlainConcat(s, "about ");
    s := s + "about ";
    PlainConcat(s, "authentication, ");
    s := s + "authentication, ";
    PlainConcat(s, "payments, ");
    s := s + "payments, ";
    PlainConcat(s, "webhooks, or ");
    s := s + "webhooks, or ";
    PlainConcat(s, "error handling?");
    s := s + "error handling?";
  }

  /** The reply of line 761 is plain, piece by piece. */
  lemma OnlyApiPlain()
    ensures Plain(OnlyApi)
  {
    var s := "I can only ";
    PlainConcat(s, "answer ");
    s := s + "answer ";
    PlainConcat(s, "questions about ");
    s := s + "questions about ";
    PlainConcat(s, "the DGS-Pay ");
    s := s + "the DGS-Pay ";
    PlainConcat(s, "API. Try asking ");
    s := s + "API. Try asking ";
    PlainConcat(s, "about mobile ");
    s := s + "about mobile ";
    PlainConcat(s, "money ");
    s := s + "money ";
    PlainConcat(s, "integration, ");
    s := s + "integration, ";
    PlainConcat(s, "token ");
    s := s + "token ";
    PlainConcat(s, "authentication, ");
    s := s + "authentication, ";
    PlainConcat(s, "or payment ");
    s := s + "or payment ";
    PlainConcat(s, "endpoints.");
    s := s + "endpoints.";
  }

  /** The reply of line 762 is plain, piece by piece. */
  lemma ExpertisePlain()
    ensures Plain(Expertise)
  {
    var s := "My expertise is ";
    PlainConcat(s, "limited to ");
    s := s + "limited to ";
    PlainConcat(s, "DGS-Pay payment ");
    s := s + "DGS-Pay payment ";
    PlainConcat(s, "API ");
    s := s + "API ";
    PlainConcat(s, "documentation. ");
    s := s + "documentation. ";
    PlainConcat(s, "For general ");
    s := s + "For general ";
    PlainConcat(s, "programming ");
    s := s + "programming ";
    PlainConcat(s, "questions, I'd ");
    s := s + "questions, I'd ";
    PlainConcat(s, "recommend other ");
    s := s + "recommend other ";
    PlainConcat(s, "resources.");
    s := s + "resources.";
  }

  /** The reply of line 763 is plain, piece by piece. */
  lemma HereToHelpPlain()
    ensures Plain(HereToHelp)
  {
    var s := "I'm here to ";
    PlainConcat(s, "help with ");
    s := s + "help with ";
    PlainConcat(s, "DGS-Pay API ");
    s := s + "DGS-Pay API ";
    PlainConcat(s, "integration. ");
    s := s + "integration. ";
    PlainConcat(s, "Ask me about ");
    s := s + "Ask me about ";
    PlainConcat(s, "payment ");
    s := s + "payment ";
    PlainConcat(s, "methods, ");
    s := s + "methods, ";
    PlainConcat(s, "authentication, ");
    s := s + "authentication, ";
    PlainConcat(s, "webhooks, or ");
    s := s + "webhooks, or ";
    PlainConcat(s, "troubleshooting!");
    s := s + "troubleshooting!";
  }

  /** The reply of line 764 is plain, piece by piece. */
  lemma CanAssistPlain()
    ensures Plain(CanAssist)
  {
    var s := "I can assist ";
    PlainConcat(s, "with DGS-Pay ");
    s := s + "with DGS-Pay ";
    PlainConcat(s, "API questions. ");
    s := s + "API questions. ";
    PlainConcat(s, "Topics I can ");
    s := s + "Topics I can ";
    PlainConcat(s, "help with ");
    s := s + "help with ";
    PlainConcat(s, "include: ");
    s := s + "include: ";
    PlainConcat(s, "authentication, ");
    s := s + "authentication, ";
    PlainConcat(s, "mobile money ");
    s := s + "mobile money ";
    PlainConcat(s, "payments, error ");
    s := s + "payments, error ";
    PlainConcat(s, "codes, and ");
    s := s + "codes, and ";
    PlainConcat(s, "integration ");
    s := s + "integration ";
    PlainConcat(s, "setup.");
    s := s + "setup.";
  }

  /** Every fallback reply is shown exactly as written. */
  lemma FallbacksRenderVerbatim(i: nat)
    requires i < |Fallbacks|
    ensures FormatMessage(Fallbacks[i]) == Fallbacks[i]
    ensures FormatMessageCorrected(Fallbacks[i]) == Fallbacks[i]
  {
    if i == 0 {
      DesignedPlain();
    } else if i == 1 {
      OnlyApiPlain();
    } else if i == 2 {
      ExpertisePlain();
    } else if i == 3 {
      HereToHelpPlain();
    } else {
      CanAssistPlain();
    }
    FormatMessagePlain(Fallbacks[i]);
  }
}
