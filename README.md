# DGS-Pay API chatbot: keyword matcher and message formatter

This project models the decision logic of the DGS-Pay API documentation chatbot in `chatbot-script.js`. It proves properties of that model in Dafny. It covers three parts:

- **The knowledge base** (`DGS_KNOWLEDGE_BASE`). This is an ordered table of 23 entries. Each entry's raw key lists its keywords separated by `|`. The fallback replies (`FALLBACK_RESPONSES`) are modelled with it. The 23 keyword lists are transcribed in table order. The five fallback replies are transcribed verbatim.
- **The matcher** (`DGSChatbot.getResponse`):
  - It lower-cases the message.
  - It visits the entries in table order.
  - It splits each raw key on `|` and trims every piece.
  - It answers with the first entry one of whose keywords the lower-cased message includes.
  - When no entry matches, it answers with a fallback reply picked by a random index.
- **The formatter** (`DGSChatbot.formatMessage`). Seven global regular-expression replacements turn a reply into HTML:
  - fenced code blocks;
  - inline code;
  - bold text;
  - line breaks;
  - list items;
  - lists;
  - the seams between adjacent lists.

  Each pattern is matched by a function written from the regular expression's own semantics: leftmost match, greedy and lazy quantifiers, and a `.` that excludes line terminators. A global replacement is a left-to-right scan.

## Files and modules

- `wrappers.dfy` (`Wrappers`): `Option`.
- `text.dfy` (`Text`): the JavaScript string built-ins the core uses:
  - `toLowerCase`, on ASCII;
  - `trim`, with ECMAScript white space and line terminators;
  - `split` on one character, which keeps empty pieces;
  - `includes`.

  It also defines `Join`, which the source never calls. It is there as the inverse of `split`, to state what `split` returns.
- `knowledge_base.dfy` (`KnowledgeBase`): the table, its keyword extraction, its well-formedness invariant, and the fallback replies.
- `matcher.dfy` (`Matcher`): `getResponse`, written two ways:
  - as a function;
  - as the nested loop with an early return that the source writes, proved equal to the function.
- `scenarios.dfy` (`Scenarios`): concrete questions and the entry that answers each one.
- `render.dfy` (`Render`): `formatMessage`'s seven passes, the plain-text fixed point and the no-newline property.
- `lists.dfy` (`Lists`): what the list passes make of a markdown bullet list, both as written and with the list-item pattern corrected.

The entry order decides which entry answers:
- `mobile` (line 96) is tried before the mobile-money entry (line 115). So "I want to send mobile money to MTN" gets the API-code entry, index 3 (`Scenarios.MobileMoneyGoesToApiCodes`).
- A keyword need not reach its own entry; it reaches its own entry or an earlier one (`Matcher.KeywordIsAnswered`). For example, `authorise` (line 272) is answered through `auth` (line 10) (`Scenarios.AuthoriseIsShadowed`). Likewise, `failed` (line 294) is answered by the entry at line 224 (`Scenarios.FailedGoesToResponseFormat`).

## Model

| member | source | states |
|---|---|---|
| Text.LowerChar | chatbot-script.js:923 | The lower-cased character is never an ASCII capital. A capital becomes its lower-case letter, 32 code points up. Every other character is kept. |
| Text.Lower | chatbot-script.js:923 | `toLowerCase` yields text with no ASCII capital. |
| Text.LowerFixesLowerText | chatbot-script.js:923 | Lower-casing leaves a string unchanged exactly when it holds no capital. |
| Text.LowerIdempotent | chatbot-script.js:923 | Lower-casing twice is the same as lower-casing once. |
| Text.TrimStartSpec | chatbot-script.js:931 | The leading trim removes a prefix made only of white space. What remains does not start with white space. |
| Text.TrimEndSpec | chatbot-script.js:931 | The trailing trim removes a suffix made only of white space. What remains does not end with white space. |
| Text.TrimSpec | chatbot-script.js:931 | `trim` returns a piece of the string with only white space around it. The piece neither starts nor ends with white space. |
| Text.TrimKeepsTrimmed | chatbot-script.js:931 | A string that neither starts nor ends with white space is its own trim. |
| Text.Trim | chatbot-script.js:931 | `keyword.trim()`; its contract is stated by `TrimStartSpec`, `TrimEndSpec` and `TrimSpec`, and `TrimKeepsTrimmed` says when it changes nothing. |
| Text.Split | chatbot-script.js:927 | Splitting a raw key on the separator always yields at least one piece. |
| Text.SplitPiecesLackSeparator | chatbot-script.js:927 | No piece of a split holds the separator. |
| Text.JoinSplit | chatbot-script.js:927 | Joining the pieces of a split with the separator gives back the raw key. |
| Text.SplitJoin | chatbot-script.js:927 | Splitting a join of separator-free pieces gives back exactly those pieces. |
| Text.SplitPiece | chatbot-script.js:927 | A key without a separator splits into itself alone. |
| Text.SplitPrefix | chatbot-script.js:927 | A separator-free first piece is split off as the first piece. |
| Text.ContainsSelf | chatbot-script.js:931 | Every string includes itself. |
| Text.ContainsNeedsChar | chatbot-script.js:931 | A string cannot include a keyword holding a character it lacks. |
| Text.ContainsNeedsLength | chatbot-script.js:931 | A string includes only keywords no longer than itself. |
| Text.ContainsInfix | chatbot-script.js:931 | A string built around a keyword includes it. |
| Text.Contains | chatbot-script.js:931 | `lowerMessage.includes(keyword)`: the keyword occurs at some index. `ContainsSelf`, `ContainsNeedsChar`, `ContainsNeedsLength` and `ContainsInfix` state what follows from that. |
| KnowledgeBase.TrimAllAt | chatbot-script.js:927-931 | The keywords of an entry are its raw key's pieces, each trimmed, in order. |
| KnowledgeBase.Keywords | chatbot-script.js:927-931 | The keywords tried for an entry are the pieces of its raw key split at the separator, each trimmed; `TrimAllAt` states the piece-by-piece trimming, `KeywordsOfTidy` and `TableKeywords` state that the table's entries yield exactly their written keywords. |
| KnowledgeBase.KeywordsOfTidy | chatbot-script.js:927-931 | For keywords that are non-empty, lower-case, free of the separator and untrimmed by `trim`, split-and-trim recovers exactly the keywords the entry was written with. |
| KnowledgeBase.WrittenTidy | chatbot-script.js:10-725 | Every keyword written in the 23 entries is non-empty and made of lower-case letters, digits, spaces, `-`, `_` and `?`. |
| KnowledgeBase.TableKeywords | chatbot-script.js:10-725 | The matcher tries, for entry `j`, exactly the keywords written at that entry, in written order. |
| KnowledgeBase.TableWellFormed | chatbot-script.js:10-725 | Every keyword of the table is non-empty and already lower-case. |
| KnowledgeBase.Table | chatbot-script.js:10-725 | The 23 entries in written order, each with its keywords as written; `TableKeywords`, `TableWellFormed` and `TableSizes` state what the matcher gets from it. |
| KnowledgeBase.Fallbacks | chatbot-script.js:759-765 | The five fallback replies in order; `TableSizes` states there are five and `FallbacksRenderVerbatim` that each renders verbatim. |
| KnowledgeBase.TableSizes | chatbot-script.js:8-765 | The table has 23 entries and there are five fallback replies, so a fallback index lies in `[0, 5)`. |
| Matcher.AnyIncluded | chatbot-script.js:930-933 | The inner loop hits exactly when some keyword of the entry occurs in the message. |
| Matcher.Matches | chatbot-script.js:930-933 | An entry matches when one of its trimmed keywords is included in the lower-cased message; `AnyIncluded`'s contract states it, and `Scenarios.EntryMatches` and `Scenarios.EntryAvoided` apply it to the table. |
| Matcher.FirstMatchFrom | chatbot-script.js:926-935 | The outer loop returns an entry that matches, with no matching entry between the start and it. It returns none exactly when no remaining entry matches. |
| Matcher.GetResponse | chatbot-script.js:922-940 | An answer is the earliest entry that matches the lower-cased message. The reply falls back exactly when no entry matches, and a fallback is the picked reply. |
| Matcher.GetResponseLoop | chatbot-script.js:922-940 | The nested loop with its early return computes the same reply as `GetResponse`. |
| Matcher.ChatbotReply | chatbot-script.js:922-940 | The chatbot's own `getResponse` over the table and `FALLBACK_RESPONSES`: an answer is the EARLIEST entry of the table that matches the lower-cased message, the reply falls back exactly when no entry matches, and a fallback is `Fallbacks[pick]`, one of the five fallback replies. |
| Matcher.FirstMatchIsEarliest | chatbot-script.js:926-935 | A matching entry with no matching entry before it is the one the search returns. |
| Matcher.CaseInsensitive | chatbot-script.js:922-923 | A message and its lower-cased form get the same reply, so messages with the same lower-case form get the same reply. |
| Matcher.KeywordIsAnswered | chatbot-script.js:926-933 | In a well-formed table, asking with a keyword of entry `j` always gets an answer from an entry at or before `j`. |
| Matcher.EmptyMessageFallsBack | chatbot-script.js:937-939 | In a well-formed table the empty message gets the picked fallback reply. |
| Matcher.AnswerIgnoresLaterEntries | chatbot-script.js:931-932 | Entries after the answering one are never consulted, so appending entries does not change an answer. |
| Matcher.FallbackLooksOnlyFurther | chatbot-script.js:926-939 | A message the table does not match can only be answered by entries appended after it. |
| Scenarios.EntryMatches | chatbot-script.js:930-932 | A message that includes a keyword written for entry `j` matches entry `j`. |
| Scenarios.EntryAvoided | chatbot-script.js:930-933 | A message lacking, for each keyword of entry `j`, one of that keyword's characters does not match entry `j`. |
| Scenarios.AnswerIs | chatbot-script.js:926-933 | The reply is entry `j` when `j` matches and no earlier entry does. |
| Scenarios.BearerTokenQuestion | chatbot-script.js:10 | "How do I get a bearer token?" is answered by the authentication entry. |
| Scenarios.ShoutedKeyword | chatbot-script.js:923 | "AUTHENTICATION" is answered by the authentication entry. |
| Scenarios.AuthoriseIsShadowed | chatbot-script.js:272 | `authorise` is a keyword of the next-action entry, yet it is answered by the authentication entry through `auth`. |
| Scenarios.FailedGoesToResponseFormat | chatbot-script.js:294 | `failed` is a keyword of the error-code entry, yet it is answered by the earlier response-format entry. |
| Scenarios.MobileMoneyIsKeyword | chatbot-script.js:115 | `mobile money` and `mtn` are keywords of the mobile-money entry. |
| Scenarios.MobileMoneyMissesEarlier | chatbot-script.js:10-72 | None of the first three entries matches "i want to send mobile money to mtn". |
| Scenarios.MobileMoneyGoesToApiCodes | chatbot-script.js:96 | "I want to send mobile money to MTN" is answered by the API-code entry. |
| Scenarios.GreetingFallsBack | chatbot-script.js:937-939 | "Hello" matches no entry and gets the picked fallback reply. |
| Scenarios.EmptyQuestion | chatbot-script.js:937-939 | The empty message gets the picked fallback reply. |
| Render.Run | chatbot-script.js:886 | A greedy `\w+` or `.+` reaches the end of the longest run of its class. |
| Render.IndexOf | chatbot-script.js:889 | The first occurrence of a text at or after an index, or none when there is none. |
| Render.LastIndexOf | chatbot-script.js:898 | The last occurrence of a text in a range of indexes, or none when there is none. |
| Render.MatchCodeBlock | chatbot-script.js:886 | A fenced-block match is a fence, optional language word, newline, body and closing fence, and it captures the body. No match means there is no fenced block at the start. |
| Render.MatchInlineCode | chatbot-script.js:889 | A match fits in the text; `InlineCodeSpec` states exactly when it matches and what it captures. |
| Render.MatchBold | chatbot-script.js:892 | A match fits in the text; `BoldSpec` states exactly when it matches and what it captures. |
| Render.MatchLiteral | chatbot-script.js:895 | A literal pattern matches where its text stands; `Lists.CharMatch` states it for the one-character newline pattern and the seam pattern of line 900 occurs nowhere in a single list (`Lists.NoSeam`, `Lists.SeamsNone`). |
| Render.InlineCodeSpec | chatbot-script.js:889 | The inline-code pattern matches exactly a backtick, a non-empty run without backticks and a closing backtick, and it captures the run. |
| Render.BoldSpec | chatbot-script.js:892 | The bold pattern matches exactly `**`, a non-empty run without stars and a closing `**`, and it captures the run. |
| Render.MatchLine | chatbot-script.js:898-899 | `open(.+)close` captures a non-empty run without line terminators that ends right before a `close`. The greedy form captures the longest such run and the lazy form the shortest. No match means no such run. |
| Render.ReplaceAll | chatbot-script.js:886 | A global `replace`: a left-to-right scan that replaces each match and resumes after it. `ReplaceUnmarked`, `ReplaceKeepsOut`, `ReplaceRemovesChar` and `Lists.ReplaceCharIsMap` state what it does. |
| Render.MatchMarked | chatbot-script.js:884-902 | Every match of a pass contains the pass's marking character. |
| Render.ReplaceUnmarked | chatbot-script.js:884-902 | A pass leaves alone text that lacks its marking character. |
| Render.ReplaceKeepsOut | chatbot-script.js:895-900 | A pass whose replacement texts lack a character does not put that character in the text. |
| Render.ReplaceRemovesChar | chatbot-script.js:895 | Replacing a character everywhere by text without it removes it. |
| Render.RenderPlain | chatbot-script.js:884-902 | Text without backticks, stars, newlines or `<` goes through all seven passes unchanged. |
| Render.RenderHasNoNewline | chatbot-script.js:895-900 | After the seven passes no newline is left. |
| Render.FormatMessagePlain | chatbot-script.js:884-902 | `formatMessage` returns plain content unchanged, as written and with the corrected list-item pattern. |
| Render.FormatMessageHasNoNewline | chatbot-script.js:895-900 | The output of `formatMessage` holds no newline, as written and corrected. |
| Render.FormatMessage | chatbot-script.js:884-902 | `formatMessage`, the seven passes in order; `FormatMessagePlain` and `FormatMessageHasNoNewline` state its contract, and `Lists.FormatMessageMergesList` what it makes of a bullet list. |
| Render.DesignedPlain | chatbot-script.js:760 | The first fallback reply is plain text. |
| Render.OnlyApiPlain | chatbot-script.js:761 | The second fallback reply is plain text. |
| Render.ExpertisePlain | chatbot-script.js:762 | The third fallback reply is plain text. |
| Render.HereToHelpPlain | chatbot-script.js:763 | The fourth fallback reply is plain text. |
| Render.CanAssistPlain | chatbot-script.js:764 | The fifth fallback reply is plain text. |
| Render.FallbacksRenderVerbatim | chatbot-script.js:759-765 | Every fallback reply renders verbatim. |
| Lists.BulletsAvoid | chatbot-script.js:886-892 | A bullet list holds no character besides `- `, the newline and its items' characters. |
| Lists.BrokenLinesMerged | chatbot-script.js:898 | After the line-break pass a bullet list is `- `, the greedy capture and a final `<br>`. |
| Lists.CharMatch | chatbot-script.js:895 | A one-character pattern matches exactly where its character stands. |
| Lists.MapCharsConcat | chatbot-script.js:895 | Character-by-character replacement respects concatenation. |
| Lists.ReplaceCharIsMap | chatbot-script.js:895 | A one-character global replacement is character-by-character replacement. |
| Lists.ReplaceCharConcat | chatbot-script.js:895 | The newline pass works on the parts of a concatenation separately. |
| Lists.BreakOnNewline | chatbot-script.js:895 | A newline becomes `<br>`. |
| Lists.BreaksOnLine | chatbot-script.js:895 | A bullet line `- x` ended by a newline becomes `- x<br>`. |
| Lists.BreaksOnBullets | chatbot-script.js:895 | The line-break pass turns a bullet list into its `<br>`-ended lines. |
| Lists.GreedyMatchWhole | chatbot-script.js:898 | On one-line text starting with `open` and ending with `close`, the greedy pattern matches all of it. |
| Lists.GreedyWhole | chatbot-script.js:898-899 | A greedy pass on such text wraps everything between `open` and the last `close` once. |
| Lists.LazyMatch | chatbot-script.js:898 | The lazy `- (.+?)<br>` matches a bullet line up to its own `<br>`. |
| Lists.LazyStep | chatbot-script.js:898 | The lazy pass turns the first bullet line into one item and resumes after its `<br>`. |
| Lists.LazyItemsOnLines | chatbot-script.js:898 | The lazy pass makes exactly one `<li>` element per bullet line. |
| Lists.ReplaceAbsent | chatbot-script.js:900 | A literal pass leaves text without its pattern unchanged. |
| Lists.NoSeam | chatbot-script.js:900 | A single list around items and breaks holds no `</ul><ul>` seam. |
| Lists.GreedyItemsWhole | chatbot-script.js:898 | The greedy list-item pass makes one item of everything from the first `- ` to the last `<br>`. |
| Lists.ListsWhole | chatbot-script.js:899 | The list pass wraps everything from the first `<li>` to the last `</li>` in one `<ul>`. |
| Lists.SeamsNone | chatbot-script.js:900 | The seam pass leaves a single list unchanged. |
| Lists.EarlyPassesOnBullets | chatbot-script.js:886-895 | The code, bold and line-break passes turn a bullet list into its `<br>`-ended lines. |
| Lists.MergedPasses | chatbot-script.js:898-900 | As written, the last three passes turn the `<br>`-ended lines into one list holding one merged item. |
| Lists.FormatMessageMergesList | chatbot-script.js:898 | As written, `formatMessage` turns any bullet list into a list of ONE item that holds every bullet, the later ones still prefixed by `<br>- `. |
| Lists.FormatMessageCorrectedList | chatbot-script.js:884-902 | With the lazy list-item pattern, a bullet list becomes one `<ul>` with one `<li>` per bullet, in order. |
| Lists.LastElement | chatbot-script.js:899 | The item elements of a non-empty list start with `<li>` and end with `</li>`. |
| Lists.TwoBulletsMerged | chatbot-script.js:898 | As written, `- a\n- b\n` becomes `<ul><li>a<br>- b</li></ul>`. |
| Lists.TwoBulletsCorrected | chatbot-script.js:898 | Corrected, `- a\n- b\n` becomes `<ul><li>a</li><li>b</li></ul>`. |

## Left out

- The browser plumbing is not modelled: element caching, event binding, `addMessage`, the typing indicator, the `DOMContentLoaded` hook and the `module.exports` block. They are DOM I/O.
- The "thinking" delay (`delay`, `setTimeout`) and the `await` in `sendMessage` are not modelled. They are scheduling, not logic.
- `toggleChat` and the `isOpen` and `messages` fields are not modelled. They are UI visibility state.
- `Math.random` is not modelled. The fallback index is the parameter `pick`, constrained to `0 <= pick < |fallbacks|`. The delay's random length is left out with the delay.
- The entries' response texts are not modelled. An answer is the entry's index (`Matcher.Reply.Answer`). Several template literals in the table close early at lines 97, 188, 225, 493 and 526, where the title's closing backtick ends the literal. The text after each early close (for example line 99, "DGS-Pay supports ...") is a stray token, so the file as written is not valid JavaScript and `getResponse` never runs. The model describes the table as its author evidently meant it, with those five literals closed at their intended ends; only the keys and the entry order matter to the matcher.
- Text.Lower: lower-cases ASCII capitals only. Full Unicode case mapping is not modelled. Every keyword is ASCII, but `toLowerCase` also maps some non-ASCII characters to ASCII letters. For example, U+212A KELVIN SIGN becomes `k`. So the message "\u212Aenya" matches `kenya` (line 626) in the source, but falls back in the model.
- Render.MatchLiteral: an empty literal pattern is treated as matching nowhere. No pass of the source has an empty pattern.
- KnowledgeBase.Fallbacks: each fallback reply is written as a concatenation of short pieces that spell the reply exactly.
- Lists.FormatMessageMergesList and Lists.FormatMessageCorrectedList: cover only bullet items without backticks, stars, `<` or line terminators (`Lists.IsItem`). Items with inline markup also pass through the earlier passes and are not covered.

## Findings

| source | as written | input that shows it | evidently intended | confidence | as-written member | corrected member |
|---|---|---|---|---|---|---|
| chatbot-script.js:898 | The list-item pattern `- (.+)<br>` has a greedy group. After the line-break pass no newline is left in the whole message, so the group runs to the LAST `<br>` of the entire message. The whole list becomes one `<li>`, with the later bullets left inside it as `<br>- ` text, and any text after the list up to its last `<br>` ends up inside that item too (for example the bullet list at lines 32-34 and the paragraphs after it). | `- a\n- b\n` becomes `<ul><li>a<br>- b</li></ul>` | one item per bullet line, so `- a\n- b\n` becomes `<ul><li>a</li><li>b</li></ul>`, which is what the list pass (line 899) and the seam pass (line 900) expect | not executed | Lists.TwoBulletsMerged | Lists.TwoBulletsCorrected |

`Lists.FormatMessageMergesList` states the as-written behaviour for every bullet list. `Lists.FormatMessageCorrectedList` states the corrected behaviour for every bullet list. `Render.FormatMessageCorrected` is the corrected formatter. It uses the lazy pattern `- (.+?)<br>`.
