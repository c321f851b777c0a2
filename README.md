# Chat message markdown renderer

The chat widget shows a bot reply by turning its text into formatted lines.
This project models that renderer in `src/components/Chat.tsx`. It has two parts:

- `renderMarkdown` splits the message on `'\n'`. It classifies each line as a
  level 1-3 heading, a list item, a blank line or a paragraph, taking the first
  rule that matches. It emits one element per line, keyed by the line's index.
- `processInlineMarkdown` runs on the text a line carries: the heading text, the
  item text or the whole paragraph. A cursor loop cuts off the leftmost
  `**bold**` span found anywhere in the remaining text. Only when bold matches
  nowhere does it cut off the leftmost `*italic*` span whose stars touch no
  other star. The leftover text becomes plain text.

The regular expressions follow ECMAScript semantics for patterns without flags:
- `\s` is the WhiteSpace and LineTerminator set, and `trim()` strips that same set.
- `.` is any character except a line terminator.
- Greedy quantifiers take the longest run that still lets the match succeed,
  backtracking where needed.
- The lazy `(.+?)` takes the shortest body.
- `String.prototype.match` reports the match with the lowest start.

Each pattern is described twice:
- as a predicate saying what a successful match looks like (`MatchAt`,
  `HeadingSplitOk`, `BulletSplitOk`, `StarSplitOk`);
- as a function computing the match the engine reports. The function's
  contract, or a lemma next to it, proves that it is exactly the match those
  rules choose.

Modules:
- `Chars` (`chars.dfy`): the character classes and `trim`.
- `Inline` (`inline.dfy`): the tokenizer.
  - `Tokenize` is a recursive function stating what the loop pushes.
  - `ProcessInlineMarkdown` is the loop itself, proved equal to `Tokenize`.
- `Blocks` (`blocks.dfy`): line splitting, the line patterns, `Classify`, and
  the `RenderMarkdown` loop.
- `InlineExamples` and `BlocksExamples`: worked inputs derived from the rules.

What the renderer does not do:
- It has no link or bare-URL tokens; its only inline tokens are plain, bold and italic text.
- It has no rule that the earliest match among the patterns wins. Each round
  searches bold over the whole remaining text before it looks for italic at
  all: `"*a* **b**"` yields `[Plain("*a* "), Bold("b")]`
  (`InlineExamples.BoldBeforeItalic`).
- List indentation is `[\t\s]*`, which accepts any `\s` character, not only spaces and tabs.

## Model

| member | source | states |
|---|---|---|
| Chars.IsLineTerminator | src/components/Chat.tsx:83-94 | the ECMAScript line terminators LF, CR, U+2028 and U+2029: the characters `.` rejects in `(.+?)` and in the line patterns' `(.*)`, and which `\s` includes |
| Chars.IsSpace | src/components/Chat.tsx:25-50 | the class `\s` of the heading and list patterns and of `trim()`: TAB, VT, FF, SPACE, NBSP, ZWNBSP, the Zs space separators and the line terminators |
| Chars.MatchesDot | src/components/Chat.tsx:83-94 | the atom `.` without the `s` flag: any character except a line terminator, as in `(.+?)` and in the line patterns' `(.*)` |
| Chars.SpaceRunEnd | src/components/Chat.tsx:25 | a greedy `\s` run from a position ends at the first non-`\s` character or at the end of the line |
| Chars.SpaceRunStart | src/components/Chat.tsx:62 | the trailing half of `trim()`: its result is the start of the longest `\s` run that ends at a given position without reaching below a bound |
| Chars.Trim | src/components/Chat.tsx:62 | `trim()` removes leading and trailing runs of `\s`: the result is a slice of the line, what it drops on either side is all `\s`, and it neither starts nor ends with `\s` |
| Chars.TrimEmptyIff | src/components/Chat.tsx:62 | `line.trim() === ''` holds exactly when every character of the line is `\s`, the empty line included |
| Inline.SourceText | src/components/Chat.tsx:84-105 | the text a token was cut from: a plain token is its own text, a bold token is `**` + body + `**`, the whole `boldMatch[0]`, and an italic token is `*` + body + `*`, the whole `italicMatch[0]` |
| Inline.Flatten | src/components/Chat.tsx:81-107 | the text a sequence of tokens was cut from: their source texts joined in order |
| Inline.OpensAt | src/components/Chat.tsx:83-94 | the opening `\*\*` of the bold pattern at `i`, or the opening `(?<!\*)\*(?!\*)` of the italic pattern at `i`, where the lookbehind sees only `remaining`, so index 0 has no predecessor |
| Inline.ClosesAt | src/components/Chat.tsx:83-94 | the closing `\*\*` of the bold pattern at `j`, or the closing `(?<!\*)\*(?!\*)` of the italic pattern at `j`, whose lookahead sees the end of `remaining` as no `*` |
| Inline.MatchAt | src/components/Chat.tsx:83-94 | the whole pattern matches from `i` with its closer at `j`: an opener at `i`, a closer at `j`, and between them a non-empty body of `.` characters, the capture `(.+?)` |
| Inline.IsChosenMatch | src/components/Chat.tsx:83-94 | the match `remaining.match(pattern)` reports: a match with the lowest start, and for that start the shortest body |
| Inline.LazyClose | src/components/Chat.tsx:83-94 | the lazy `(.+?)`: from a position it extends the body one `.` at a time and stops at the first closer; any closer it returns lies inside the text; `LazyCloseSpec` proves it is the first one reachable |
| Inline.LazyCloseSpec | src/components/Chat.tsx:83-94 | the lazy body `(.+?)` stops at the first closing delimiter reachable without crossing a line terminator, and finds none only when every later closer has a line terminator before it |
| Inline.FindFromSpec | src/components/Chat.tsx:83-94 | the scan from a start position returns the match with the lowest start at or after it, with the shortest body for that start, and nothing only when no match starts there or later |
| Inline.FindFrom | src/components/Chat.tsx:83-94 | the regex engine's scan over start positions `i`, `i + 1`, ...; its contract keeps a found match inside the text, and `FindFromSpec` proves it is the leftmost, shortest match |
| Inline.Find | src/components/Chat.tsx:83-94 | `remaining.match(pattern)` for the bold and the italic pattern; its contract keeps the match inside the text, and `FindSpec` and `FindExact` characterise it |
| Inline.FindSpec | src/components/Chat.tsx:83-94 | `remaining.match(pattern)` returns the leftmost, shortest match; it returns nothing exactly when the pattern matches nowhere |
| Inline.ChosenMatchUnique | src/components/Chat.tsx:83-94 | the rules "lowest start, then shortest body" pick at most one match |
| Inline.FindExact | src/components/Chat.tsx:83-94 | the search returns `m` if and only if `m` is the chosen match |
| Inline.PlainPrefix | src/components/Chat.tsx:85-87 | `if (match.index > 0) parts.push(remaining.slice(0, match.index))`: one plain token for a non-empty prefix, none for an empty one; the same at lines 96-98 |
| Inline.Emphasis | src/components/Chat.tsx:88-99 | the token pushed for a match's capture `match[1]`: `<strong>` (a `Bold` token) for the bold pattern at line 88, `<em>` (an `Italic` token) for the italic pattern at line 99 |
| Inline.Emitted | src/components/Chat.tsx:85-99 | everything one round pushes for a match: the optional plain prefix `remaining.slice(0, index)`, then the emphasis token for the capture |
| Inline.NextMatch | src/components/Chat.tsx:82-102 | the match a round cuts off: bold if bold matches anywhere, otherwise italic; its contract keeps the match inside the text and has it remove at least three characters, and `NextMatchSpec` characterises the choice |
| Inline.NextMatchSpec | src/components/Chat.tsx:82-102 | a round cuts off a chosen match; it is a bold one whenever bold matches anywhere in the remaining text; there is none only when neither pattern matches |
| Inline.MatchText | src/components/Chat.tsx:84-100 | the tokens pushed in a round stand for exactly the text the cursor skips, delimiters included |
| Inline.Tokenize | src/components/Chat.tsx:81-107 | what the loop pushes for a text: nothing for the empty text, otherwise one round; characterised by `TokenizeReconstructs`, `TokenizeWellFormed`, `TokenizeBoldsFirst` and `TokenizeEmptyIff` |
| Inline.TokenizeRound | src/components/Chat.tsx:84-106 | one round: the optional plain prefix and the bold or italic body of the round's match, then the tokens of the text after it; the leftover text as one plain token when nothing matches |
| Inline.ProcessInlineMarkdown | src/components/Chat.tsx:76-107 | the loop pushes exactly the tokens `Tokenize` specifies, and their source texts spell the input |
| Inline.TokenizeReconstructs | src/components/Chat.tsx:81-107 | joining the source texts of the tokens in order gives back the input: nothing is dropped, duplicated or reordered |
| Inline.TokenizeWellFormed | src/components/Chat.tsx:85-105 | no plain token is empty and no two plain tokens are adjacent; every body is non-empty and free of line terminators; an italic body neither starts nor ends with `*` |
| Inline.TokenizeEmptyIff | src/components/Chat.tsx:81 | the loop pushes nothing exactly when the text is empty |
| Inline.TokenizeNoStar | src/components/Chat.tsx:104-106 | a non-empty text without `*` gives one plain token, the text itself |
| Inline.BoldFreeSuffix | src/components/Chat.tsx:83-89 | once bold matches nowhere, it matches nowhere in any remainder, because the bold pattern has no lookbehind |
| Inline.BoldFreeTokens | src/components/Chat.tsx:83-102 | when bold matches nowhere in the text, no `Bold` token is pushed |
| Inline.TokenizeBoldsFirst | src/components/Chat.tsx:82-102 | no `Bold` token is ever pushed after an `Italic` one, because bold is searched before italic in every round |
| InlineExamples.BoldOnly | src/components/Chat.tsx:83-90 | `"**strong**"` gives one `Bold("strong")` token |
| InlineExamples.BoldBeforeItalic | src/components/Chat.tsx:83-90 | `"*a* **b**"` gives `[Plain("*a* "), Bold("b")]`: the italic markup before a bold span stays plain |
| InlineExamples.ItalicOnly | src/components/Chat.tsx:94-101 | `"*c*"` gives one `Italic("c")` token |
| InlineExamples.StarRunHead | src/components/Chat.tsx:83-90 | in `"**b***c*"` the bold match is `**b**` and the cursor continues at `*c*` |
| InlineExamples.LookbehindSeesRemainder | src/components/Chat.tsx:94-101 | `"**b***c*"` gives `[Bold("b"), Italic("c")]`: the italic lookbehind sees only the remaining text |
| InlineExamples.UnpairedStar | src/components/Chat.tsx:104-106 | `"a*b"` is one plain token |
| Blocks.FirstNewline | src/components/Chat.tsx:20 | the first `'\n'` of a text containing one |
| Blocks.SplitLines | src/components/Chat.tsx:20 | `split('\n')` gives one more piece than there are `'\n'` characters; the pieces contain no `'\n'` and, joined with `'\n'`, give back the text |
| Blocks.SplitJoin | src/components/Chat.tsx:20 | splitting inverts joining: newline-free pieces are recovered exactly from the text they make |
| Blocks.HeadingSplitOk | src/components/Chat.tsx:25-41 | one way `^#{n}\s+(.*)$` can match: `n` hashes, a non-empty `\s` run up to `k`, and `.` characters from `k` to the end of the line, the capture |
| Blocks.HeadingSplit | src/components/Chat.tsx:25-41 | `^#{n}\s+(.*)$` matches exactly when the split it returns is a valid one; that split is the longest `\s+` run; and there is none when no split is valid |
| Blocks.HeadingMatch | src/components/Chat.tsx:25-41 | the capture of `^#{n}\s+(.*)$` is present exactly when some split matches, and is the line after the split with the longest `\s+` run |
| Blocks.BulletSplitOk | src/components/Chat.tsx:50 | one way `^[\t\s]*[•\-]\s+(.*)$` can match: `\s` indentation up to `a`, `•` or `-` at `a`, a non-empty `\s` run up to `k`, and `.` characters from `k` to the end, the capture |
| Blocks.StarSplitOk | src/components/Chat.tsx:50 | one way `^[\t\s]*\*\s+([^*].*)$` can match: `\s` indentation up to `a`, `*` at `a`, a non-empty `\s` run up to `k`, a non-`*` character at `k` (a line terminator included) and `.` characters after it, the capture starting at `k` |
| Blocks.BulletSplit | src/components/Chat.tsx:50 | the first list pattern matches exactly when the returned split is valid; it takes the longest indentation, then the longest `\s+`; and there is none when no split is valid |
| Blocks.LastStarSplit | src/components/Chat.tsx:50 | the greedy `\s+` after a star bullet backtracks to the longest run after which `[^*].*$` matches |
| Blocks.StarSplit | src/components/Chat.tsx:50 | the second list pattern matches exactly when the returned split is valid; it is the greedy choice among all valid splits; and there is none when no split is valid |
| Blocks.ListMatch | src/components/Chat.tsx:50 | trying the first list pattern and then the second yields no capture exactly when neither list pattern has a valid split; otherwise the capture is the text after the greedily chosen split of the first pattern, or of the second when the first matches nowhere |
| Blocks.HeadingLevelsExclusive | src/components/Chat.tsx:25-41 | at most one heading level matches a line |
| Blocks.HeadingIsNotList | src/components/Chat.tsx:25-50 | a heading line matches neither list pattern |
| Blocks.SpaceLineMatchesNothing | src/components/Chat.tsx:25-62 | a line made only of `\s` matches no heading and no list pattern |
| Blocks.Classify | src/components/Chat.tsx:24-70 | the rules tried in the order h3, h2, h1, list, blank, paragraph, and the first that matches decides; characterised in both directions by `ClassifyHeadingIff`, `ClassifyListIff`, `ClassifyBlankIff` and `ClassifyParagraphIff` |
| Blocks.ListLineIsNotBlank | src/components/Chat.tsx:49-65 | a line that a list pattern matches is never all `\s`, so trying the list rule before the blank rule decides nothing |
| Blocks.ClassifyHeadingIff | src/components/Chat.tsx:24-47 | a line is a level-`n` heading with text `t` exactly when `^#{n}\s+(.*)$` matches it with capture `t`, for `n` from 1 to 3 |
| Blocks.ClassifyListIff | src/components/Chat.tsx:49-59 | a line is a list item with text `t` exactly when a list pattern matches it with capture `t` |
| Blocks.ClassifyBlankIff | src/components/Chat.tsx:61-65 | a line is blank exactly when it is all `\s`, the empty line included |
| Blocks.ClassifyParagraphIff | src/components/Chat.tsx:67-70 | a line is a paragraph carrying the whole line exactly when it is not all `\s` and no heading or list pattern matches |
| Blocks.DoubleStarLineIsNotList | src/components/Chat.tsx:49-50 | a line whose first non-`\s` characters are `**` is never a list item |
| Blocks.Payload | src/components/Chat.tsx:24-70 | the text a block hands to `processInlineMarkdown`: the capture `h3Match[1]`, `h2Match[1]`, `h1Match[1]` or `listMatch[1]`, the whole line for a paragraph, and nothing for a blank line |
| Blocks.RenderMarkdown | src/components/Chat.tsx:19-74 | one element per line, in order; element `k` has key `k`, the classification of line `k`, and the inline tokens of that block's text |
| BlocksExamples.LevelThreeHeading | src/components/Chat.tsx:25-31 | `"### Title"` is `Heading(3, "Title")` |
| BlocksExamples.HashesWithoutSpace | src/components/Chat.tsx:67-70 | `"###Title"` is a paragraph |
| BlocksExamples.BoldLineIsParagraph | src/components/Chat.tsx:49-70 | `"**bold line**"` is a paragraph, not a list item |
| BlocksExamples.EmptyDashItem | src/components/Chat.tsx:49-59 | `"- "` is `ListItem("")`: the first list pattern's `\s+` takes the space and `(.*)` captures the empty rest; trimming the line leaves `"-"`, so it is not blank either |
| BlocksExamples.IndentedBullet | src/components/Chat.tsx:50 | `"  • item"` is `ListItem("item")` |
| BlocksExamples.StarBulletBacktracks | src/components/Chat.tsx:50 | `"*  **x**"` is `ListItem(" **x**")`: the `\s+` gives back one space so that `[^*]` can match |
| BlocksExamples.CarriageReturnHeading | src/components/Chat.tsx:41-70 | `"# Title\r"` is a paragraph, because `.` does not match `\r` |
| BlocksExamples.EmptyMessage | src/components/Chat.tsx:20-65 | the empty message is one line, and that line is blank |

## Left out

- The JSX output is not modelled: the `div`, `span`, `strong` and `em` elements and their class names. The model keeps what an element carries: its key, its block kind and its inline tokens.
- The `key={key++}` counter of `processInlineMarkdown` is left out: it only numbers the React nodes.
- The final unwrap `parts.length === 1 ? parts[0] : <>{parts}</>` (Chat.tsx:109) is left out: a one-node fragment shows the same content.
- A blank line renders an empty `div`; the model gives it no tokens.
- The `index !== undefined` guards are always true for a non-global `match` that succeeds, so the model has no branch for them.
- JavaScript strings are UTF-16 code units, while a Dafny `char` is a Unicode scalar value. Every delimiter and line terminator is a single code unit, and each half of a surrogate pair is matched by `.`, and `[^*]` matches the first half where it begins the capture. So the split points and tokens are the same text; only the index arithmetic differs, and the model does not represent it.
- The rest of the `Chat` component is not part of this model: message state, scrolling, input handling and the welcome text.
- `src/app/api/chat/route.ts` is not part of this model: it forwards requests to a webhook, which is network I/O.
