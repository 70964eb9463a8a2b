# Chat exporter core in Dafny

This project models the conversion core of two browser user scripts that
export AI chat conversations, and proves properties of that model.

**`MyDeepSeek.user.js`** reads a DeepSeek chat page and writes a Markdown
transcript. The model covers these steps:

- `extractConversations` classifies the children of the message container by
  CSS class into user prompts and AI answers.
- `cleanContent` strips UI chrome from a clone of a node. It then escapes the
  prompt text, strips tags from the thinking HTML, or keeps the response HTML.
- `enhancedHtmlToMarkdown` runs a pre-pass that replaces code blocks and math
  with literal Markdown text.
- `convertNodeToMarkdown` walks the tree with a fixed template per tag. Its
  helpers are `processInlineElements`, `processLinkElement`,
  `processImageElement`, `processListItems` and `processTable`.
- `formatMarkdown` lays the turns out under a title heading.

**`my-lyra.js`** contributes these string utilities:

- the file-name sanitiser `Utils.sanitize`;
- the host/path platform classifier `State.platform`;
- the label lookup `i18n.t`;
- the text `Exporters.markdown` writes;
- the title and file-name lines of `exportCurrent`.

The page is a value of type `Dom.Node`: text nodes and elements with a tag,
attributes and children. Tags are the parser's lower-case local names. Class
tests read the `class` attribute's white-space separated tokens.

The source mutates a `cloneNode(true)` copy. The model returns the rewritten
tree instead, so the caller's node is untouched by construction.

Where the source loops and appends to a string, the model is a method with
loop invariants. Each such method is proved equal to a recursive
specification function:

- `processListItems` and its `forEach` callback;
- `processTable`;
- `extractConversations`;
- `formatMarkdown` and its callback;
- `Exporters.markdown`.

The rest of the walk is functions.

Modules:

- `Wrappers`: `Option` and `Result`.
- `Strings`: JavaScript `trim`, `split('\n')`, `join`, `includes`, `repeat` and `String(n)`.
- `Dom`: the tree, `getAttribute`, `classList`, `querySelector(All)`, `textContent` and `innerHTML` serialization.
- `Clean`: `cleanContent`.
- `Prepass`: the replacements made by `enhancedHtmlToMarkdown`.
- `Markdown`: `convertNodeToMarkdown` and its helpers.
- `MarkdownLaws`: what the templates guarantee.
- `MarkdownLoops`: the list and table loops.
- `Transcript`: extraction and layout.
- `Lyra`: `my-lyra.js`.

## Model

| member | source | states |
|---|---|---|
| Dom.GetAttribute | MyDeepSeek.user.js:371-373 | `getAttribute` finds a value exactly when an attribute of that name exists, and the value is that attribute's value |
| Dom.ClassTokens | MyDeepSeek.user.js:213 | every class token is non-empty and holds no white space |
| Dom.ClassTokensAreRuns | MyDeepSeek.user.js:213 | a string is a class token exactly when it is a maximal run of non-white-space characters of the `class` attribute |
| Dom.Filter | MyDeepSeek.user.js:392-393 | every node `filter` keeps satisfies the test, and the result is no larger than the input |
| Dom.FilterMembers | MyDeepSeek.user.js:392-393 | a node is in the filtered list exactly when it is in the input and satisfies the test |
| Dom.FilterSnoc | MyDeepSeek.user.js:392-393 | filtering keeps document order: one more node at the end is kept exactly when it matches |
| Dom.QueryAll | MyDeepSeek.user.js:410 | `querySelectorAll` yields only matching proper descendants |
| Dom.QueryAllMembers | MyDeepSeek.user.js:244 | a node is in the `querySelectorAll` result exactly when it is a proper descendant and matches |
| Dom.QueryAllSplit | MyDeepSeek.user.js:410 | the result is in document order: a child, if it matches, then its own matches, then the matches under the later children |
| Dom.Query | MyDeepSeek.user.js:221-222 | `querySelector` yields a matching descendant, and yields nothing exactly when no descendant matches |
| Dom.QueryFirst | MyDeepSeek.user.js:221-222 | the node `querySelector` yields is the first matching descendant in document order |
| Dom.QueryDocument | MyDeepSeek.user.js:205 | `document.querySelector` yields nothing exactly when neither the root nor any descendant matches |
| Dom.QueryDocumentFirst | MyDeepSeek.user.js:205 | the node it yields is the first match in document order, the root included |
| Dom.Serialize | MyDeepSeek.user.js:262 | an element serializes to a string starting with `<`; a text node serializes to `''` exactly when its data is empty |
| Dom.SerializeAllEmpty | MyDeepSeek.user.js:262 | an `innerHTML` is `''` exactly when every child is an empty text node |
| Dom.SerializeNormalizeAll | MyDeepSeek.user.js:295 | joining adjacent text nodes and dropping empty ones leaves the `innerHTML` unchanged |
| Dom.NormalizeAllIsNormal | MyDeepSeek.user.js:295 | after normalizing, no child list holds an empty text node or two adjacent text nodes |
| Dom.NormalizeAllKeepsNormal | MyDeepSeek.user.js:295 | a tree already in that form is left as it is |
| Dom.NormalizeIdempotent | MyDeepSeek.user.js:295 | normalizing twice equals normalizing once |
| Clean.StripNoise | MyDeepSeek.user.js:242-245 | removing the chrome keeps the root's tag and attributes and leaves text nodes as they are |
| Clean.StripNoiseRemovesAllNoise | MyDeepSeek.user.js:244-245 | after stripping, no descendant is a `button` or `svg` or carries `ds-flex`, `ds-icon`, `ds-icon-button` or `ds-button` |
| Clean.StripNoiseKeepsCleanTree | MyDeepSeek.user.js:244-245 | a subtree with no chrome comes out unchanged |
| Clean.StripNoiseIdempotent | MyDeepSeek.user.js:242-245 | stripping twice equals stripping once |
| Clean.CollapseNewlines | MyDeepSeek.user.js:248 | `replace(/\n{2,}/g, '\n')` leaves no two consecutive newlines and keeps the first character |
| Clean.CollapseNewlinesRemovesOnlyNewlines | MyDeepSeek.user.js:248 | collapsing deletes newlines only: the other characters survive in order |
| Clean.CollapseNewlinesFixesSingleNewlines | MyDeepSeek.user.js:248 | text without a newline run is left unchanged |
| Clean.CollapseLongerRun | MyDeepSeek.user.js:248 | a run of newlines collapses the same however long it is: two newlines give what one gives |
| Clean.NoBlankLineSlice | MyDeepSeek.user.js:248 | trimming, like any slice, cannot create a newline run |
| Clean.EscapeHtml | MyDeepSeek.user.js:250 | the escaped text holds no raw `<` or `>` |
| Clean.EscapeChar | MyDeepSeek.user.js:250 | each character maps to `&lt;`, `&gt;`, `&amp;` or itself, and no mapping adds a `<`, a `>` or a newline |
| Clean.UnescapeEscape | MyDeepSeek.user.js:250 | decoding the three entities restores the text: one single pass, never a double escape |
| Clean.EscapeKeepsNoBlankLine | MyDeepSeek.user.js:248-250 | escaping never creates a newline run |
| Clean.CleanPromptProperties | MyDeepSeek.user.js:247-251 | the cleaned prompt has no raw `<` or `>` and no blank line, and decoding it gives the collapsed, trimmed text of the stripped node |
| Clean.WhitespaceRun | MyDeepSeek.user.js:256 | `\s*` matches exactly the leading white space |
| Clean.ParagraphEndBecomesNewline | MyDeepSeek.user.js:255 | `</p>` and `</P>` each become one newline |
| Clean.ParagraphEndsKeepPlainText | MyDeepSeek.user.js:255 | text without `<` passes the `</p>` pass unchanged |
| Clean.BreakTagLength | MyDeepSeek.user.js:256 | a `<br\s*\/?>` match is at least 4 characters long and runs from `<` to `>` |
| Clean.BreakTagMatched | MyDeepSeek.user.js:256 | every `<br>` tag, in either case, with any white space and an optional `/`, is matched whole, whatever follows it |
| Clean.BreakBecomesNewline | MyDeepSeek.user.js:256 | each such tag becomes one newline |
| Clean.BreaksKeepPlainText | MyDeepSeek.user.js:256 | text without `<` passes the `<br>` pass unchanged |
| Clean.StripTags | MyDeepSeek.user.js:257 | the tag pass introduces no character that was not in the input |
| Clean.StripTagsDeletesOnly | MyDeepSeek.user.js:257 | the tag pass only deletes: its result is a subsequence of the input |
| Clean.StripTagsDeletesTag | MyDeepSeek.user.js:257 | a tag `<t>` with `t` non-empty and free of `>` is deleted whole |
| Clean.StripTagsKeepsChar | MyDeepSeek.user.js:257 | a character other than `<` at the front is kept |
| Clean.StripTagsLeavesNoTag | MyDeepSeek.user.js:257 | after the pass the tag pattern matches nowhere |
| Clean.StripTagsKeepsPlainText | MyDeepSeek.user.js:257 | text without `<` passes through unchanged |
| Clean.CleanThinkingShape | MyDeepSeek.user.js:252-259 | the cleaned thinking text has no blank line and no white space at either end |
| Clean.CleanResponse | MyDeepSeek.user.js:260-262 | the response, as parsed again, serializes to the `innerHTML` of the stripped clone and has adjacent text nodes joined and empty ones dropped |
| Transcript.IconSplitAnswer | MyDeepSeek.user.js:292-310 | `<p>a <span class="ds-icon"></span>b</p>` converts to `a b`: the re-parse joins the two texts before they are trimmed |
| Prepass.ReplaceNode | MyDeepSeek.user.js:297-308 | a replacement leaves text nodes alone, and an element without the pass's class keeps its tag and attributes |
| Prepass.ReplaceAll | MyDeepSeek.user.js:297-308 | a pass maps each node in place and keeps the number of children |
| Prepass.ReplaceAllClearsClass | MyDeepSeek.user.js:297-308 | after a pass no element of its class is left anywhere in the tree |
| Prepass.ReplaceAllKeepsFree | MyDeepSeek.user.js:297-308 | a pass never brings back a class an earlier pass removed |
| Prepass.PrepassClearsAllMarkers | MyDeepSeek.user.js:296-308 | after the pre-pass no code block, inline math or display math element is left |
| Prepass.ReplaceAllIdentity | MyDeepSeek.user.js:303-308 | a pass leaves a tree without its class unchanged |
| Prepass.PrepassCodeBlockVerbatim | MyDeepSeek.user.js:297-301 | a code block becomes the fence text with its trimmed infostring and its `pre` text verbatim, before the math passes can touch it |
| Prepass.PrepassInlineMath | MyDeepSeek.user.js:303-305 | an inline math element at any position, outside code blocks, becomes `$` + its text + `$` |
| Prepass.PrepassDisplayMath | MyDeepSeek.user.js:306-308 | a display math element at any position, holding neither code blocks nor inline math, becomes `\n$$\n` + its text + `\n$$\n` |
| Prepass.PrepassDescends | MyDeepSeek.user.js:297-308 | an element without a marker class keeps its tag and attributes and the passes go on inside it |
| Prepass.PrepassNestedInlineMath | MyDeepSeek.user.js:303-305 | inline math nested inside a paragraph is replaced in place |
| Markdown.HeadingLevel | MyDeepSeek.user.js:339-344 | a tag has a heading level exactly when it is `h1` … `h6`, and the level of `hk` is k |
| Markdown.NonBlank | MyDeepSeek.user.js:330 | the kept lines are non-blank lines of the input |
| Markdown.PrefixEach | MyDeepSeek.user.js:331 | each line is `> ` + the corresponding input line |
| Markdown.HeaderTexts | MyDeepSeek.user.js:412 | one header text per cell of the first row, each the trimmed text content of its cell |
| Markdown.Dashes | MyDeepSeek.user.js:413 | one `---` per header cell |
| Markdown.CellsMd | MyDeepSeek.user.js:415 | one cell text per `td` |
| Markdown.CellsMdAt | MyDeepSeek.user.js:415 | the i-th cell text is the inline conversion of the i-th `td` |
| MarkdownLaws.HeadingTemplate | MyDeepSeek.user.js:339-344 | `hk` gives exactly k `#`, a space, the inline text and a newline |
| MarkdownLaws.EmphasisWrapsOnce | MyDeepSeek.user.js:320-321 | `strong`/`em` give the same text as the inline handler, with 4 or 2 asterisks, so nested emphasis is never wrapped twice |
| MarkdownLaws.NestedEmphasisFlattened | MyDeepSeek.user.js:320-321 | `<strong>a<em>b</em></strong>` gives `**ab**` |
| MarkdownLaws.CodeTrimming | MyDeepSeek.user.js:338 | block `code` wraps the trimmed text in backticks, the inline handler (line 361) the untrimmed text; the two agree exactly when the text has no edge white space |
| MarkdownLaws.UnknownTagIsTransparent | MyDeepSeek.user.js:346-349 | a tag without a handler converts exactly as a `div`: its children concatenated at the same level |
| MarkdownLaws.TextIsTrimmed | MyDeepSeek.user.js:347 | a text node gives its trimmed text, in the walk and inline alike, and gives `''` exactly when it is blank |
| MarkdownLaws.LinkAndImageAgree | MyDeepSeek.user.js:324-325 | links and images convert the same way inside a paragraph (lines 362-363) and on their own |
| MarkdownLaws.ImageIsBangLink | MyDeepSeek.user.js:374 | an image is the link syntax over `alt` and `src` behind a `!` |
| MarkdownLaws.BracketedTitle | MyDeepSeek.user.js:382 | the result starts with `[text](href`, and the ` "title"` part is added exactly when the title is non-empty |
| MarkdownLaws.MissingAttributes | MyDeepSeek.user.js:371-381 | missing attributes read as `''`: a bare image is `![]()` and a bare link is `[text]()` |
| MarkdownLaws.BlockquoteLines | MyDeepSeek.user.js:326-334 | a block quote is wrapped in one newline at each end, and its lines are exactly the non-blank content lines, each behind `> ` |
| MarkdownLaws.NonBlankFilters | MyDeepSeek.user.js:330 | a line is kept exactly when it occurs in the content and is not blank |
| MarkdownLaws.ItemsConcat | MyDeepSeek.user.js:389-404 | the items' text is each item's text, rendered with its own index, concatenated in order |
| MarkdownLaws.NestedConcat | MyDeepSeek.user.js:400-403 | the nested lists' text is each child list's text one level deeper, concatenated in order |
| MarkdownLaws.ItemsPrefix | MyDeepSeek.user.js:389-404 | later items only extend the text of earlier ones |
| MarkdownLaws.ListItemAt | MyDeepSeek.user.js:389-404 | each item's text appears in the list right after the items before it |
| MarkdownLaws.ItemLine | MyDeepSeek.user.js:396-398 | an item with a line starts with `level` times two spaces, its prefix, its text and a newline |
| MarkdownLaws.ListIndented | MyDeepSeek.user.js:388-403 | the text of a list at level k is empty or starts with 2k spaces |
| MarkdownLaws.ItemIndented | MyDeepSeek.user.js:396-403 | one item's text, its nested lists included, is empty or starts with the item's indent, even when its own line is empty |
| MarkdownLaws.MultiLineItem | MyDeepSeek.user.js:389-398 | an item whose paragraph holds a `<br>` is the indent, the prefix, `a`, a newline and `b`: the second line carries no indent |
| MarkdownLaws.BrokenParagraph | MyDeepSeek.user.js:319-323 | `<p>a<br>b</p>` converts to `a\nb\n` |
| MarkdownLaws.OrderedFromOne | MyDeepSeek.user.js:336 | an `ol` without a usable `start` numbers its items `1.`, `2.`, … by position |
| MarkdownLaws.NonNumericStart | MyDeepSeek.user.js:390 | a non-numeric `start` makes every marker `NaN. ` |
| MarkdownLaws.OrderedListExample | MyDeepSeek.user.js:386-398 | `<ol start="3">` with one paragraph per item gives `3. a\n4. b\n` |
| MarkdownLaws.OrderedOfTwo | MyDeepSeek.user.js:389-390 | the items of an `ol` starting at 3 are numbered with indices 0 and 1 |
| MarkdownLaws.ListOfTwo | MyDeepSeek.user.js:389-398 | a list of two element children is its first item at index 0 followed by its second at index 1 |
| MarkdownLaws.ListConvert | MyDeepSeek.user.js:335-336 | `ul`/`ol` convert to their list with `-` or the start number as marker |
| MarkdownLaws.ParagraphItem | MyDeepSeek.user.js:392-398 | an item holding one paragraph of a word is the indent, the prefix, the word and a newline |
| MarkdownLaws.ParagraphWord | MyDeepSeek.user.js:319 | a paragraph of one word converts to the word and a newline |
| MarkdownLaws.ItemOfLine | MyDeepSeek.user.js:392-398 | an item without child lists is its line alone |
| MarkdownLaws.BareTextItemsExample | MyDeepSeek.user.js:392-396 | `<ol start="3"><li>A</li><li>B</li></ol>` gives `''`: bare text never forms an item's line |
| MarkdownLaws.BareTextItem | MyDeepSeek.user.js:392-396 | an item whose only child is text contributes nothing, although it still takes an index |
| MarkdownLaws.SeparatorMatchesHeader | MyDeepSeek.user.js:413 | the separator row has exactly 3k dashes and k + 1 bars for k header cells |
| MarkdownLaws.TableLayout | MyDeepSeek.user.js:409-418 | a table is `''` exactly when it has no `tr`; otherwise it is the header line, the separator, the body rows and a newline |
| MarkdownLaws.JoinBarCount | MyDeepSeek.user.js:416 | `join(' \| ')` of bar-free cells has one bar per gap |
| MarkdownLaws.RowWidthIsOwnCellCount | MyDeepSeek.user.js:415-416 | a body row has as many cells as its own `td`s, with no padding or truncation to the header width |
| MarkdownLoops.ProcessListItems | MyDeepSeek.user.js:386-406 | the loop builds exactly the list text the walk specifies |
| MarkdownLoops.ProcessItem | MyDeepSeek.user.js:389-404 | the `forEach` callback appends exactly the item's line and its nested lists |
| MarkdownLoops.ProcessTable | MyDeepSeek.user.js:409-419 | the loop builds exactly the table text the walk specifies |
| Transcript.RecordAll | MyDeepSeek.user.js:211-230 | one entry per turn block, the i-th built from the i-th block |
| Transcript.ConversationsSnoc | MyDeepSeek.user.js:211-230 | one more child adds its entry when it is a turn block and nothing otherwise |
| Transcript.ExtractConversations | MyDeepSeek.user.js:201-237 | the loop yields no entry without a container, and otherwise one entry per turn block among the container's children, in order |
| Transcript.EntryOfTurn | MyDeepSeek.user.js:213-229 | the i-th entry is a user entry exactly when its block carries the prompt class, with the cleaned prompt; otherwise it holds the block's thinking and response |
| Transcript.ResponseTruthy | MyDeepSeek.user.js:222-227 | an answer's response is rendered exactly when its response element exists and its stripped `innerHTML` is not `''` |
| Transcript.LoneCodeBlock | MyDeepSeek.user.js:297-310 | an answer that is one code block becomes its fence, with the code verbatim and the padding trimmed away |
| Transcript.FenceTrim | MyDeepSeek.user.js:300 | the replacement text of a code block trims to its fence, and the fence trims to itself |
| Transcript.FormatMarkdown | MyDeepSeek.user.js:269-290 | the loop builds exactly the title heading followed by each entry's text in order |
| Transcript.FormatTurn | MyDeepSeek.user.js:273-288 | the `forEach` callback appends exactly the entry's text |
| Transcript.QuotedLines | MyDeepSeek.user.js:276-277 | each line of the quoted block is `> ` + the matching line of the label and text, so a multi-line prompt stays in one quote |
| Transcript.JoinQuoted | MyDeepSeek.user.js:277 | `'> ' + lines.join('\n> ')` equals the lines, each behind `> `, joined by newlines |
| Transcript.SeparatorOnlyAfterFirst | MyDeepSeek.user.js:275 | a user entry starts with `\n---\n` exactly when its index is greater than 0 |
| Transcript.SilentAnswer | MyDeepSeek.user.js:279-286 | an answer adds nothing exactly when its thinking is empty and it has no response |
| Transcript.TranscriptOpensWithTitle | MyDeepSeek.user.js:270-272 | the transcript starts with `# title\n\n`, and with no entries it is that heading alone |
| Transcript.EntryInOrder | MyDeepSeek.user.js:273-289 | each entry's text appears right after the heading and the entries before it |
| Strings.TrimIsSlice | MyDeepSeek.user.js:248 | `trim()` returns a slice with no white space at either end, and everything cut off is white space |
| Strings.JoinSplitLines | MyDeepSeek.user.js:276-277 | `split('\n')` then `join('\n')` gives the string back |
| Strings.SplitLinesJoin | MyDeepSeek.user.js:330-332 | splitting a newline-joined list of newline-free lines gives the lines back |
| Strings.RepeatLength | MyDeepSeek.user.js:388 | `'  '.repeat(level)` has length `2 * level` |
| Strings.TrimStartSuffix | MyDeepSeek.user.js:248 | what trimming keeps at the front is a suffix of the input |
| Strings.TrimEndPrefix | MyDeepSeek.user.js:248 | what trimming keeps at the back is a prefix of the input |
| Lyra.Utf16 | my-lyra.js:97 | a string has at least as many UTF-16 code units as characters |
| Lyra.Utf16Append | my-lyra.js:261 | the units of a concatenation are the units of the parts |
| Lyra.ReplaceOthers | my-lyra.js:97 | `replace(/[^a-z0-9]/gi, '_')` keeps each ASCII letter or digit and replaces every other unit by one `_` |
| Lyra.SanitizeShape | my-lyra.js:97 | a sanitised name holds only letters, digits and `_`; its length is `min(units, 100)`; a unit survives exactly when it is a letter or digit |
| Lyra.SanitizeKeepsClean | my-lyra.js:97 | a name of at most 100 letters, digits and `_` is left as it is |
| Lyra.SanitizeIdempotent | my-lyra.js:97 | sanitising twice equals sanitising once |
| Lyra.AstralCharacter | my-lyra.js:97 | a character outside the basic plane is two units and becomes `__` |
| Lyra.FirstMatchChoice | my-lyra.js:61-69 | a priority rule list picks nothing exactly when no test holds, and otherwise a rule whose test holds while every earlier test fails |
| Lyra.PlatformIsFirstMatch | my-lyra.js:61-69 | the classifier equals the rule list Claude, ChatGPT, Grok, Gemini, NotebookLM, AI Studio, tried in that order |
| Lyra.XComGrokPath | my-lyra.js:65 | `x.com` with path `/i/grok` is Grok |
| Lyra.XComOtherPath | my-lyra.js:65 | `x.com` with the path `/home` is no platform: on `x.com` only the Grok path counts |
| Lyra.TranslateFallback | my-lyra.js:78-84 | `t(key)` returns the key itself exactly when the table lacks it, and a non-empty label otherwise |
| Lyra.AsWrittenAgrees | my-lyra.js:78-84 | off `Object.prototype`'s names, the lookup as written returns the intended string |
| Lyra.InheritedNameLeaks | my-lyra.js:78-84 | as written, `t('toString')` returns the inherited function, not `'toString'` |
| Lyra.ExportMarkdown | my-lyra.js:133-140 | the loop builds exactly the heading followed by each turn's text; the error arises when there is nothing iterable |
| Lyra.ExportFailsOnlyWithoutTurns | my-lyra.js:135 | the export throws exactly for an object without a `conversation` array |
| Lyra.SilentTurn | my-lyra.js:136-137 | a turn adds nothing exactly when both its texts are missing or empty |
| Lyra.TurnsTextPrefix | my-lyra.js:135-138 | later turns only extend the text |
| Lyra.ExportOpensWithTitle | my-lyra.js:134 | the export starts with `# title\n\n` |
| Lyra.ExportTurnInOrder | my-lyra.js:134-138 | each turn's text appears right after the heading and the turns before it |
| Lyra.FileNameShape | my-lyra.js:261 | the file name is a stem of at most 100 letters, digits and `_`, as long as the title up to 100 units, then `.` and the format |
| Lyra.PlatformStem | my-lyra.js:260 | the fallback title `<platform>_chat` is short and made of name characters only |
| Lyra.FallbackFileName | my-lyra.js:260-261 | without a title the file is `<platform>_chat.<format>`, with `null` for an unrecognised page |

## Left out

- User interface, styling, toasts, buttons, the collapse state and the preview window are not modelled. They make no decision about the text.
- Downloads, Blobs, object URLs, the clipboard and `localStorage` are not modelled. The format setting is a parameter.
- Promises, `requestAnimationFrame`, timers and the async re-entrancy flags are not modelled. The model computes the same values synchronously.
- The source mutates a `cloneNode(true)` copy in place (`remove`, `replaceWith`). The model returns a new tree, so the model does not capture aliasing between the clone and the page.
- The `processed` WeakSet in `convertNodeToMarkdown` is dropped. On a tree no node is visited twice, so it never changes the output.
- The HTML parser is left out. A response is stored as its parsed children. Re-parsing the serialized `innerHTML` in `enhancedHtmlToMarkdown` is modelled only as its joining of adjacent text nodes and its dropping of empty ones (`Clean.CleanResponse`). Other parser repairs (misnested tags, implied end tags, entity decoding of text that was never escaped) are not modelled.
- `cleanContent` for the `thinking` type works on the `innerHTML` string; there the serializer is modelled.
- Comment nodes, processing instructions and other node types are not modelled. The tree has only text and element nodes.
- MarkdownLaws.ListIndented: only the start of a list's text is stated to be indented. Continuation lines of a multi-line item are not indented in the source either (`MarkdownLaws.MultiLineItem`), so no every-line claim holds.
- `Markdown.ToNumber`: `Number(start)` is modelled only for blank text and for optionally signed decimal integers, as exact integers. Hexadecimal, fractional and exponent forms map to NaN in the model, although JavaScript gives numbers for them. `Infinity` (and `+Infinity`, `-Infinity`) also map to NaN, so the model writes `NaN. ` where the source writes `Infinity. `. Integers above 2^53 are not rounded to the nearest double, and from 10^21 on the model prints all digits where JavaScript's `String` uses exponent form (`1e+21`).
- `extractConversations` guards each block with `try`/`catch`. The only error it can meet is a child without a `classList` (a text node); the model skips such children without an error.
- `Exporters.pdf` (pdf-lib), `Exporters.png` (html2canvas), the JSON export, the unused Turndown instance, batch export and `getConversationData` are not part of this model. The conversation data is a parameter.
- Lyra.ExportMarkdown: the turn texts are strings or absent. Non-string `text` values, and a `null` turn (which throws in the source), are not modelled.
- Lyra.TranslateAsWritten: the inherited built-ins are represented by their names, not by the function values.
- Lyra.PlatformOf: the host name and path are parameters instead of `location`.
- Lyra.Utf16: titles are Dafny strings of Unicode scalar values, so a JavaScript title holding a lone surrogate cannot be expressed.
- The `catch` branch of `exportCurrent` (the alert) and the `!data` check are not modelled. They only report an error.

Notes on what the code does, which the model follows:

- A list item's line is formed only from element children. So `<ol start="3"><li>A</li><li>B</li></ol>` gives `''` (`MarkdownLaws.BareTextItemsExample`). Wrapping each item's text in a `<p>` gives the numbered lines `3. A\n4. B\n` (`MarkdownLaws.OrderedListExample`).
- Text nodes are trimmed by the walk. So `<p>Hello <strong>World</strong></p>` gives `Hello**World**`.
- Only the first line of a list item is indented. A `<br>` inside an item's paragraph starts a line with no indent (`MarkdownLaws.MultiLineItem`).
- Table rows are neither padded nor truncated to the header width.
- The Lyra file name is `sanitize(title).format`: every character other than an ASCII letter or digit becomes `_`, and the stem is cut at 100 code units.

## Findings

| source | as written | input that shows it | evidently intended | confidence | as-written member | corrected member |
|---|---|---|---|---|---|---|
| my-lyra.js:78-84 | `i18n.t` indexes a plain object literal. So `[key]` also finds the properties every object inherits from `Object.prototype`, and `\|\| key` keeps them because they are truthy | `i18n.t('toString')` returns the inherited `toString` function, not the string `'toString'`; likewise `constructor`, `valueOf` and `__proto__` | a label for a key of the table and the key itself for any other key (an own-property lookup) | not executed; latent, since every call in the file passes a key of the table | Lyra.InheritedNameLeaks | Lyra.TranslateFallback |
