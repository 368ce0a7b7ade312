# Markdown viewer and task logger, modelled in Dafny

This project models two small programs of the Terminal-Work repository and
proves properties of them.

- **The Markdown renderer** (`scripts/md2html.py`). `convert_markdown` splits
  its input on newlines and walks the lines with one flag, `in_code_block`.
  A fence line opens or closes a code block. Lines inside a block are copied
  verbatim. Every other line goes through a fixed pipeline of rewrites:
  - HTML escaping;
  - headers;
  - bold and italic, inline code, links (each a `re.sub`);
  - horizontal rules, list items, checkboxes, blockquotes;
  - blank lines.
  
  The lines are joined again with newlines. `generate_html` puts a title, a
  timestamp and the rendered body into a fixed HTML page.
- **The task logger** (`src/task-logger/TaskLogger.ts`). The class
  `TaskLogger` keeps a task list in a data file and offers these operations:
  - add a task;
  - list tasks by status;
  - get a task by id;
  - complete a task by id;
  - delete a task by id.
  
  Every record read from or written to the file passes through
  `normalizeTask` and `normalizeTaskList`.

The modules follow the programs:

| file | module | contents |
|---|---|---|
| `wrappers.dfy` | `Wrappers` | `Option` and `Result` |
| `strings.dfy` | `Strings` | trimming over a given whitespace set, `split`/`join` on one character, `str.replace` of one character, `slice(0, n)` |
| `md_line.dfy` | `Markdown` | the rewrite pipeline for one line outside a code block |
| `md_convert.dfy` | `MarkdownRender` | the line loop of `convert_markdown` |
| `md_page.dfy` | `HtmlPage` | `generate_html` |
| `task_model.dfy` | `Tasks` | tasks, validation, normalisation, lookup and filtering |
| `task_logger.dfy` | `TaskLogging` | the class `TaskLogger` |

## How the models are built

**`convert_markdown`.**
- It is the method `MarkdownRender.ConvertMarkdown`. The method has the
  source's loop, its flag `inCodeBlock` and the growing list `htmlLines`.
- The loop body is the method `ConvertLine`.
- For a line outside a code block, `RewriteLine` reassigns `line` once per
  rewrite of the source.
- The method is proved against the function `Rendered`, which gives one
  output line per input line.
- The fence logic is stated for any rewrite function `rewrite`. The
  properties of code blocks hold whatever is done to the other lines.

**`re.sub`.**
- `Markdown.Scan` models a `re.sub` call as a left-to-right scan. At each
  position it either replaces the match found there and resumes after it,
  or copies one character.
- `MatchAt` gives what Python's backtracking matcher finds at a position:
  - A body `[^*]+` can only be the longest run free of `*`, and that run
    must then be followed by the closing delimiter.
  - The pattern `\s+(.+)$` gives back one whitespace character when nothing
    else is left for `(.+)`. So `##` followed by two spaces is a header
    whose text is one space.
- Each line comes from splitting on `\n`, so no line holds a newline. The
  models of `.` and `$` rely on that, and every function carries it as a
  contract.

**`TaskLogger`.**
- The class's fields hold what the data file holds: the tasks, the schema
  version and the time of the last save.
- `Load()` is the list as `loadTaskList` would parse and normalise it.
- `Save` is `saveTaskList`.
- The invariant `Valid()` says that every stored task survives a reload
  unchanged (`Stable`). So `Load()` gives back what was stored
  (`LoadIsStored`).
- The ids that `randomUUID` would produce and the clock readings are
  parameters.
- Thrown errors are `Failure` results.

### Quirks of `md2html.py` the model keeps

- **Fence test.** A fence is a line that starts with three backticks as it
  stands, untrimmed. An indented fence is an ordinary line.
- **Checkbox rules.** The list rule runs before the checkbox rules and turns
  `- [x] done` into `<li>[x] done</li>`. The checkbox rules therefore never
  change a line (`CheckboxRulesNeverFire`, `CheckboxLineIsItem`).
- **Blockquotes.** The blockquote test on `>` runs after `>` has been escaped
  to `&gt;`, so it never fires (`BlockquoteNeverFires`).
- **Line rules.** Every line-level rule runs, each on the output of the one
  before. A rule whose output starts with a tag leaves nothing for the later
  rules to match.

## Model

| member | source | states |
|---|---|---|
| MarkdownRender.ConvertMarkdown | scripts/md2html.py:10-84 | The result is the rendered lines joined by newlines. Split on newlines, it gives back exactly those lines, one per input line. |
| MarkdownRender.ConvertLine | scripts/md2html.py:16-30 | One pass of the loop. Given the flag for line i, it emits output line i and returns the flag for line i + 1. |
| MarkdownRender.RewriteLine | scripts/md2html.py:32-80 | Passing `line` through the thirteen rewrites in source order gives `RenderLine` of the input. |
| MarkdownRender.Rendered | scripts/md2html.py:12-16 | There is one output line per input line. |
| MarkdownRender.RenderedAt | scripts/md2html.py:16-30 | Output line j is what the loop emits for input line j. |
| MarkdownRender.RenderedWithAt | scripts/md2html.py:16-30 | For any treatment of ordinary lines, output line j depends only on input line j and the flag before it. |
| MarkdownRender.RenderedSplits | scripts/md2html.py:82-84 | No output line holds a newline, so splitting the joined output recovers the output lines. |
| MarkdownRender.OutputLine | scripts/md2html.py:18-30 | A newline-free input line gives a newline-free output line. |
| MarkdownRender.OutputLineCases | scripts/md2html.py:18-30 | Unfolding lemma: `OutputLine` taken apart into its four cases, the form in which the loop body uses it. A fence inside a block emits `</code></pre>`. A fence outside one emits the opening tags with the language. A line inside a block is copied. Any other line is rendered. |
| MarkdownRender.InCodeStep | scripts/md2html.py:18-25 | Unfolding lemma: one step of `InCode`, so the flag flips exactly at fence lines. |
| MarkdownRender.InCodeIsOdd | scripts/md2html.py:14-26 | The flag before line k is set exactly when an odd number of the first k lines are fences. |
| MarkdownRender.IsFence | scripts/md2html.py:18 | A fence is a line that starts with three backticks, untrimmed. It is the test that flips the code-block flag. |
| MarkdownRender.CodeOpen | scripts/md2html.py:23-24 | The opening line is `<pre class="code-block"><code class="language-…">` with the language; with `CodeTagsFacts` it holds no newline for a newline-free language. |
| MarkdownRender.BlockLine | scripts/md2html.py:18-30 | The loop body as a function of the flag: a fence closes or opens a block, a line in a block is copied, any other line is rewritten. `OutputLineCases` and `RenderedWithAt` state these cases. |
| MarkdownRender.Lang | scripts/md2html.py:23 | The language after a fence is never empty (`plaintext` by default) and holds no newline. |
| MarkdownRender.FencesBetween | scripts/md2html.py:18-26 | With no fence after the one at j, the flag stays the opposite of what it was at j. |
| MarkdownRender.UnterminatedFence | scripts/md2html.py:18-30 | An opening fence with no later fence emits the opening tag. Every later line is copied verbatim, so no closing tag appears. |
| MarkdownRender.FencePairsClose | scripts/md2html.py:18-30 | An opening fence and the next fence emit the opening and closing tags. The lines between are copied verbatim, and the flag is cleared afterwards. |
| Markdown.Escape | scripts/md2html.py:33 | The escaped line holds no raw `<` or `>`, and escaping adds no newline. |
| Markdown.Strip | scripts/md2html.py:23 | Python's `str.strip()`: `Trim` over Python's whitespace, so `Strings.Trim`'s contract applies. |
| Markdown.EscapeIsCharwise | scripts/md2html.py:33 | Because `&` is replaced first, the three passes escape each character on its own, as the reference `EscapeEach` does. |
| Markdown.EscapeAppend | scripts/md2html.py:33 | Escaping a concatenation escapes each part. |
| Markdown.EscapeSingle | scripts/md2html.py:33 | A single character is escaped to its entity or kept. |
| Markdown.UnescapeEscape | scripts/md2html.py:33 | Decoding the three entities recovers the original line. |
| Markdown.UnescapeEscapeEach | scripts/md2html.py:33 | Decoding recovers the line from the reference escaping. |
| Markdown.EscapeEachFacts | scripts/md2html.py:33 | The reference escaping is the identity exactly on lines without `&`, `<` and `>`. Otherwise its result holds an `&`. |
| Markdown.EscapeIdempotentIff | scripts/md2html.py:33 | Escaping leaves a line unchanged exactly when the line has no special character. Escaping twice equals escaping once under the same condition, so `&amp;` becomes `&amp;amp;`. |
| Markdown.SpaceThenText | scripts/md2html.py:37 | The capture of `\s+(.+)$` exists exactly when the text has two or more characters and starts with whitespace. The capture is a proper suffix preceded only by whitespace, and starts with a non-space unless it is the last character. |
| Markdown.SpaceThenTextOf | scripts/md2html.py:37 | After a whitespace run, the capture is the text that follows it. |
| Markdown.SpaceThenTextAllSpace | scripts/md2html.py:37 | On whitespace alone, the capture is the last character when there are at least two. Otherwise there is no match. |
| Markdown.HeaderSub | scripts/md2html.py:37-47 | The level-n substitution either keeps the line or produces a tag, and adds no newline. |
| Markdown.MarkerLevel | scripts/md2html.py:36-46 | The branch taken has at most six hashes. |
| Markdown.MarkerLevelIsLongestRun | scripts/md2html.py:36-46 | The branch taken is that of the longest run of leading hashes, capped at six. |
| Markdown.HashesPrefix | scripts/md2html.py:36-46 | `line.startswith('#' * m)` holds exactly when the line starts with at least m hashes. |
| Markdown.HashRunOf | scripts/md2html.py:36-46 | n hashes followed by a non-hash give a run of n. |
| Markdown.Headers | scripts/md2html.py:36-47 | The header step either keeps the line or produces a tag, and adds no newline. |
| Markdown.HeaderAfterHashes | scripts/md2html.py:36-47 | On n hashes (1 to 6) followed by a non-hash, only the level-n pattern is tried. |
| Markdown.HeaderLevel | scripts/md2html.py:36-47 | n hashes, whitespace and text starting with a non-space become `<hn>text</hn>`. |
| Markdown.SevenHashesStay | scripts/md2html.py:36-37 | Seven or more hashes take the six-hash branch, whose pattern fails, so the line is unchanged. |
| Markdown.HeaderOfSpaces | scripts/md2html.py:36-47 | n hashes and two or more whitespace characters make a header of the last one. A single whitespace character leaves the line unchanged. |
| Markdown.Delimiter | scripts/md2html.py:50-58 | Every inline pattern opens with a non-empty delimiter. |
| Markdown.SpanAt | scripts/md2html.py:50-55 | An emphasis or code-span match starts at the delimiter, consumes at least one character, and its replacement starts with the opening tag. `SpanAtOf` and `SpanAtSound` give its exact meaning in both directions. |
| Markdown.LinkAt | scripts/md2html.py:58 | A link match starts at `[`, consumes at least one character, and is replaced by an anchor that adds no newline. `LinkAtOf` and `LinkAtSound` give its exact meaning in both directions. |
| Markdown.MatchAt | scripts/md2html.py:50-58 | Every match starts at the rule's delimiter, consumes at least one character, and is replaced by newline-free text that starts with `<`. `SpanMatch`, `LinkMatch` and `MatchAtSound` give its exact meaning in both directions. |
| Markdown.SpanAtOf | scripts/md2html.py:50-55 | `D body D tail`, with the body free of D's character, matches all of `D body D` and yields `open body close`. |
| Markdown.SpanMatch | scripts/md2html.py:50-55 | The same fact for each emphasis and code rule, with its own tags. |
| Markdown.SpanAtSound | scripts/md2html.py:50-55 | Every span match is the pattern: the delimiter, a non-empty body free of the delimiter's first character, the delimiter again. It is replaced by the opening tag, the body and the closing tag. |
| Markdown.LinkAtOf | scripts/md2html.py:58 | `[caption](target)` with a `]`-free caption and a `)`-free target matches as a whole and yields the anchor. |
| Markdown.LinkAtSound | scripts/md2html.py:58 | Every link match is the pattern: `[`, a non-empty `]`-free caption, `](`, a non-empty `)`-free target, `)`. It is replaced by the anchor of caption and target. |
| Markdown.MatchAtSound | scripts/md2html.py:50-58 | For each rule, what a match consumes is the rule's pattern and what replaces it is the rule's replacement. |
| Markdown.LinkMatch | scripts/md2html.py:58 | The same fact through the rule dispatch. |
| Markdown.Scan | scripts/md2html.py:50-58 | `re.sub` as a left-to-right scan. It has no contract of its own; `ScanNoMatch`, `ScanAtMatch`, `ScanSkip`, `ScanFree`, `ScanKeepsLines` and `ScanHead` state what it does. |
| Markdown.ScanNoMatch | scripts/md2html.py:50-58 | Unfolding lemma: one step of `Scan` where nothing matches, copying one character. |
| Markdown.ScanAtMatch | scripts/md2html.py:50-58 | Unfolding lemma: one step of `Scan` at a match, which is replaced as a whole while the scan resumes right after it. |
| Markdown.ScanSkip | scripts/md2html.py:50-58 | Text free of the pattern's first character is copied, and the scan resumes after it. |
| Markdown.ScanFree | scripts/md2html.py:50-58 | Text without the pattern's first character is left unchanged. |
| Markdown.ScanKeepsLines | scripts/md2html.py:50-58 | Newline-free text stays newline-free. |
| Markdown.ScanHead | scripts/md2html.py:50-58 | The result starts with the text's first character or with a tag. |
| Markdown.MatcherFacts | scripts/md2html.py:50-58 | Each inline rule's matcher meets the conditions the scan lemmas need. |
| Markdown.Sub | scripts/md2html.py:50-58 | One inline substitution leaves text without its delimiter unchanged, adds no newline, and starts its result with the first character or with a tag. |
| Markdown.SubAtMatch | scripts/md2html.py:50-58 | A match at the start is replaced, and the substitution continues after it. |
| Markdown.SubSkip | scripts/md2html.py:50-58 | Text free of the rule's delimiter character is copied. |
| Markdown.SubNoMatch | scripts/md2html.py:50-58 | A character other than the delimiter's is copied. |
| Markdown.SubNoOpen | scripts/md2html.py:50-55 | Where the delimiter does not start the text, one character is copied. |
| Markdown.Inline | scripts/md2html.py:50-58 | The five substitutions in source order add no newline, and the result starts with the line's first character or with a tag. |
| Markdown.LoneStar | scripts/md2html.py:50-51 | A single star not followed by another opens no bold or bold-italic span. |
| Markdown.StarsStay | scripts/md2html.py:50-51 | The triple-star and double-star rules leave a single-star pair around star-free text unchanged. |
| Markdown.ItalicSpan | scripts/md2html.py:52 | A single-star pair around star-free text becomes `<em>…</em>`, and the text around it is kept. |
| Markdown.PairStays | scripts/md2html.py:50 | The triple-star rule leaves `**b**` unchanged. |
| Markdown.BoldBeforeItalic | scripts/md2html.py:50-58 | `**b**` becomes `<strong>b</strong>`, not two italics. |
| Markdown.CodeSpan | scripts/md2html.py:55 | A backtick-free body between backticks becomes an inline code element. |
| Markdown.EmphasisInsideCode | scripts/md2html.py:50-58 | Emphasis runs before code spans, so a star pair inside backticks becomes emphasis inside the code element. |
| Markdown.TagsAreInert | scripts/md2html.py:50-58 | No inserted tag holds `*`, a backtick or `[`, so a later inline rule never matches inside a tag. |
| Markdown.LinkRendered | scripts/md2html.py:58 | A link becomes an anchor with `target="_blank"`. |
| Markdown.HorizontalRule | scripts/md2html.py:61-64 | The rule step either keeps the line or produces a tag. |
| Markdown.RuleLine | scripts/md2html.py:61-62 | A line whose stripped text is `---` renders as `<hr>`. |
| Markdown.DoubleRuleLine | scripts/md2html.py:63-64 | A line whose stripped text is a non-empty run of `═` renders as `<hr class="double">`. |
| Markdown.ListItem | scripts/md2html.py:67-68 | The list step either keeps the line or produces a tag. |
| Markdown.ListItemOf | scripts/md2html.py:67-68 | A bullet, whitespace and text starting with a non-space become `<li>text</li>`. |
| Markdown.CheckboxItem | scripts/md2html.py:71-72 | The checkbox step either keeps the line or produces a tag. |
| Markdown.ListItemUnmarked | scripts/md2html.py:67-72 | Whatever the list step emits is left alone by a checkbox rule. |
| Markdown.CheckboxRulesNeverFire | scripts/md2html.py:67-72 | The checkbox rules never change what the rule and list steps produced. |
| Markdown.CheckboxLineIsItem | scripts/md2html.py:67-72 | `- [ ] text` and `- [x] text` become plain list items that keep their brackets. |
| Markdown.Blockquote | scripts/md2html.py:75-76 | The blockquote step either keeps the line or produces a tag. |
| Markdown.BlockquoteNeverFires | scripts/md2html.py:75-76 | After escaping and the earlier steps, no line starts with `>`, so the blockquote step changes nothing. |
| Markdown.BlankLine | scripts/md2html.py:79-80 | A blank line becomes `<br>`, any other line is kept, and the result is never blank. |
| Markdown.LineRules | scripts/md2html.py:61-72 | The rule, list and checkbox steps keep the line or produce a tag, and add no newline. |
| Markdown.ThroughCheckboxes | scripts/md2html.py:33-72 | Every step up to the checkbox rules adds no newline and never produces a leading `>`. |
| Markdown.RenderLine | scripts/md2html.py:32-80 | A rendered line holds no newline and is never blank. |
| Markdown.PlainLine | scripts/md2html.py:33-58 | A line of plain characters is left unchanged by escaping, headers and the inline substitutions. |
| Markdown.PlainInline | scripts/md2html.py:50-58 | The inline substitutions leave a plain line unchanged. |
| Markdown.StrippedPlain | scripts/md2html.py:61 | A line whose stripped text is plain is plain. |
| Markdown.TagSurvives | scripts/md2html.py:67-80 | A line that starts with `<` is left alone by the list, checkbox, blockquote and blank-line steps. |
| Markdown.BlankLineKept | scripts/md2html.py:33-72 | An all-whitespace line passes every step up to the checkbox rules unchanged. |
| Markdown.BlankLineRules | scripts/md2html.py:61-72 | The rule, list and checkbox steps keep an all-whitespace line. |
| Markdown.BlankLineIsBreak | scripts/md2html.py:79-80 | An empty or all-whitespace line renders as `<br>`. |
| Markdown.EmptyLineIsBreak | scripts/md2html.py:79-80 | The empty line renders as `<br>`. |
| Strings.Trim | scripts/md2html.py:61 | The trimmed string is the slice after the leading whitespace and before the trailing whitespace. It is empty exactly when the string is all whitespace. |
| Strings.SkipFrom | scripts/md2html.py:23 | Returns the first non-whitespace index at or after i, all whitespace before it. |
| Strings.SkipBack | scripts/md2html.py:23 | Returns the end of a slice once its trailing whitespace is dropped. |
| Strings.TrimSubset | scripts/md2html.py:61 | Trimming keeps only characters of the original. |
| Strings.TrimKeeps | scripts/md2html.py:61 | A non-whitespace character of the string survives trimming. |
| Strings.TrimmedFixed | src/task-logger/TaskLogger.ts:273 | A string with no whitespace at either end is its own trim. |
| Strings.TrimIdempotent | src/task-logger/TaskLogger.ts:273 | Trimming twice is trimming once. |
| Strings.AllInExcludes | scripts/md2html.py:33-58 | A character rejected by a predicate does not occur in a string whose every character satisfies it. |
| Strings.Split | scripts/md2html.py:12 | `split` on one character gives at least one piece, and no piece holds the separator. |
| Strings.SplitNoSep | scripts/md2html.py:12 | Splitting text without the separator gives the text itself. |
| Strings.SplitConcat | scripts/md2html.py:12 | Splitting a separator-free piece followed by the separator and more text gives that piece followed by the pieces of the rest. |
| Strings.SplitJoin | scripts/md2html.py:84 | Splitting the join of separator-free pieces gives the pieces back. |
| Strings.JoinSplit | scripts/md2html.py:12 | Joining the pieces of a split gives the text back. |
| Strings.ReplaceChar | scripts/md2html.py:33 | Replacing a character that does not occur is the identity, and a replacement free of the character removes it. |
| Strings.ReplaceCharFrom | scripts/md2html.py:33 | Every character of the result comes from the replacement text or is a kept character of the original. |
| Strings.ReplaceAppend | scripts/md2html.py:33 | Replacing in a concatenation replaces in each part. |
| Strings.RunLen | scripts/md2html.py:50-58 | Returns the longest prefix free of a character, stopping at that character. |
| Strings.RunLenOf | scripts/md2html.py:50-58 | A run stops exactly at the first occurrence. |
| Strings.Take | src/task-logger/TaskLogger.ts:252 | `slice(0, n)` is the prefix of length min(n, length). |
| HtmlPage.PageSplit | scripts/md2html.py:90-272 | Unfolding lemma: the page regrouped as the part before the body, the body, and the part after it. |
| HtmlPage.GenerateHtml | scripts/md2html.py:86-272 | `generate_html` with the timestamp passed in. It has no contract of its own; `PageBoundaries`, `TitleInHead`, `TitleAndTimestampInHeader`, `ContentRoundTrip` and `ContentInjective` state its properties. |
| HtmlPage.PageEnds | scripts/md2html.py:90-272 | A page built from any template pieces starts with the doctype and ends with the closing tag. |
| HtmlPage.PageTitleInHead | scripts/md2html.py:95 | The title element sits in the head at a fixed offset. |
| HtmlPage.PageHeader | scripts/md2html.py:261-262 | The title and the timestamp elements follow one another in the page header. |
| HtmlPage.OccursBeforeBody | scripts/md2html.py:90-264 | Text found before the body is found in the page. |
| HtmlPage.ContentOf | scripts/md2html.py:264-272 | Reading the body back yields text that rebuilds the page. |
| HtmlPage.PageContentRoundTrip | scripts/md2html.py:265 | The body is put in verbatim and can be read back. |
| HtmlPage.PageBoundaries | scripts/md2html.py:90-272 | A generated page starts with `<!DOCTYPE html>` and ends with `</html>`. |
| HtmlPage.TitleInHead | scripts/md2html.py:95 | The title appears in `<title>title - MD Viewer</title>` in the head. |
| HtmlPage.TitleAndTimestampInHeader | scripts/md2html.py:261-262 | The title appears again in `<div class="title">`, followed by the timestamp element. |
| HtmlPage.ContentRoundTrip | scripts/md2html.py:265 | The body appears verbatim in the generated page and is recovered from it. |
| HtmlPage.ContentInjective | scripts/md2html.py:265 | Different bodies give different pages. |
| Tasks.NormalizeTask | src/task-logger/TaskLogger.ts:223-263 | A record yields a task exactly when id, trimmed description, creation time and creator are present and non-empty. The task has the description trimmed and cut to 500, an unknown status as pending, and `completedAt` only when non-empty. |
| Tasks.NormalizedWellFormed | src/task-logger/TaskLogger.ts:223-263 | Every normalised task has non-empty fields and a description of 1 to 500 characters that starts with a non-space. |
| Tasks.StatusRoundTrip | src/task-logger/TaskLogger.ts:233-236 | A status written as text reads back as itself. |
| Tasks.StableIff | src/task-logger/TaskLogger.ts:223-263 | A task survives a save and a reload exactly when it is well formed and its description does not end in whitespace. |
| Tasks.SecondPassStable | src/task-logger/TaskLogger.ts:165-170 | Normalising a normalised task again reaches a fixed point. |
| Tasks.FirstPassNotStable | src/task-logger/TaskLogger.ts:252 | A description cut to 500 right after a space is not stable: the next save drops that space. |
| Tasks.NormalizeAll | src/task-logger/TaskLogger.ts:200-204 | The normalised list is no longer than the candidate list. |
| Tasks.NormalizeAllAppend | src/task-logger/TaskLogger.ts:200-204 | Normalising a concatenation normalises each part, keeping order. |
| Tasks.NormalizeAllKeepsAccepted | src/task-logger/TaskLogger.ts:200-204 | There is one task per accepted candidate, and a task is kept exactly when some candidate normalises to it. |
| Tasks.ToCandidates | src/task-logger/TaskLogger.ts:172 | Each saved task becomes the record it is parsed back as. |
| Tasks.Snapshot | src/task-logger/TaskLogger.ts:165-168 | The list that `saveTaskList` writes, normalised once more: never longer than the list, and made of well-formed tasks. |
| Tasks.SnapshotOfStable | src/task-logger/TaskLogger.ts:165-168 | A list of stable tasks is its own snapshot. |
| Tasks.NormalizeAllWellFormed | src/task-logger/TaskLogger.ts:200-204 | Whatever the file holds, the loaded tasks are well formed. |
| Tasks.NormalizeTaskList | src/task-logger/TaskLogger.ts:193-221 | The list keeps the accepted tasks, or is empty when `tasks` is not an array. Its version is the file's when filled and `1.0.0` otherwise. Its time is the file's when filled and the current time otherwise. Neither is ever empty. |
| Tasks.NormalizeId | src/task-logger/TaskLogger.ts:269-274 | An id fails exactly when it is all whitespace, and the error is `InvalidId`. Otherwise the result is the trimmed id. |
| Tasks.JsTrim | src/task-logger/TaskLogger.ts:273 | JavaScript's `trim()`: `Trim` over JavaScript's whitespace, so `Strings.Trim`'s contract applies. |
| Tasks.NormalizeIdIdempotent | src/task-logger/TaskLogger.ts:269-274 | A normalised id normalises to itself and has no whitespace at either end. |
| Tasks.FindIndex | src/task-logger/TaskLogger.ts:133 | Returns the first index with the id. `None` is returned exactly when no task has it. |
| Tasks.SelectStatus | src/task-logger/TaskLogger.ts:86-91 | A task is selected exactly when it is stored and matches the filter. |
| Tasks.SelectAll | src/task-logger/TaskLogger.ts:87-89 | The `all` filter returns the list itself. |
| Tasks.SelectAppend | src/task-logger/TaskLogger.ts:86-91 | Filtering a concatenation filters each part, so stored order is kept. |
| Tasks.SelectPartition | src/task-logger/TaskLogger.ts:86-91 | The pending and completed selections together have as many tasks as the list. |
| Tasks.CheckNewTask | src/task-logger/TaskLogger.ts:51-66 | The error is empty description exactly when the trimmed description is empty. It is too long exactly when the trimmed description is non-empty and over 500. It is missing creator exactly when the description passes and the trimmed creator is empty. |
| Tasks.NewTask | src/task-logger/TaskLogger.ts:70-76 | The new task has the given id and creation time, the trimmed description and creator, status pending and no completion time. It is well formed when the checks pass. |
| Tasks.NewTaskStable | src/task-logger/TaskLogger.ts:68-79 | A task created after the checks pass is stored unchanged by the next save. |
| Tasks.Complete | src/task-logger/TaskLogger.ts:105-113 | A completed task has status completed and a non-empty completion time. A task that was pending, or completed without a time, gets the current time, replacing any earlier one. Its other fields are kept, and a task already completed with a time is unchanged. |
| Tasks.CompleteIdempotent | src/task-logger/TaskLogger.ts:105-113 | Completing twice, at any times, is completing once. |
| Tasks.CompleteStable | src/task-logger/TaskLogger.ts:105-116 | Completing a stable task leaves it stable. |
| Tasks.RemoveAt | src/task-logger/TaskLogger.ts:139 | `splice(i, 1)` shortens the list by one, and putting the element back at i restores the list. |
| TaskLogging.TaskLogger.constructor | src/task-logger/TaskLogger.ts:185-191 | A logger without a data file starts from an empty list with the current version and time. |
| TaskLogging.TaskLogger.Load | src/task-logger/TaskLogger.ts:144-163 | The loaded list is never longer than the stored one and holds only well-formed tasks. |
| TaskLogging.TaskLogger.LoadIsStored | src/task-logger/TaskLogger.ts:144-163 | Loading gives back the stored tasks. |
| TaskLogging.TaskLogger.Save | src/task-logger/TaskLogger.ts:165-177 | Saving stores the normalised list, the version `1.0.0` and the time of the save. |
| TaskLogging.TaskLogger.AddTask | src/task-logger/TaskLogger.ts:50-82 | A failed check returns its error and changes nothing. Otherwise the new pending task is appended after the unchanged earlier tasks and returned. |
| TaskLogging.TaskLogger.ListTasks | src/task-logger/TaskLogger.ts:84-94 | The result is the stored list filtered by `SelectStatus`, which keeps stored order and duplicates. `all` returns every task. A status returns exactly the tasks with it, and together with the other status's selection it accounts for the whole list. |
| TaskLogging.TaskLogger.GetTask | src/task-logger/TaskLogger.ts:122-128 | A blank id is the error `InvalidId`, and no other id fails. Otherwise the result is the first task with the trimmed id, or none exactly when no task has it. |
| TaskLogging.TaskLogger.CompleteTask | src/task-logger/TaskLogger.ts:96-120 | A blank id is the error `InvalidId`, and an unknown id returns none; neither changes anything. Otherwise only the first task with the id is completed. The file is saved only when that task changed. |
| TaskLogging.TaskLogger.DeleteTask | src/task-logger/TaskLogger.ts:130-142 | A blank id is the error `InvalidId` and an unknown id returns `false`; neither changes anything. Otherwise the first task with the id is removed and the result is `true`. |
| TaskLogging.RemoveAtStable | src/task-logger/TaskLogger.ts:139-140 | Removing a task from stable tasks leaves stable tasks. |
| TaskLogging.DeleteRemovesFirstMatch | src/task-logger/TaskLogger.ts:133-139 | Deleting keeps the tasks before and after the removed one in order. No earlier task has the id, and the multiset loses exactly the removed task. |

## Left out

- The command-line block of `md2html.py` (reading a file or standard input, the title from the file name, printing) is input and output, not logic.
- TaskLogging.TaskLogger.ListTasks: the filter's default of `all` is not modelled. A caller always passes the filter, and `All` gives what the default gives.
- `datetime.now()` in `generate_html` is a clock reading. The timestamp is a parameter and its format is not modelled.
- The style sheet of the page template is fixed text that depends on no argument. It is the opaque constant `HtmlPage.StyleSheet`.
- `scripts/generate-image-imagen.py` is not part of this model. It is argument parsing and calls to a remote image service.
- The two `re.sub` models of `.` and `$` hold for newline-free lines only. Every line the program rewrites comes from splitting on newlines.
- The TaskLogger file layer (`fs` reads and writes, JSON parsing and printing, the temporary-file rename, `ensureDataDir`, `quarantineCorruptedFile` and the constructor's paths) is input and output.
  - JSON parsing is replaced by the parsed shapes `Candidate` and `ListCandidate`. In these shapes a field that is not a string is absent.
  - The class state is the data file as this logger last saved it. A file changed by another process between calls, and a corrupted file, are covered only by the pure `NormalizeTaskList`, not by the class.
- `randomUUID()` and `new Date().toISOString()` are not modelled. Their values are non-empty parameters, and ids are not assumed unique, matching the code, which never checks.
- Tasks.CheckNewTask: JavaScript's `length` counts UTF-16 code units, while Dafny counts characters. A description with characters outside the Basic Multilingual Plane is measured, and cut by `Take`, differently.
- TaskLogging.TaskLogger.AddTask: `description?.trim()` on values that are not strings is not modelled, since the method takes strings.
- The copies that the logger returns (`{ ...task }`) are not modelled. Tasks are values here, so a copy equals the original.
- The loop body of `convert_markdown` is the separate method `ConvertLine`, and the per-line rewrites are the method `RewriteLine`. The `continue` statements become `if`/`else` branches.
