# Codex Archiver — a verified model of its core

Codex Archiver is a browser extension that saves a Codex task page (its report, its
diffs and its logs) as a Markdown or JSON file. This project models the sequential
logic at its heart, in Dafny:

- the text helpers of `content-script.js`:
  - `normalizeDiffText`;
  - `splitReportFromLogs` with `cleanLogs`;
  - `extractLogsRaw`;
  - `slug` and `sanitizeSegment`;
  - the task-title fallback;
  - the de-duplication of captured sections;
  - the version-tab capture loop;
  - `buildMarkdown`;
  - the file-name assembly.
- the tree locators of `rules.js`: `walk`, `collectVersionTabs`,
  `findSectionByHeadings`, `versionLocator` and `taskIdFromUrl`.
- the download helpers of `background.js`:
  - `guessMime`;
  - the base-folder path join;
  - `downloadOne`;
  - the settings merge of `getSettings`;
  - the two export messages.

Modules, one per concern:

- `Text`: JavaScript's whitespace (`\s`, `trim`), ASCII case folding for the `/i`
  patterns, splitting and joining lines, collapsing `\n{3,}`, and run replacement
  (`/x+/g`).
- `DiffText`: `normalizeDiffText`, a loop over line indices.
- `Naming`: `slug`, `sanitizeSegment`, `getTaskTitle` and the exported file name.
- `LogSplit`: `splitReportFromLogs`, with its loops as methods proved against
  specification functions.
- `Dom`: the page as a finite tree of elements with open shadow roots. Elements are
  addressed by paths, and `walk` is an explicit-stack method.
- `Rules`: `collectVersionTabs`, `findSectionByHeadings`, `versionLocator` and
  `taskIdFromUrl`.
- `LogsExtract`: `extractLogsRaw`, a breadth-first search written as a queue method.
- `Export`: the capture loop, the `seen`-set de-duplication and `buildMarkdown`.
- `Background`: `guessMime`, the path join, `downloadOne`, `getSettings` and the
  export message handlers.

Every method is proved equal to a function that specifies it. The lemmas state what
the source promises about that function.

## Model

| member | source | states |
|---|---|---|
| DiffText.NormalizeDiffText | content-script.js:2-24 | The loop returns "" for an empty input. Otherwise its output is the collapsed, trimmed join of the merged lines. The output holds no carriage return and no three consecutive newlines, is trimmed, and keeps the input's non-whitespace characters in order. |
| DiffText.NormalizeLines | content-script.js:5-21 | The `for` loop pushes exactly the lines of the step-by-step specification: each merge or copy in input order, resuming after the merged diff line. |
| DiffText.StepAt | content-script.js:7-20 | One iteration: a number line whose next non-blank line starts (after trimming) with `+`, `-` or a space becomes the trimmed number, three spaces and that line without its leading whitespace, and the loop resumes after it. Any other line is kept and the loop moves one line on. |
| DiffText.NormalizeDiffTextProperties | content-script.js:4-23 | For every input, the normalised text has no `\r` and no `\n\n\n`, and has exactly the input's non-whitespace characters. |
| DiffText.SpaceBranchUnreachable | content-script.js:12-14 | Whenever a line-number line is merged, the following line's first trimmed character is `+` or `-`. The `' '` case can never fire after `trim()`. |
| DiffText.NormalizedNonSpace | content-script.js:6-21 | Merging a number line with the next diff line drops only whitespace, so the non-space characters of the lines survive in order. |
| DiffText.NormalizedCharsOK | content-script.js:6-21 | Any property that every character of the input lines has, and that the space has, holds for every character of the merged lines. |
| Naming.Slug | content-script.js:169-176 | A slug is at most 120 characters long. |
| Naming.SlugCharset | content-script.js:169-176 | A slug is made only of ASCII letters, digits, `.`, `_` and `-`. Upper case is kept. |
| Naming.SlugUnderscores | content-script.js:173-176 | A slug has no `__` and no leading `_`. It has a trailing `_` only when the 120-character cut fell just after one. |
| Naming.SlugKeepsAlnum | content-script.js:170-176 | The letters and digits of the input survive in order: all of them when the slug was not cut, a prefix of them when it was. |
| Naming.SanitizeSegmentSpec | content-script.js:520-523 | An empty value gives the fallback. A non-empty value gives a non-empty segment of `[A-Za-z0-9._-]`, no longer than the value, that keeps its letters and digits. |
| Naming.SanitizeSegmentIdempotent | content-script.js:520-523 | Sanitising a sanitised segment again changes nothing. |
| Naming.TitleFallbackSpec | content-script.js:164-166 | The `document.title` fallback is never empty and never holds " - ". It is "Task" for a blank title, and otherwise a leading part of the trimmed title. |
| Naming.TaskTitleSpec | content-script.js:158-167 | The task title is never empty. It is the first non-blank visible heading, trimmed, and the title fallback when every heading is blank. |
| Naming.CapturedTypes | content-script.js:727-731 | The captured section types are exactly the known types among the keys, each once, in the order report, diffs, logs. |
| Naming.ExportFilenameSpec | content-script.js:732-737 | The exported file name is made of `[A-Za-z0-9._+-]`, so it has no `/` and no whitespace. It ends in `.md` for Markdown and `.json` for JSON. |
| Naming.ExportFilenameChars | content-script.js:737 | A file name assembled from segment characters is made of name characters and ends in the format's extension. |
| LogSplit.SplitReportFromLogs | content-script.js:323-392 | The method computes the specified split. An empty input gives an empty report and empty logs. |
| LogSplit.FindReportEnd | content-script.js:337-360 | The end of the report is the one the Files-block scan or the crumb/shell fallback gives. |
| LogSplit.ScanFilesBlock | content-script.js:340-352 | The `Files (N)` loop reaches the end index its specification function gives. |
| LogSplit.FindCrumbOrShell | content-script.js:354-357 | The fallback loop finds the first crumb or shell-marker line after `Summary`, or -1. |
| LogSplit.FindLogStart | content-script.js:364-382 | The shift loop and the agent-step / useful-command choice give the specified first log line. |
| LogSplit.ReportEnd | content-script.js:337-360 | The report ends strictly after its `Summary` line and within the input. |
| LogSplit.ReportEndAfterFiles | content-script.js:338-352 | When a later `Files (N)` line exists, the report takes in that line and every line after it up to the first non-blank marker line. At the end of the input, a blank last line is left out. |
| LogSplit.FilesScanSpec | content-script.js:340-352 | Every non-blank line the Files-block loop walks over is no marker. The loop ends at a non-blank marker line, at the end of the input, or on a blank last line. |
| LogSplit.SkipPrefaceSpec | content-script.js:366-367 | The shift loop drops exactly the leading run of blank, crumb and `Implement` lines. |
| LogSplit.PickStartSpec | content-script.js:369-382 | When the first agent step lies 1 to 119 lines in, the log starts there. Failing that, when the first useful command lies 1 to 49 lines in, it starts there. Otherwise it stays where it was. Each target is the first line of its kind. |
| LogSplit.SplitWithoutSummary | content-script.js:333-335 | With no `Summary` line, the report is empty and the logs are `cleanLogs` of the whole control-stripped text. |
| LogSplit.SplitWithSummary | content-script.js:334-384 | With a first `Summary` line, the report is the trimmed join of the lines from it up to the report end, and it starts with "summary". When a later `Files (N)` line exists, the report holds it. The logs are cleaned from the lines at the chosen log start, which is at or after the report end, so lines before `Summary` appear in neither output. |
| LogSplit.ReportStartsWithSummary | content-script.js:362 | The trimmed join of lines that begins with a `Summary` line starts with "summary". |
| LogSplit.CleanLogsSpec | content-script.js:387-391 | `cleanLogs` leaves no crumb line and no `\n\n\n`, and its result is trimmed. |
| LogSplit.CleanLogsIdempotent | content-script.js:387-391 | Cleaning an already cleaned log changes nothing. |
| LogSplit.CleanLogsCharsOK | content-script.js:387-391 | `cleanLogs` introduces no character other than the newline. |
| LogSplit.SplitClean | content-script.js:325-391 | Neither output contains U+0000–U+0009, U+000B–U+001F, U+007F or U+FFFD. Both outputs are trimmed, and the logs have no crumb line and no `\n\n\n`. |
| LogSplit.ExampleSplit | content-script.js:323-392 | `"Summary\nHello\nFiles (2)\n\nroot@host# ls\nmore text"` gives the report `"Summary\nHello\nFiles (2)"` and the logs `"root@host# ls\nmore text"`. |
| LogSplit.CrumbTrimInvariant | content-script.js:329 | Whether a line is a crumb depends only on its trimmed text, and the empty line is not one. |
| LogsExtract.ExtractLogsRaw | content-script.js:264-320 | The method, with its two queue searches, computes the specified text. |
| LogsExtract.PickContainer | content-script.js:282-309 | The queue loop returns the first element passing the test in breadth-first order over visible elements. |
| LogsExtract.VisibleOf | content-script.js:287 | The visible children are exactly the visible members of the list (also used at lines 306 and 311). |
| LogsExtract.FirstElem | content-script.js:282-309 | The pick is None exactly when no element passes. Otherwise it is the earliest element that passes. |
| LogsExtract.BfsBelow | content-script.js:282-295 | Every element the search dequeues is visible and lies below the root. |
| LogsExtract.LogsRawSpec | content-script.js:264-320 | A null root gives "". When the chosen container has at least 3 visible children and the join of those after the first three is longer than 200 characters, that join is the result. In every other case, including when there is no container, the result is the root's text. The container is the first header-like container in breadth-first order, else the first with four visible children. |
| Dom.WalkTree | rules.js:2-17 | The explicit-stack loop emits exactly the specified traversal. |
| Dom.WalkSpec | rules.js:2-17 | `walk` returns every element of the document, shadow trees included, exactly once and at its own address. It returns them in document order: a node before its descendants, light children left to right, and shadow contents after the light subtrees. |
| Dom.DescendantsSpec | rules.js:31-41 | The light descendants of an element lie below it, each at its own address, in document order. |
| Rules.CollectVersionTabs | rules.js:28-49 | The method, with its early return after the header bar, computes the specified tabs. |
| Rules.ConsiderEach | rules.js:32-47 | The `for`/`consider` loop keeps exactly the qualifying elements, in order. |
| Rules.ConsideredSound | rules.js:32-37 | Every kept tab is a visible element that passes the test, labelled by its trimmed text "Version N". |
| Rules.ConsideredComplete | rules.js:32-37 | Every qualifying element of the list is kept. |
| Rules.ConsideredSorted | rules.js:32-47 | The tabs keep the traversal order. |
| Rules.VersionTabsSpec | rules.js:28-49 | Every version tab is a visible element of the document at its own address, with a trimmed label matching `/^version\s*\d+$/i`. The tabs are in document order, not in the order of their numbers. |
| Rules.VersionTabsFromHeader | rules.js:38-41 | When the header bar holds a qualifying button, the result is exactly the header's qualifying buttons. |
| Rules.VersionTabsFromWalk | rules.js:42-47 | Otherwise the result is exactly the qualifying tab, option and button elements of the whole walk. |
| Rules.MatchesLabelExactly | rules.js:53-54 | For non-empty trimmed labels, the escaped-label pattern matches a trimmed text exactly when the text equals a label up to case. |
| Rules.SectionLabelsExact | rules.js:86-94 | For the Diffs and Report labels, a heading matches exactly when its trimmed text equals one of them up to case. |
| Rules.FindHeading | rules.js:56-65 | The loop stops at the first visible heading with a matching text. |
| Rules.FindSectionByHeadings | rules.js:51-70 | The method computes the specified section. |
| Rules.SectionNotFound | rules.js:51-70 | When no visible heading of the document matches, the result is null. |
| Rules.SectionHeadingFirst | rules.js:56-65 | The heading found is a matching visible heading, and no earlier one in document order matches. |
| Rules.SectionIsNextSibling | rules.js:66-69 | When a later sibling of that heading is visible, the result is the first visible later sibling, and every sibling in between is hidden. |
| Rules.SectionIsParent | rules.js:66-69 | When every later sibling is hidden, the result is the heading's parent element, which is null for a child of the document or of a shadow root. |
| Rules.VersionLocatorSpec | rules.js:73-81 | The first selected tab or current option wins with its trimmed text. Otherwise the result is "" exactly when there are no tabs, and else it is the label of the first highlighted tab, or of the first tab when none is highlighted. |
| Rules.TaskIdFromUrl | rules.js:97 | With no match the result is "task". Otherwise it is the leftmost match of `task_` followed by word characters, extended as far as the run goes. |
| Export.Dedup | content-script.js:481-486 | The `seen`-set filter keeps exactly the first capture of each key. The same filter is repeated at content-script.js:709-713 where a missing text counts as ""; that key is the same here, since every capture's text is a string. |
| Export.DedupSpec | content-script.js:481-486 | The kept captures have pairwise distinct keys. Every first capture of a key is kept, and every key of the input is represented. |
| Export.KeepFirstIndices | content-script.js:481-486 | The result is an order-preserving subsequence of the input: it sits at strictly increasing indices, each the first with its key. |
| Export.DedupDistinct | content-script.js:481-486 | Captures with pairwise distinct keys all survive, unchanged and in order. |
| Export.DedupCollapses512 | content-script.js:481-486 | In any capture list, a later capture with the same key and label as an earlier one, whose text agrees with it on the first 512 characters, is not first with its key and is not kept. |
| Export.TaggedSpec | content-script.js:468 | A capture from a version tab keeps its key and text, and its name gets " (tab)" appended. Outside the tab loop it is unchanged. |
| Export.CaptureAll | content-script.js:454-479 | The nested tab and section loops collect exactly the specified captures. |
| Export.CapturesInSpec | content-script.js:465-478 | The captures of one view are at most one per key. Each is a capture the oracle returned for that key, and each key the oracle answers is captured. |
| Export.CapturesOverSpec | content-script.js:460-471 | The tab loop yields at most (tabs × keys) captures. Each comes from one tab and key, and every answered pair appears. |
| Export.Decimal | content-script.js:645-647 | The decimal numeral of a heading number has at least one digit and no leading zero, and it has one digit exactly below 10. |
| Export.DecimalValue | content-script.js:645-647 | The numeral reads back as the number. |
| Export.GroupByKey | content-script.js:635-638 | The grouping loop puts, under every key, exactly that key's sections in their order. |
| Export.PushGroup | content-script.js:640-656 | Pushing a group appends exactly its specified lines. |
| Export.PushGroups | content-script.js:639-657 | The loop over report, diffs and logs appends exactly the lines of those groups in that order. |
| Export.BuildMarkdown | content-script.js:622-659 | The method builds exactly the newline-join of the specified document lines. |
| Export.GroupLinesSpec | content-script.js:640-656 | A group of n items has 2 + 5n lines: the `##` heading, then per item a `###` heading (numbered only when n > 1), the opening fence (`diff`, `json` or `text`), the text, the closing fence and a blank line. |
| Export.HeadingsDistinct | content-script.js:645-648 | The numbered item headings of a group are pairwise distinct. |
| Export.KnownOnly | content-script.js:635-642 | Only report, diffs and logs sections appear, and the group sizes add up to the number of known sections. |
| Export.MarkdownKnownOnly | content-script.js:630-657 | A non-empty input with only unknown keys gives the header alone, without the "no sections" line. An input with known keys gives the same document as its known sections alone. |
| Background.Extension | background.js:10 | The extension is a suffix of the name without a dot. It is the whole name, or it is preceded by the last dot. |
| Background.GuessMimeSpec | background.js:9-17 | The MIME type is text/markdown, application/json, text/html, text/x-diff or text/plain exactly when the extension is one of the listed ones up to case. It is application/octet-stream exactly when it is none of them. |
| Background.ExportPathSpec | background.js:186 | The export path has no `//`. Its non-slash characters are the folder's followed by the path's, and collapsing it again changes nothing. |
| Background.ExportPathKeepsName | background.js:195 | A slash-free file name ends the export path verbatim, after a `/`. |
| Background.DownloadOneSpec | background.js:19-26 | The download file name is the path without its leading run of `/`. The data URL uses the given MIME, or the guessed one when it is missing. |
| Background.DownloadOfExportPath | background.js:192-197 | A saved path has no leading `/` and no `//`, and keeps the folder's and the path's other characters. |
| Background.SavedFileType | background.js:195-197 | A saved Markdown or JSON file name stays the last path segment and is typed text/markdown or application/json by the extension. |
| Background.ExportedFileType | background.js:192-197 | The file name the content script builds is saved as the last path segment, with the MIME type of its format. |
| Background.StorageGet | background.js:42 | A storage read with the defaults as keys returns exactly the default keys. |
| Background.GetSettingsAsWrittenSpec | background.js:40-50 | As written, the settings have exactly the default keys, each stored value overriding its default. |
| Background.LegacyExportModeIgnored | background.js:43-46 | A store holding only `exportMode: 'markdown'` gives the JSON format as written and the Markdown format as intended. |
| Background.GetSettingsSpec | background.js:43-46 | As intended, stored keys override defaults. When `defaultFormat` is not stored, a stored string `exportMode` sets it to markdown or json. |
| Background.BaseFolder | background.js:183 | The base folder is never empty: a missing or falsy setting gives "Documents/codex_archive" (the same expression is at line 194). |
| Background.BaseFolderUnaffected | background.js:183-195 | The base folder is the same whether the settings are read as written or as intended. |
| Background.ExportFilesSpec | background.js:181-190 | Every file of an `EXPORT_FILES` message is saved under the configured folder, with no leading `/`, no `//`, and the folder's then the path's other characters. |

## Left out

- `slug` runs NFKD normalisation first. The model takes its input as already normalised, so only the deletion of U+0300–U+036F is modelled.
- String lengths are counted in characters, not UTF-16 code units. This affects the 120-, 512- and 200-character limits for text outside the Basic Multilingual Plane.
- Case-insensitive matching and `toLowerCase` use ASCII case folding. Every compared literal is ASCII, so the only non-ASCII letters that fold differently (U+0130, U+212A) are not modelled.
- The layout part of the visibility test is an element flag, `rendered`. It stands for the computed-style test (`visibility: hidden`, `display: none`) and the `offsetParent === null` test for elements that are not `position: fixed`. The `hidden` and `aria-hidden` tests are modelled.
- `innerText` and `textContent` are given fields of an element. Layout-dependent text is not computed.
- The locators search the whole document. The optional `root` argument of `walk`, `collectVersionTabs` and `findSectionByHeadings` is not modelled.
- The SVG `className` object (`baseVal`) is not modelled: the class name is a string.
- `captureSection` is an oracle parameter of the capture loop. Its selector queries, "Copy patch" clicks, waits and retries are I/O over the live page.
- The click that restores the active tab after the capture loop, `sleep`, and every timer are left out.
- The panel iframe, the postMessage bridge, `buildJsonPayload`, `encodeBase64`, `Date` and `location.href` are not modelled. The time, the URL and the version are parameters of `buildMarkdown`.
- `chrome.storage`, `chrome.downloads`, the debugger session and `try`/`catch` are not modelled. Downloads are values (`url`, `filename`), and the stored settings are a map parameter.
- Stored settings values are strings or flags only. A falsy `baseFolder` is "" or `false`, and every falsy `mime` is "". Other JavaScript values are not modelled.
- `isAgentStart` and `isUsefulCmd` are modelled with their word boundaries. `isAgentStart` lower-cases its line, and that `toLowerCase` is ASCII, as above. `isUsefulCmd` is case-sensitive and is modelled that way.

## Findings

| source | as written | input that shows it | evidently intended | confidence | as-written member | corrected member |
|---|---|---|---|---|---|---|
| background.js:41-46 | `chrome.storage.sync.get(DEFAULT_SETTINGS)` returns only the keys of the defaults, so `res` always holds `defaultFormat` and never `exportMode`. The legacy mapping can never apply. | a store holding only `{exportMode: 'markdown'}` gives `defaultFormat: 'json'` | the legacy `exportMode: 'markdown'` gives `defaultFormat: 'markdown'` | not executed | Background.LegacyExportModeIgnored | Background.GetSettingsSpec |
