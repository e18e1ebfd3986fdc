# Issue conversation parser and summarizer

This project models the two text-processing components of the issue tooling.

The first is the conversation parser (`src/issue-reader.ts`). An issue file
is markdown whose sections are separated by a line holding only `---`. The
parser splits the file on `"\n---\n"` and trims every section. It keeps the
sections that start with `@user:` or `@claude:`, in order, and numbers them
0, 1, 2, ... with a running counter. Empty and malformed sections consume no
number. Each message keeps its `@author:` prefix.

The second is the summarizer (`src/issue-summarize.ts`), which does five things:

- It finds an issue by bare filename in the `open`, `review` and `stuck`
  directories, in that order. It can also take an explicit path, and then
  reads the status off the path.
- It abbreviates the messages by position. The first and the last message
  are cut at 230 characters. The messages between them are cut at 70.
- It reads an `--index` specification: `N`, or `M,N`.
- It expands the selected messages back to their full text.
- It renders the terminal report: a `status/filename` header, one
  `[i] @author: text` line per shown message, and a hint line.

The model is in four files:

- `wrappers.dfy`: `Option` and `Result`.
- `js_string.dfy` (module `JsString`): the JavaScript built-ins the code
  relies on, over `seq<char>`. They are `trim`, `trimStart` and `trimEnd`
  (with the ECMA-262 white-space set), `startsWith`, `includes`/`indexOf`,
  `split` with a non-empty separator, `join`, `parseInt(s, 10)` and the
  decimal rendering of an index.
- `issue_reader.dfy` (module `IssueReader`): the parser. `ParseIssueContent`
  is the loop of the source, proved equal to the specification function
  `SectionMessages`.
- `issue_summarize.dfy` (module `IssueSummarize`): the summarizer. The loops
  of `locateIssueFile`, `createAbbreviatedMessages`, `parseIndexSpec` and
  `formatIssueSummary` are methods. Each is proved equal to a specification
  function (`Locate`, `Abbreviate`/`AbbreviatedByPosition`, `IndexSpec`,
  `ReportLines`), and the lemmas are stated about those functions.

Where the code and its tests or documentation disagree, the model follows
the code:

- The limits are 230 and 70, not 300 and 80.
- The appended ellipsis is the three characters U+00E2 U+20AC U+00A6. This
  is how the UTF-8 bytes of `…` read as Windows-1252, and it is what the
  source literal holds. An abbreviated content is therefore at most
  `maxLength + 3` long.
- `parseIndexSpec` returns `{indices, isSingleIndex}`, not a bare array.
- The report has no `[OPEN]`, `Messages:` or `[abbreviated]` markers.
- A parsed message has only `index` and `content`, and the content keeps its
  `@author:` prefix.

The summarizer reads each message's `author` (src/issue-summarize.ts:42,
155), but the parser produces no such field. The summarizer is therefore
modelled over messages that carry an author (`AuthoredMessage`), given as a
parameter.

Filesystem access is replaced by parameters:

- The set of existing paths is a `set<string>` parameter.
- `path.join(a, b)` is `a + "/" + b`.
- `path.resolve(r)` of a relative reference is `cwd + "/" + r`, with the
  working directory as a parameter.
- `readIssue` receives the outcome of the file read as a
  `Result<string, string>`.

## Model

| member | source | states |
|---|---|---|
| JsString.IsWhitespace | src/issue-reader.ts:57 | defined as: the WhiteSpace and LineTerminator code points of ECMA-262 (sections 12.2 and 12.3), which `trim`, `trimStart`, `trimEnd` and `parseInt` skip |
| JsString.TrimStart | src/issue-reader.ts:57 | the result is no longer than the input and does not start with white space |
| JsString.TrimStartIsSuffix | src/issue-reader.ts:57 | `trimStart` keeps a suffix of its input |
| JsString.TrimStartDropsWhitespace | src/issue-reader.ts:57 | the characters `trimStart` drops are all white space |
| JsString.TrimEnd | src/issue-summarize.ts:149 | the result is no longer than the input and does not end with white space |
| JsString.TrimEndIsPrefix | src/issue-summarize.ts:149 | `trimEnd` keeps a prefix of its input |
| JsString.TrimEndDropsWhitespace | src/issue-summarize.ts:149 | the characters `trimEnd` drops are all white space |
| JsString.Trim | src/issue-reader.ts:57 | the result begins and ends with a non-white-space character (or is empty) and is no longer than the input |
| JsString.TrimProperties | src/issue-reader.ts:57-62 | `trim` keeps only characters of its input; it is empty exactly when the input is all white space; it leaves a trimmed string unchanged |
| JsString.StartsWith | src/issue-reader.ts:65 | defined as: the text begins with the pattern; the author markers are tested with it |
| JsString.IndexOfFrom | src/issue-summarize.ts:105 | a found position holds the pattern, and no earlier position from the start point does |
| JsString.IndexOf | src/issue-summarize.ts:112-114 | `indexOf` finds the leftmost occurrence, and `None` means the pattern occurs nowhere |
| JsString.Contains | src/issue-summarize.ts:105 | defined as: `indexOf` finds the pattern; by `IndexOf`, false exactly when the pattern occurs nowhere |
| JsString.Split | src/issue-reader.ts:52 | `split` gives at least one piece; joining the pieces with the separator restores the input; no piece contains the separator |
| JsString.PrefixBeforeFirstAvoids | src/issue-reader.ts:52 | the text before the first occurrence of the separator does not contain it |
| JsString.SplitFirstPiece | src/issue-reader.ts:52 | when the separator does not occur inside `a`, splitting `a + sep + rest` yields `a` followed by the pieces of `rest` |
| JsString.SplitWithoutSeparator | src/issue-reader.ts:52 | a text without the separator splits into itself alone |
| JsString.SplitWithoutChar | src/issue-summarize.ts:222 | a text without the one-character separator splits into itself alone |
| JsString.SplitAtChar | src/issue-summarize.ts:222 | splitting at the first one-character separator yields the text before it followed by the pieces of the rest |
| JsString.Join | src/issue-summarize.ts:298 | defined as: the pieces with the separator between consecutive ones; `Split`'s round trip, `JoinAvoids` and `JoinEnds` state its properties |
| JsString.JoinAvoids | src/issue-summarize.ts:298 | a character found in neither the pieces nor the separator is absent from the joined text |
| JsString.JoinEnds | src/issue-summarize.ts:298 | the joined text starts with the first piece and ends with the last |
| JsString.DigitChar | src/issue-summarize.ts:327 | a digit value renders as a decimal digit with that value |
| JsString.DigitsValue | src/issue-summarize.ts:226 | defined as: the decimal value of a run of digits, most significant first; `NatToStringValue` and `ParseDigitsOf` state that rendering and `parseInt` agree with it |
| JsString.NatToString | src/issue-summarize.ts:327 | an index renders as a non-empty run of decimal digits without a leading zero |
| JsString.NatToStringValue | src/issue-summarize.ts:327 | the rendered digits denote the index they came from |
| JsString.LeadingDigits | src/issue-summarize.ts:226 | the longest run of digits at the start of a text, followed by the end of the text or by a non-digit |
| JsString.ParseDigits | src/issue-summarize.ts:226 | NaN exactly when no digit starts the text; otherwise a non-negative value |
| JsString.ParseSigned | src/issue-summarize.ts:226 | NaN exactly when no digit follows the optional sign; a negative value only after `-` |
| JsString.ParseInt | src/issue-summarize.ts:226 | after leading white space is skipped, NaN exactly when no digit follows the optional sign; a negative value only when the skipped text starts with `-` |
| JsString.ParseIntLeadingDigits | src/issue-summarize.ts:226 | `parseInt` reads the leading run of digits and ignores whatever follows a non-digit (`"3abc"` gives 3) |
| JsString.ParseIntNegative | src/issue-summarize.ts:226 | a leading `-` negates the value of the digits after it |
| JsString.ParseDigitsOf | src/issue-summarize.ts:226 | a run of digits before a non-digit is read as its decimal value |
| JsString.TrimStartUnchanged | src/issue-summarize.ts:226 | text that does not start with white space is not changed by `trimStart` |
| JsString.LeadingDigitsOf | src/issue-summarize.ts:226 | the leading digit run of `ds + tail` is `ds` when `tail` does not start with a digit |
| JsString.ParseIntOfNat | src/issue-summarize.ts:226 | `parseInt` reads back a rendered non-negative integer, and its negation when it is prefixed by `-` |
| JsString.ParseIntNonNumeric | src/issue-summarize.ts:226-228 | text starting with neither white space, a sign nor a digit yields NaN (`None`) |
| IssueReader.HasAuthorMarker | src/issue-reader.ts:65 | defined as: the text starts with `@user:` or `@claude:`; `KeptPositionsFacts` ties it to which sections are kept |
| IssueReader.IsKeptSection | src/issue-reader.ts:57-65 | defined as: the trimmed section is non-empty and starts with `@user:` or `@claude:`; `KeptPositionsFacts` and `MessagesAreKeptSections` state that exactly these sections become messages |
| IssueReader.SectionMessages | src/issue-reader.ts:54-71 | after any prefix of the sections, the emitted messages are numbered 0..n-1 in order; each content is non-empty, trimmed and starts with `@user:` or `@claude:`; there are no more messages than sections |
| IssueReader.KeptPositionsFacts | src/issue-reader.ts:56-71 | kept positions lie inside the sections and strictly increase; a section is kept exactly when, once trimmed, it is non-empty and carries a marker |
| IssueReader.MessagesAreKeptSections | src/issue-reader.ts:52-72 | there are as many messages as kept sections, and the k-th message is the k-th kept section, trimmed |
| IssueReader.ParsedContent | src/issue-reader.ts:48-78 | defined as: `parseIssueContent` as a function, the messages of the split text with the input as `rawContent`; `ParseIssueContent` is proved equal to it, and `ReadIssue` and `LatestMessageOfParse` are stated with it |
| IssueReader.ParseIssueContent | src/issue-reader.ts:48-78 | the loop with its skip-and-count logic computes `SectionMessages` of the split text; indices are 0..n-1; `rawContent` is the input unchanged |
| IssueReader.ReadIssue | src/issue-reader.ts:30-40 | a failed read gives the error `Failed to read issue file at <path>: <error>`; a successful one gives the parse of the text |
| IssueReader.GetLatestMessage | src/issue-reader.ts:86-91 | none exactly when there are no messages; otherwise the last element of the messages, for any issue value |
| IssueReader.LatestMessageOfParse | src/issue-reader.ts:86-91 | on a parsed file the latest message has index count - 1 and is the last kept section, trimmed |
| IssueReader.ParseEmpty | src/issue-reader.ts:52-62 | empty text yields no messages and an empty `rawContent` |
| IssueReader.ParseSingleMessage | src/issue-reader.ts:52-69 | text without a separator whose trimmed form starts with `@user:` yields exactly one message, index 0, holding the trimmed text |
| IssueReader.SplitSection | src/issue-reader.ts:52 | a section without a hyphen ends at the separator that follows it |
| IssueReader.LastSection | src/issue-reader.ts:52 | text without a hyphen is a single section |
| IssueReader.ParseSkipsMalformed | src/issue-reader.ts:65-71 | valid, malformed, valid yields exactly two messages, numbered 0 and 1; the malformed section consumes no index |
| IssueSummarize.StatusName | src/issue-summarize.ts:315 | defined as: the directory names `open`, `review` and `stuck`, rendered in the header and used by `CandidatePath` as the directory names |
| IssueSummarize.AuthorName | src/issue-summarize.ts:327 | defined as: `user` or `claude`, rendered after `@` in a message line |
| IssueSummarize.PathJoin | src/issue-summarize.ts:71-77 | defined as: `dir + "/" + name`; `BasenameAfterSlash` states that the basename of a joined path is the name |
| IssueSummarize.CandidatePath | src/issue-summarize.ts:71-77 | defined as: `path.join(path.join(issuesDir, dir), filename)` for the directory of a status; `Locate` states that a found path is this path |
| IssueSummarize.SearchRank | src/issue-summarize.ts:70-74 | defined as: the place of a status in the probe order open, review, stuck; `Locate` states that no directory of lower rank holds the file |
| IssueSummarize.Locate | src/issue-summarize.ts:70-90 | the search yields a path that exists, inside the directory of the returned status, with the searched filename; no earlier directory in the order open, review, stuck holds the file; none exactly when no directory does; a file in `open` always wins |
| IssueSummarize.LocateIssueFile | src/issue-summarize.ts:66-91 | the loop with early return computes `Locate` |
| IssueSummarize.Basename | src/issue-summarize.ts:120 | the basename holds no `/`, is a suffix of the path, and is preceded by a `/` when shorter than the path |
| IssueSummarize.IsPathReference | src/issue-summarize.ts:105 | defined as: the reference contains `/` or `\`; `ResolveIssueReference` states both branches it selects |
| IssueSummarize.AbsolutePath | src/issue-summarize.ts:107 | defined as: an absolute reference is kept, a relative one is joined to the working directory |
| IssueSummarize.StatusFromPath | src/issue-summarize.ts:111-116 | defined as: review when the path holds `/review/`, else stuck when it holds `/stuck/`, else open; `OpenPathStatus`, `ReviewPathStatus` and `StuckPathStatus` state it for the searched paths |
| IssueSummarize.ResolveIssueReference | src/issue-summarize.ts:100-129 | a reference with `/` or `\` resolves exactly when its absolute path exists, with status review if the path holds `/review/`, else stuck if it holds `/stuck/`, else open, and the path's basename; any other reference resolves as `Locate` |
| IssueSummarize.BasenameAfterSlash | src/issue-summarize.ts:120 | the basename of `dir + "/" + name`, for a name without `/`, is that name |
| IssueSummarize.PatternAbsentFromPath | src/issue-summarize.ts:112-116 | a directory pattern absent from the issues directory stays absent once a status directory and a bare filename are appended |
| IssueSummarize.PatternInPath | src/issue-summarize.ts:112-116 | a path through `/<name>/` contains that pattern |
| IssueSummarize.OpenPathStatus | src/issue-summarize.ts:111-116 | a path in the `open` directory reads as status open |
| IssueSummarize.ReviewPathStatus | src/issue-summarize.ts:112-113 | a path in the `review` directory reads as status review |
| IssueSummarize.StuckPathStatus | src/issue-summarize.ts:114-115 | a path in the `stuck` directory reads as status stuck |
| IssueSummarize.SearchAgreesWithPathReference | src/issue-summarize.ts:105-121 | the path where the search finds a file, passed back as a reference, resolves to the same status and filename |
| IssueSummarize.Abbreviate | src/issue-summarize.ts:139-160 | index, author and full text are always copied; abbreviated exactly when longer than the limit; unabbreviated content is the input; abbreviated content is a prefix of the input that ends in non-white-space, followed by ELLIPSIS; only white space is dropped before the limit; length at most limit + 3 |
| IssueSummarize.AbbreviateMessage | src/issue-summarize.ts:139-160 | the reassigned locals compute `Abbreviate` |
| IssueSummarize.CreateAbbreviatedMessages | src/issue-summarize.ts:168-192 | one output per input, in order, each abbreviated under the limit of its position; indices and full texts are copied; lengths are within limit + 3; every unabbreviated message shows its full text |
| IssueSummarize.SummarizeIssue | src/issue-summarize.ts:200-211 | the located issue is kept; the messages are abbreviated by position; `messageCount` is the number of messages and of abbreviated messages; no filter is attached |
| IssueSummarize.LimitAt | src/issue-summarize.ts:173-189 | defined as: 230 at the first and the last position, 70 elsewhere; `LimitsByPosition` states the cases |
| IssueSummarize.LimitsByPosition | src/issue-summarize.ts:173-189 | a lone message uses 230; with two or more messages, the ends use 230 and the messages strictly between use 70 |
| IssueSummarize.AbbreviatedByPosition | src/issue-summarize.ts:168-192 | defined as: one result per message, the i-th being the i-th message abbreviated under the limit of position i; `CreateAbbreviatedMessages` establishes it and `AbbreviatedByPositionBounds` states its consequences |
| IssueSummarize.AbbreviatedByPositionBounds | src/issue-summarize.ts:168-192 | every message of a summary copies index, author and full text, stays within its limit + 3, is abbreviated exactly when its text exceeds its limit, and is consistent |
| IssueSummarize.InclusiveRange | src/issue-summarize.ts:240-243 | `start..end` inclusive, of length end - start + 1 and strictly increasing by one |
| IssueSummarize.TrimEach | src/issue-summarize.ts:222 | the parts, each trimmed, one for one |
| IssueSummarize.IndexParts | src/issue-summarize.ts:222 | the comma-separated parts, trimmed, one per piece of the split |
| IssueSummarize.AreIndexParts | src/issue-summarize.ts:224-247 | defined as: one or two parts, each read by `parseInt` as a non-negative number, the last no smaller than the first; `PartsSelection` and `IndexSpec` are valid exactly when it holds |
| IssueSummarize.PartsSelection | src/issue-summarize.ts:224-247 | over the trimmed parts: a selection exactly when there are one or two parts, each a non-negative number, the last no smaller than the first; it is a non-empty run from the first part's value to the last part's value, single exactly when there is one part |
| IssueSummarize.IndexSpec | src/issue-summarize.ts:219-248 | a specification is valid exactly when it has one or two comma-separated parts, each read by `parseInt` as a non-negative number, the last no smaller than the first; a valid one selects a non-empty run of consecutive indices from the first part's value to the last part's value; a single index exactly when there is one part, and then one index; more than two parts are invalid |
| IssueSummarize.FillRange | src/issue-summarize.ts:240-243 | the loop pushes exactly `start..end` inclusive |
| IssueSummarize.ParseIndexSpec | src/issue-summarize.ts:219-248 | the method, with its range-filling loop, computes `IndexSpec` |
| IssueSummarize.IndexSpecSingle | src/issue-summarize.ts:224-231 | `"N"` selects exactly `[N]` as a single index |
| IssueSummarize.IndexSpecRange | src/issue-summarize.ts:233-245 | `"M,N"` with M <= N selects M..N inclusive, not as a single index |
| IssueSummarize.IndexSpecRejectsDescending | src/issue-summarize.ts:237-239 | `"M,N"` with N < M is invalid |
| IssueSummarize.IndexSpecRejectsNegative | src/issue-summarize.ts:227-229 | `"-N"` for positive N is invalid |
| IssueSummarize.IndexSpecRejectsNonNumeric | src/issue-summarize.ts:226-229 | a single part starting with neither white space, a sign nor a digit is invalid |
| IssueSummarize.IndexSpecRejectsThreeParts | src/issue-summarize.ts:247 | three or more comma-separated parts are invalid |
| IssueSummarize.DigitsAvoidComma | src/issue-summarize.ts:222 | a rendered number contains no comma |
| IssueSummarize.DigitsAreTrimmed | src/issue-summarize.ts:222 | a rendered number is unchanged by `trim` |
| IssueSummarize.TwoPartsSplit | src/issue-summarize.ts:222 | `"M,N"` splits into the two numbers |
| IssueSummarize.IndexSpecExampleSingle | src/issue-summarize.ts:224-231 | `"3"` selects `[3]`, single |
| IssueSummarize.IndexSpecExampleRange | src/issue-summarize.ts:233-245 | `"1,3"` selects `[1, 2, 3]`, not single |
| IssueSummarize.IndexSpecExampleTrailingLetters | src/issue-summarize.ts:226-230 | `"3abc"` selects `[3]`, single |
| IssueSummarize.IndexSpecExampleDecimal | src/issue-summarize.ts:226-230 | `"1.5"` selects `[1]`, single |
| IssueSummarize.LaxSingle | src/issue-summarize.ts:226-230 | digits followed by a non-digit tail select the value of the digits |
| IssueSummarize.IndexSpecExampleDescending | src/issue-summarize.ts:237-239 | `"3,1"` is invalid |
| IssueSummarize.IndexSpecExampleNegative | src/issue-summarize.ts:227-229 | `"-1"` is invalid |
| IssueSummarize.IndexSpecExampleThreeParts | src/issue-summarize.ts:247 | `"1,2,3"` is invalid |
| IssueSummarize.IndexSpecExampleNonNumeric | src/issue-summarize.ts:226-229 | `"invalid"` is invalid |
| IssueSummarize.IndexSpecRejectsBadRangePart | src/issue-summarize.ts:235-239 | `"M,N"` is invalid when either part, trimmed, is NaN or negative |
| IssueSummarize.IndexSpecExampleNegativeStart | src/issue-summarize.ts:237 | `"-1,3"` is invalid |
| IssueSummarize.NonNumericPart | src/issue-summarize.ts:226-237 | a trimmed part that starts with neither a digit nor a sign is NaN, so it is not an index |
| IssueSummarize.IndexSpecExampleNonNumericEnd | src/issue-summarize.ts:237 | `"1,abc"` is invalid |
| IssueSummarize.ExpandMessage | src/issue-summarize.ts:269-276 | defined as: a selected message gets its full text and loses the abbreviated flag; any other is returned as it is; `ExpandMessages` states this for the whole summary |
| IssueSummarize.ExpandSelection | src/issue-summarize.ts:268-284 | issue and count are kept, the selection is recorded, and exactly the selected messages get their full text and lose the abbreviated flag while every other message is unchanged |
| IssueSummarize.ExpandMessages | src/issue-summarize.ts:257-285 | an invalid specification returns the summary unchanged; otherwise issue, count and length are kept, the selection is recorded, and exactly the selected messages get their full text and lose the abbreviated flag while every other message is unchanged |
| IssueSummarize.ExpandIdempotent | src/issue-summarize.ts:268-284 | expanding twice with the same specification equals expanding once |
| IssueSummarize.ExpandKeepsConsistency | src/issue-summarize.ts:268-277 | after expansion every unabbreviated message still shows its full text |
| IssueSummarize.ExpandSingleIndex | src/issue-summarize.ts:261-284 | expanding `"N"` shows the messages numbered N in full, keeps every other message, and records `[N]` as a single index |
| IssueSummarize.NonEmptyLines | src/issue-summarize.ts:297 | every kept line is non-empty and one of the lines, and every non-empty line is kept |
| IssueSummarize.NonEmptyLinesAppend | src/issue-summarize.ts:297 | filtering a concatenation is the concatenation of the filtered halves, so the kept lines keep their order and their repetitions |
| IssueSummarize.NonEmptyLinesSingle | src/issue-summarize.ts:297 | a single line is kept exactly when it is non-empty |
| IssueSummarize.CondenseText | src/issue-summarize.ts:293-299 | condensed text contains no line break and has no leading or trailing white space |
| IssueSummarize.CondensedLinesShape | src/issue-summarize.ts:295-297 | every kept line is non-empty, trimmed and free of line breaks |
| IssueSummarize.PieceAvoidsChar | src/issue-summarize.ts:295 | a piece split at a character does not contain it |
| IssueSummarize.CondenseIdempotent | src/issue-summarize.ts:293-299 | condensing condensed text changes nothing |
| IssueSummarize.CondenseTwoLines | src/issue-summarize.ts:293-299 | two non-empty trimmed lines condense to the first line, a space and the second line, in that order |
| IssueSummarize.Header | src/issue-summarize.ts:315-317 | defined as: `status/filename`; `ReportLines` and `FormatIssueSummary` state that the report starts with it |
| IssueSummarize.FilterByIndex | src/issue-summarize.ts:320-322 | no more messages than the summary holds |
| IssueSummarize.FilterMembership | src/issue-summarize.ts:320-322 | a message is shown exactly when it is in the summary and its index is selected |
| IssueSummarize.FilterPositions | src/issue-summarize.ts:320-322 | the positions of the selected messages, at most one per message |
| IssueSummarize.FilterPositionsFacts | src/issue-summarize.ts:320-322 | the positions lie inside the messages and strictly increase; a position is listed exactly when its message's index is selected |
| IssueSummarize.FilterKeepsOrder | src/issue-summarize.ts:320-322 | the k-th shown message is the message at the k-th selected position, so the filter is a subsequence that keeps the order |
| IssueSummarize.FilterSelectingAll | src/issue-summarize.ts:320-322 | a filter selecting every index shows all messages, in their order |
| IssueSummarize.ShownMessages | src/issue-summarize.ts:320-322 | defined as: every message without a filter, else `FilterByIndex`; `ReportLines` and `ReportAfterSingleExpansion` state what is shown |
| IssueSummarize.MessageLine | src/issue-summarize.ts:326-327 | defined as: `[i] @author: text`, the text condensed only when abbreviated; `AbbreviatedLineIsOneLine` states that such a line holds no line break |
| IssueSummarize.MessageLines | src/issue-summarize.ts:325-328 | one line per shown message, in order |
| IssueSummarize.MessageLinesSnoc | src/issue-summarize.ts:325-328 | rendering one more message appends its line |
| IssueSummarize.ShowsHint | src/issue-summarize.ts:331 | defined as: the hint is due unless a non-empty specification selected a single index; `ReportAfterSingleExpansion` states that it is not due after expanding `"N"` |
| IssueSummarize.ReportLines | src/issue-summarize.ts:312-336 | the first line is `status/filename`; then one line per shown message, in order; then a blank line and the hint exactly when the hint is due |
| IssueSummarize.FormatIssueSummary | src/issue-summarize.ts:308-337 | the method's loop builds `ReportLines` and joins them with line breaks; the text starts with the header |
| IssueSummarize.AbbreviatedLineIsOneLine | src/issue-summarize.ts:326-327 | an abbreviated message renders as a single line |
| IssueSummarize.ReportAfterSingleExpansion | src/issue-summarize.ts:320-334 | after expanding `"N"`, the report for `--index N` has no hint and shows only messages numbered N, each in full |

## Left out

- File reading, `fs.access`, and the agent loop, git and CLI glue of `src/index.ts` and `src/bueller.ts` are not part of this model. Existence is a set of paths; the text of a read is a parameter.
- `dist/index.js` is compiled CLI glue and is not part of this model. It holds the `issue` command, its `--index` flag and `runIssue`, which calls the summarizer. `dist/issue-reader.js` is compiled from an older parser that keeps every non-empty section, with no author-marker test (dist/issue-reader.js:30-40). The model follows `src/issue-reader.ts`.
- Node's `path` module is modelled as plain concatenation. There is no normalisation of `.`, `..` or repeated `/`, and no Windows path semantics. Backslash only matters as a marker of a path reference.
- IssueSummarize.Basename: unlike Node's `path.basename`, it does not strip trailing slashes.
- JavaScript strings are sequences of UTF-16 code units. Here they are sequences of characters, so `length` and `substring` count characters, not code units.
- `parseInt` results are unbounded integers. Precision loss beyond 2^53 and `Infinity` are not modelled, nor is the time and memory a huge range such as `"0,1000000000"` takes. `-0` is read as 0, which compares and renders like JavaScript's `-0` in every use here.
- `String(error)` in the read failure message is the error text, given as a parameter.
- The `_position` argument of `abbreviateMessage` is accepted and ignored, as in the source.
- The tests under `tests/` are not modelled. Several of their assertions disagree with the code; see the list above.
