# YouTube audio helper scripts, modelled in Dafny

This project models the logic of four small Python scripts and proves properties of it.

- `download.py` is a resumable bulk downloader. It works from a CSV job list whose rows are
  `[status, url, title]`, where status `"1"` marks a row as done.
  - It appends a missing `Title` column to the header and pads every row to at least three fields.
  - It then walks the rows in file order. For each pending row it asks `yt-dlp` for a title, then
    for an MP3 download.
  - A row is marked done, with its stripped title, only when the download exits with code 0.
  - The whole file is rewritten after every success.
  - A tool that cannot be launched stops the loop.
- `auto_clipboard.py` polls the clipboard.
  - It logs every new valid URL to `url_log.csv` and keeps a bounded history, newest first.
  - It stops when the clipboard holds `$EXIT`.
  - `is_valid_url` is a regular expression.
- `remid.py` renames `.mp3` files.
  - It strips a bracketed tag such as `" [192kbps]"` just before the extension.
  - When the cleaned name is taken, it picks the first free `base (k).ext`.
- `download_old.py` builds a download file name.
  - `sanitize_filename` replaces forbidden characters, strips the ends and collapses whitespace.
  - The output template is `"{song} {artist}"` sanitised, plus `.%(ext)s`.

Files:

- `wrappers.dfy`: `Option`.
- `text.dfy`: the Python string primitives the scripts rely on.
  - `str.isspace` and the `\s` class, which agree on `str`.
  - `strip`, `lstrip` and `rstrip`.
  - ASCII `lower`.
  - Decimal formatting of an `int`.
- `download.dfy`: module `Download`.
  - Class `Downloader` has fields `header`, `data` (the rows in memory) and the ghost `disk` (the CSV
    file).
  - Its methods are proved against the specification functions `Migrate`, `PadAll`, `Settle`,
    `RowsAfter`, `FirstHalt`, `DiskAfter` and `Outcome`.
- `auto_clipboard.dfy`: module `AutoClipboard`.
  - `IsValidUrl` is a left-to-right scan, proved equal to a direct reading of the regular expression
    (`MatchesUrlPattern`).
  - The monitor loop is the method `MonitorClipboard`, proved against the step function `Watch`.
- `remid.dfy`: module `Remid`.
  - `StripTag` is the `re.sub`, proved to remove exactly the leftmost match.
  - `ResolveConflict` is the counter loop.
  - `Folder` is the directory, as a set of names.
  - `CleanFilenames` is the loop over the listing snapshot.
- `download_old.dfy`: module `DownloadOld`, the sanitiser and the template.

The external world is passed in as parameters:

- What `yt-dlp` does for row `i` is `attempts(i)`: the title call's output or failure, the download
  outcome, and whether the rewrite of the CSV succeeds.
- The clipboard is a sequence of samples, each with its `strftime` stamp.
- Whether `os.rename` succeeds for the `i`-th listed name is `renamed(i)`.
- The CSV text is taken as already split into rows.

## Model

| member | source | states |
|---|---|---|
| Download.Migrate | download.py:40-41 | `Title` is in the result; the old header is a prefix of it; the header is unchanged exactly when it already had `Title`, and otherwise `Title` is appended |
| Download.MigrateIdempotent | download.py:40-41 | migrating a migrated header changes nothing |
| Download.Padded | download.py:46-47 | the row has at least 3 fields (exactly `max(len, 3)`), the original fields are its prefix, and every added field is `""` |
| Download.PaddedIdempotent | download.py:45-47 | padding is idempotent, and a row of 3 or more fields is left as it is |
| Download.PadAll | download.py:43-47 | every row is padded, with count and order kept |
| Download.TitleText | download.py:79-92 | the stored title is `"Title not found"` when the title call fails, else the stripped output, which has no surrounding whitespace and is no longer than the output |
| Download.Settle | download.py:118-119 | a settled row has the same width, status `"1"`, the title in field 2, and every other field unchanged |
| Download.Succeeds | download.py:99-117 | definition: row `k` is pending and its download exits with code 0, the one case in which the row is marked done (`RowsAfterStep`, `DoneAfter`) |
| Download.HaltsAt | download.py:110-112 | definition: row `k` is pending and the tool cannot be launched, the one case in which the loop breaks (`FirstHaltAt`) |
| Download.FirstHalt | download.py:110-112 | the loop breaks at the first pending row whose tool launch fails, and at none if there is no such row |
| Download.End | download.py:68-112 | the number of rows the loop goes through: no break before it, and a break at it when it is less than the number of rows |
| Download.RowsAfter | download.py:68-119 | the rows in memory after the first `j` rows have been through the loop keep their number and have 3 or more fields each; what changes is stated by `RowsAfterChanges` |
| Download.DiskAfter | download.py:117-128 | definition: the file after the first `j` rows is the snapshot written at the last saved success among them, or the file as it was (`DiskIsLastSnapshot`) |
| Download.Outcome | download.py:15-132 | definition of the whole run: the early exits in the order the code tests them, then the loop up to `End`; `Run` is proved to reach it and `EarlyExitsLeaveFileAlone` states its exits |
| Download.Downloader.Load | download.py:36-47 | after loading, the header is `Migrate` of the file's header and the rows are `PadAll` of the data rows; the file is untouched |
| Download.Downloader.FetchTitle | download.py:79-94 | the title kept for a row is `TitleText` of what the title call returned |
| Download.Downloader.ProcessRow | download.py:69-128 | one pass of the loop body for row `i`: it breaks exactly when `HaltsAt` holds, and then changes nothing; otherwise the rows become `RowsAfter` and the file `DiskAfter` for `i + 1` rows |
| Download.Downloader.ProcessRows | download.py:68-128 | the loop stops where `FirstHalt` says; the rows in memory become `RowsAfter` and the file becomes `DiskAfter` for the rows visited; the header is kept |
| Download.Downloader.Run | download.py:15-132 | the way the run ends and the file it leaves equal `Outcome` of the argument count, the tool check, the file and the tool's results |
| Download.FirstHaltAt | download.py:68-112 | a row index with no break before it and a break at it (or the end) is where `FirstHalt` and `End` stop |
| Download.RowsAfterStep | download.py:72-119 | one more row through the loop settles that row if its download succeeded and changes nothing otherwise |
| Download.OtherStep | download.py:72-117 | a finished row, or a download that exits non-zero or raises, changes neither the rows nor the file |
| Download.SuccessStep | download.py:117-128 | a success settles its row; the file becomes the header and every row when the rewrite succeeds, and stays as it was when it fails |
| Download.SettleInPlace | download.py:118-119 | the two in-place field assignments produce `Settle` of the row |
| Download.RowsAfterChanges | download.py:68-119 | rows keep their number, order, width and URL; a row is done afterwards exactly when it was done before or succeeded before the loop stopped; a changed row is `Settle` of itself; finished rows and rows from the break on are untouched |
| Download.OnlyPendingRowsConsulted | download.py:72-74 | tool oracles that agree on the pending rows visited give the same rows and the same file: finished rows are never sent to the tool |
| Download.FirstHaltAgrees | download.py:110-112 | the break row depends only on the tool's results for pending rows up to it |
| Download.LaterRowsNotExamined | download.py:68-128 | the tool's results for finished rows or for rows after the break change neither the rows, nor the file, nor where the loop stops |
| Download.DiskIsLastSnapshot | download.py:117-128 | the file is always either the original or the header followed by every row, in order, as they were right after the last saved success |
| Download.DiskNeverClaimsUnfinished | download.py:117-128 | a rewritten file has the migrated header and one row of 3 or more fields per data row, and marks done only rows that were done or whose download exited with code 0 |
| Download.DoneAfter | download.py:117-119 | a row done after the loop was done before it, or its download exited with code 0 |
| Download.FailedSaveKeepsFile | download.py:121-128 | when the rewrite fails, the row is still done in memory and the file keeps its previous contents |
| Download.FailureIsContained | download.py:106-117 | a non-zero exit or other exception leaves the row pending and the loop goes past it |
| Download.ResumeSkipsFinished | download.py:72-74 | a second pass over the rows a first pass left in memory keeps every row the first pass finished as it was, and never depends on the tool's results for it |
| Download.SnapshotKeepsDone | download.py:117-125 | a row done when the loop starts is written back exactly as it was read |
| Download.FinishedRunLeavesRows | download.py:36-128 | a run that reaches the loop leaves a file with a header and at least one data row |
| Download.ResumeFromFile | download.py:36-128 | a second run on the file the first run left reaches the loop, keeps every row that file marks done (padded to three fields if it rewrites the file), and its exit and file depend only on the tool's results for the rows that file marks pending |
| Download.EarlyExitsLeaveFileAlone | download.py:15-57 | a missing argument, a missing tool, a missing or unreadable or empty file, or no data rows all return before the file is written; the loop runs exactly when there are an argument, the tool and at least one data row |
| Download.AllDoneLeavesFileAlone | download.py:68-117 | a file whose rows are all done is never rewritten |
| Download.NoSuccessNoWrite | download.py:117-125 | without a successful download the file is never written |
| Download.TwoRowScenario | download.py:36-128 | an old two-column file with rows `a` (success, title "Song A") and `b` (exit 1) ends as `Timestamp,URL,Title` / `1,https://a,Song A` / `,https://b,` with no break |
| AutoClipboard.FirstDot | auto_clipboard.py:23 | the index of the first dot, or none when there is no dot |
| AutoClipboard.Span | auto_clipboard.py:23-26 | the end of the maximal run of matching characters from a position |
| AutoClipboard.SchemeLength | auto_clipboard.py:22 | the length of the scheme at the start, or 0; a positive length is a scheme |
| AutoClipboard.SchemeUnique | auto_clipboard.py:22 | at most one scheme prefixes a string, and the scan finds it |
| AutoClipboard.DomainChars | auto_clipboard.py:23 | a domain consists of letters, digits, hyphens and dots |
| AutoClipboard.DigitGroupsChars | auto_clipboard.py:25 | dotted digit groups consist of digits and dots |
| AutoClipboard.HostChars | auto_clipboard.py:23-25 | every host form consists of letters, digits, hyphens and dots and is not empty |
| AutoClipboard.MatchesUrlPattern | auto_clipboard.py:21-28 | definition: a direct reading of the regular expression, with `$` also matching before a final newline; `IsValidUrlMatchesPattern` relates it to the scan |
| AutoClipboard.IsValidUrl | auto_clipboard.py:21-28 | definition: the scan succeeds on the text, or on the text without a final newline; proved equal to `MatchesUrlPattern` by `IsValidUrlMatchesPattern` |
| AutoClipboard.DomainCons | auto_clipboard.py:23 | a label, a dot, then a top-level label or a domain, is a domain |
| AutoClipboard.YoutubeComDomain | auto_clipboard.py:23 | `youtube.com` is a domain |
| AutoClipboard.YoutubeDomain | auto_clipboard.py:23 | `www.youtube.com` is a domain |
| AutoClipboard.YoutubeHost | auto_clipboard.py:23 | the host part of `https://www.youtube.com/watch?v=abc` is a host |
| AutoClipboard.DomainIsMiddleHost | auto_clipboard.py:23 | a domain sliced out from between two other parts is a host |
| AutoClipboard.SplitIsScan | auto_clipboard.py:22-27 | any split of a string into scheme, host, port and path is the one the scan takes |
| AutoClipboard.ScanDecidesPattern | auto_clipboard.py:22-27 | the scan succeeds exactly when the string splits into scheme, host, port and path |
| AutoClipboard.IsValidUrlMatchesPattern | auto_clipboard.py:21-28 | `is_valid_url` holds exactly when the text matches the pattern, also when a final newline follows it |
| AutoClipboard.YoutubeUrl | auto_clipboard.py:21-28 | `https://www.youtube.com/watch?v=abc` is a valid URL |
| AutoClipboard.NoSchemeIsNoUrl | auto_clipboard.py:22 | `www.youtube.com` and `$EXIT` are not URLs |
| AutoClipboard.LocalhostWithNewline | auto_clipboard.py:24-27 | `http://localhost` followed by a newline is accepted, though the scan of the whole text fails |
| AutoClipboard.LogUrl | auto_clipboard.py:38-45 | a new log gets the header then one row; an existing log keeps its rows and gains exactly one row `[stamp, url, ""]` |
| AutoClipboard.Capacity | auto_clipboard.py:80-84 | definition: the length the history is held to, `history_size`, or 0 when it is negative; `PollHistory` and `WatchHistory` prove the history never exceeds it |
| AutoClipboard.Accepts | auto_clipboard.py:75 | definition: the sample is non-empty, differs from the last known content and passes the URL test; `WatchAccepts` and `WatchRejects` state what follows from it |
| AutoClipboard.Poll | auto_clipboard.py:75-94 | a rejected sample changes nothing; an accepted one becomes the last content and the head of the history, the rest of which is the old history with the oldest entry dropped when over `history_size`, and it is logged |
| AutoClipboard.Watch | auto_clipboard.py:66-97 | definition: the loop as a fold of `Poll` over the samples up to the first `$EXIT`; its history, last content and log are stated by `WatchHistory`, `WatchLast` and `WatchLog` |
| AutoClipboard.Logged | auto_clipboard.py:66-94 | definition: the samples the loop logs, in clipboard order; `LoggedSamples` states which they are |
| AutoClipboard.MonitorClipboard | auto_clipboard.py:55-97 | the loop ends in the state `Watch` gives, and it saw `$EXIT` exactly when some sample is `$EXIT` |
| AutoClipboard.PollClipboard | auto_clipboard.py:75-94 | one pass of the loop body for a sample other than `$EXIT` reaches the state `Poll` gives |
| AutoClipboard.Reverse | auto_clipboard.py:89 | element `k` of the result is element `n-1-k` of the input |
| AutoClipboard.Rows | auto_clipboard.py:45 | one row `[stamp, url, ""]` per logged sample, in order |
| AutoClipboard.WatchAccepts | auto_clipboard.py:75-94 | an accepted sample is polled and heads the logged samples |
| AutoClipboard.WatchRejects | auto_clipboard.py:75 | a rejected sample changes nothing and is not logged |
| AutoClipboard.AppendedStep | auto_clipboard.py:38-45 | appending one row and then the rest is appending them all; the header is written once |
| AutoClipboard.WatchLog | auto_clipboard.py:38-77 | the log gains exactly one row per logged sample, in order, with the header only if the file was new |
| AutoClipboard.LoggedAreWell | auto_clipboard.py:75-94 | logged samples are non-empty and pass the URL test; the first differs from the last known content; no two consecutive ones are equal |
| AutoClipboard.LoggedFromInput | auto_clipboard.py:70-77 | every logged sample comes from the input |
| AutoClipboard.LoggedBeforeExit | auto_clipboard.py:70-72 | no `$EXIT` sample is logged |
| AutoClipboard.LoggedSamples | auto_clipboard.py:70-94 | the three facts above together |
| AutoClipboard.WatchLast | auto_clipboard.py:94 | the last known content is the last logged URL, or unchanged if nothing was logged |
| AutoClipboard.TruncateTwice | auto_clipboard.py:80-84 | dropping to `cap` entries before and after prepending is dropping once |
| AutoClipboard.PollHistory | auto_clipboard.py:80-84 | an accepted URL goes in front and the history is cut to `max(history_size, 0)` entries |
| AutoClipboard.WatchHistory | auto_clipboard.py:80-84 | the history is the logged URLs newest first, followed by the earlier history, cut to `max(history_size, 0)` entries |
| AutoClipboard.ExitStopsMonitoring | auto_clipboard.py:70-72 | nothing after the first `$EXIT` changes the state or the log |
| AutoClipboard.LoggedUrlsMatchPattern | auto_clipboard.py:75 | every URL the monitor logs matches the URL pattern |
| Remid.ClosesTagUnique | remid.py:19 | at most one `]` can be followed by `.mp3` at the end (or before a final newline) |
| Remid.IsMp3Name | remid.py:15 | definition: the name ends in `.mp3` in any case; `StripTagNeedsLowerCaseExtension` shows the filter is looser than the pattern |
| Remid.NoClosingEnding | remid.py:19 | without `].mp3` or `].mp3` and a newline at the end, no `]` closes a tag |
| Remid.TagClose | remid.py:19 | the position of that `]`, or none when there is none |
| Remid.LineStart | remid.py:19 | the start of the line a position is in (`.` does not match a newline) |
| Remid.FindOpen | remid.py:19 | the first `[` in a range, or the range end |
| Remid.SpaceRunStart | remid.py:19 | the start of the whitespace run just before a position |
| Remid.LeftmostTag | remid.py:19 | where the leftmost match lies: none exactly when the pattern does not match; otherwise a match with no match starting before it |
| Remid.StripTag | remid.py:19 | the name is unchanged exactly when the pattern has no match; otherwise the leftmost match (whitespace, `[`, anything but newlines, `]` before a final `.mp3`) is removed and nothing else |
| Remid.StripTagCutsMatch | remid.py:19 | a match with no match starting before it is exactly what the substitution removes |
| Remid.NoMatchBefore | remid.py:19 | no match starts before a position preceded by a non-space and by no `[` |
| Remid.LastDot | remid.py:26 | the index of the last dot, or none |
| Remid.SplitExt | remid.py:26 | base and extension concatenate to the name; the extension is empty or a dot followed by no other dot; a non-empty extension leaves a base that is not all dots |
| Remid.SplitExtAt | remid.py:26 | a dot with no dot after it and a non-dot before it splits the name there |
| Remid.Candidate | remid.py:40 | definition: `base (k)ext`; `CandidateInjective` and `CandidateCount` prove different counters give different names |
| Remid.CandidateInjective | remid.py:40 | different counters give different candidate names |
| Remid.CandidateCount | remid.py:40 | counters 1..n give n distinct names |
| Remid.CandidatesSplit | remid.py:40 | the candidates 1..n are the candidates 1..n-1 and candidate n |
| Remid.CandidatesFit | remid.py:38-42 | if counters 1..n are all taken there are at least n names (more when the cleaned name is taken too), so the search ends |
| Remid.FirstFree | remid.py:38-42 | the least counter from `k` on whose candidate is free |
| Remid.ChosenName | remid.py:29-42 | the chosen name is free; it is the cleaned name when that is free, and otherwise `base (k)ext` for the least free `k >= 1` |
| Remid.ResolveConflict | remid.py:29-42 | the counter loop returns `ChosenName` |
| Remid.Target | remid.py:15-42 | exactly the `.mp3` names whose tag is stripped get a target; the target is the name `ChosenName` picks for the stripped name, it is not in the directory, so it differs from the name |
| Remid.RenameFacts | remid.py:47-52 | renaming an entry to a free name keeps every other entry, adds only the new name and keeps the count |
| Remid.Step | remid.py:47-52 | a failed rename changes nothing; a successful rename of a name with a target removes the name and adds the target; every other entry stays; an added entry is the target; the number of entries is kept |
| Remid.Folder.Rename | remid.py:48 | a successful rename removes the source and adds the target; a failed one changes nothing |
| Remid.Cleaned | remid.py:47-52 | definition: the directory after the first `n` listed names, the fold of `Step`; `CleanedKeepsCount`, `OnlyTaggedMp3Leave` and `RenameTakesEffect` state what it keeps and changes |
| Remid.CleanFilenames | remid.py:14-55 | the directory ends as the fold of `Step` over the listing snapshot |
| Remid.CleanedKeepsCount | remid.py:14-52 | the directory keeps its size, and listed names not yet processed are still present |
| Remid.OnlyTaggedMp3Leave | remid.py:15-22 | a name disappears only if it was listed, is an `.mp3` name and had a tag stripped |
| Remid.StaysPresent | remid.py:47-52 | a name present after step `i` that no later step lists stays present to the end |
| Remid.RenameTakesEffect | remid.py:33-52 | a successful rename of a listed name with a target removes the name at its step, and the target is still present at the end |
| Remid.FailedRenamesChangeNothing | remid.py:47-52 | if every rename fails the directory is unchanged |
| Remid.StripTagExample | remid.py:17-19 | `Song [192kbps].mp3` becomes `Song.mp3` |
| Remid.StripTagFromFirstBracket | remid.py:19 | `A [x] B [y].mp3` becomes `A.mp3` |
| Remid.NoMatchBeforeLineBreak | remid.py:19 | in `A [b]` newline `[x].mp3` no match starts on the first line |
| Remid.StripTagOfTagged | remid.py:19 | `A [b].mp3` becomes `A.mp3` |
| Remid.StripTagAcrossNewline | remid.py:19 | `A [b]` newline `[x].mp3` becomes `A [b].mp3`, which is itself tagged, so the substitution is not idempotent |
| Remid.StripTagNeedsLowerCaseExtension | remid.py:15-19 | `Song [x].MP3` passes the `.mp3` filter but is not changed |
| Remid.ChosenNameExample | remid.py:33-42 | with `Song.mp3` and `Song (1).mp3` taken, the name is `Song (2).mp3` |
| Remid.SongCandidates | remid.py:40 | the candidates for `Song`, `.mp3` and counters 1 and 2 are `Song (1).mp3` and `Song (2).mp3` |
| DownloadOld.ReplaceForbidden | download_old.py:7 | same length; each forbidden character becomes `_`, every other one is kept |
| DownloadOld.CollapseSpaces | download_old.py:9 | the output is no longer than the input; `CollapseIsSqueeze` proves it equal to `Squeeze` |
| DownloadOld.Squeeze | download_old.py:9 | definition: an independent reference for `re.sub(r'\s+', ' ', s)` that decides each character from its left neighbour only (a non-whitespace character is kept, a whitespace character becomes a space unless the previous one was whitespace) |
| DownloadOld.SqueezeCons | download_old.py:9 | how `Squeeze` treats a first character: kept, dropped before more whitespace, or made a space |
| DownloadOld.SqueezeConsWord | download_old.py:9 | a non-whitespace first character is kept in front of the squeeze of the rest |
| DownloadOld.SqueezeConsRun | download_old.py:9 | a whitespace first character followed by more whitespace is dropped |
| DownloadOld.SqueezeConsSpace | download_old.py:9 | a whitespace first character followed by a non-whitespace one, or by nothing, becomes a space |
| DownloadOld.SqueezeSpaceRun | download_old.py:9 | a whitespace run at the start becomes one space |
| DownloadOld.TrimStartOfSpace | download_old.py:8 | `lstrip` of a string starting with whitespace is `lstrip` of its tail |
| DownloadOld.CollapseIsSqueeze | download_old.py:9 | collapsing the whitespace runs equals the reference `Squeeze` on every string |
| DownloadOld.CollapseKeepsNonSpace | download_old.py:9 | collapsing keeps the non-whitespace characters, in order |
| DownloadOld.NonSpaceReplace | download_old.py:7 | replacing forbidden characters commutes with taking the non-whitespace characters |
| DownloadOld.ReplaceAppend | download_old.py:7 | replacing forbidden characters in a concatenation replaces them in each part |
| DownloadOld.CollapseKeepsCharacters | download_old.py:9 | each output character is a space or a non-whitespace input character |
| DownloadOld.CollapseKeepsEnds | download_old.py:9 | non-whitespace first and last characters are kept |
| DownloadOld.CollapseSingleSpaced | download_old.py:9 | no two whitespace characters are adjacent, and each is a plain space |
| DownloadOld.CollapseFixesSingleSpaced | download_old.py:9 | a single-spaced string is unchanged |
| DownloadOld.CollapseOfTrimmedIsClean | download_old.py:8-9 | collapsing a trimmed string free of forbidden characters gives a clean one |
| DownloadOld.StripKeepsAllowed | download_old.py:7-8 | stripping a string free of forbidden characters leaves it free of them |
| DownloadOld.Sanitize | download_old.py:5-10 | the output is the reference `Squeeze` of the stripped replacement; it has no forbidden character, no whitespace at either end, single spaces only, is no longer than the input, and its non-whitespace characters are the input's, in order, with forbidden ones replaced by `_` |
| DownloadOld.SanitizeReplacesOnly | download_old.py:5-10 | when replacing the forbidden characters leaves a clean name, that replacement is the whole sanitisation |
| DownloadOld.SanitizeExample | download_old.py:5-10 | `a/b` is sanitised to `a_b` |
| DownloadOld.SanitizeFixesClean | download_old.py:5-10 | a clean name is unchanged |
| DownloadOld.SanitizeIdempotent | download_old.py:5-10 | sanitising twice is sanitising once |
| DownloadOld.OutputTemplate | download_old.py:14-24 | the template is the sanitisation of `song + " " + artist` followed by `.%(ext)s`, and its stem is clean |
| DownloadOld.OutputTemplateOfCleanNames | download_old.py:14-24 | clean, non-empty song and artist give exactly `song + " " + artist + ".%(ext)s"` |
| Text.TrimStart | download_old.py:8 | the result is a suffix; what was dropped is whitespace; the result is empty or starts with a non-space |
| Text.TrimEnd | download_old.py:8 | the result is a prefix; what was dropped is whitespace; the result is empty or ends with a non-space |
| Text.IsSpace | download_old.py:9 | definition: the characters Python's `\s` and `str.strip()` treat as whitespace on `str`, listed explicitly |
| Text.Strip | download.py:89 | the result is no longer than the input and has no whitespace at either end; a string without such whitespace is its own strip |
| Text.NonSpaceAppend | download_old.py:8 | the non-whitespace characters of a concatenation are those of each part |
| Text.NonSpaceAllSpace | download_old.py:8 | a whitespace-only string has no non-whitespace characters |
| Text.NonSpaceTrimStart | download_old.py:8 | `lstrip` keeps the non-whitespace characters |
| Text.NonSpaceTrimEnd | download_old.py:8 | `rstrip` keeps the non-whitespace characters |
| Text.NonSpaceStrip | download_old.py:8 | `strip` keeps the non-whitespace characters |
| Text.SpaceSuffixGrows | download_old.py:8 | a whitespace run at the end grows by a whitespace last character |
| Text.StripIsSlice | download_old.py:8 | the strip is the `rstrip` of the `lstrip`, and it is a slice of the input with only whitespace before and after it |
| Text.Lower | remid.py:15 | ASCII upper-case letters become the lower-case letter 32 code points later, and every other character is kept |
| Text.NatToString | remid.py:40 | decimal digits, at least one, two or more exactly for 10 and above, and no leading zero |
| Text.ParseNatToString | remid.py:40 | reading back the decimal form gives the number |
| Text.NatToStringInjective | remid.py:40 | different counters have different decimal forms |

## Left out

- The CSV format itself: quoting, parsing and the `csv` module. Rows are taken as already split.
  A `csv.Error` or an empty file is an abstract outcome of reading.
- A file that is not valid UTF-8. Its decode error is not a `csv.Error`, so `download.py` would
  stop with an uncaught exception. This is not modelled.
- Download.Downloader.ProcessRows: a failed rewrite keeps the old file contents. A write that fails
  after `open(..., 'w')` has already truncated the file would leave a partial file instead.
- Download.Outcome: a file that vanishes between the `os.path.exists` check and the `open` is
  folded into the missing-file exit.
- Printing: progress, messages, the history listing and `print(result.stdout)`. A print that raises
  after a zero exit is caught as "an unexpected error during download". In the model that case is
  an `OtherError` outcome of the oracle.
- Console input and arguments: `input()` in `remid.py`, `sys.argv`, which is kept only as a count,
  and `os.path.basename`.
- `time.sleep` and `time.strftime`, which is a value carried by each sample.
- The `KeyboardInterrupt` and `PyperclipException` handlers.
- The `yt_dlp` library call and the `process_csv` loop in `download_old.py`. They only drive the
  external download. `check_corrupted.py` is not part of this model.
- Case mapping and digit classes beyond ASCII.
  - `[A-Z]` with `re.IGNORECASE`, `\d` and `str.lower()` also match some non-ASCII characters.
    The model uses ASCII only.
  - `Text.IsSpace` is Python's whitespace set, listed explicitly.
- Remid.RenameTakesEffect: states that a renamed name is gone right after its own step, not at the
  end of the pass. A later listed name can be renamed to it: `A [b]` newline `[x].mp3` cleans to
  `A [b].mp3` (`StripTagAcrossNewline`).
- File system semantics: paths, `os.path.join`, case-insensitive names on Windows and permissions.
  The directory is a set of names, and a rename either happens or raises.
- AutoClipboard.Poll and the lemmas about `Watch`: the URL test is a parameter. Their statements
  hold for any test, and `MonitorClipboard` passes `IsValidUrl`.
- The docstring of `monitor_clipboard` promises "unique" URLs. The code only suppresses
  consecutive repeats, and that is what is modelled and proved (`LoggedAreWell`).
- A row whose download succeeds but whose rewrite of the file fails is done only in memory. The
  file still marks it pending, so the next run downloads it again (`FailedSaveKeepsFile`,
  `ResumeFromFile`).
- The loading code pads rows to at least three fields, not to the width of the header. It has no
  schema check on the rows. The model follows the code.
