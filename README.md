# download: playlist pass, task partition and pattern escaping

This project models the core of `download`, a Go tool that mirrors an HLS media playlist
(`.m3u8`) to disk. Three parts of `content.go` are modelled:

- **Playlist pass** of `handleM3u8` (module `Playlist`). It splits the manifest into lines and
  trims each line. A text whose line 0 is not `#EXTM3U` is rejected. Blank lines are skipped.
  A comment line with index up to 10 is searched for a key URI. Every other non-blank line is
  a segment reference. Each reference is resolved to an absolute address and given the next
  counter value (10001, 10002, …) as its local file name `prefix + %05d + ".ts"`.
- **Task partition** (module `Partition`). `processAvgNum` gives each of `n` workers a
  contiguous range of the task list. The dispatch loop of `handleM3u8` cuts the link list
  into one slice per worker.
- **Pattern escaping** (module `Escape`). `str2regexp` makes 13 `ReplaceAll` passes, the
  backslash pass first, that put a backslash in front of each of the 13 listed characters.
  Go's regular-expression syntax also reserves `|`. The list leaves it out, so `|` stays
  unescaped (see Findings).

Module `Strings` models the Go library functions the core relies on:
- `strings.Split` on one separator character;
- `strings.TrimSpace`, using Go's `unicode.IsSpace` set;
- `strings.HasPrefix`;
- `strings.ReplaceAll` for a one-character pattern;
- `fmt.Sprintf("%05d")`.

Module `Wrappers` holds `Option` and `Result`.

The playlist loop is `Playlist.CollectLinks`, a method with a `while` loop. It is proved equal
to the function `Playlist.Plan`, and the lemmas about `Plan` state what the pass promises.
The escaping loop is `Escape.Str2Regexp`. It is proved equal both to its 13 passes
(`RunPasses`) and to escaping character by character (`Escaped`). The slicing loop is
`Partition.AssignTasks`, proved to hand each worker its `processAvgNum` range, together
covering the whole list in order.

`url2absolute` and the capture group of ``URI="([\s\S]+)"`` are function parameters of
`CollectLinks`: `Resolver` and `KeyCapture`. Everything proved holds for every such function.

A key URI is searched for only in comment lines with index `key <= 10` (content.go:67), that
is, in the first eleven lines.

The header check looks at line 0 after trimming (content.go:57). A manifest that starts with
a blank line is rejected.

## Model

| member | source | states |
|---|---|---|
| Playlist.CollectLinks | content.go:47-95 | The line loop returns exactly `Plan`: a format error carrying the trimmed line 0 if it is not `#EXTM3U`, else the first resolution error, else one link per reference in line order. |
| Playlist.LineKinds | content.go:55-89 | Line classification, case by case: a blank line names nothing; a `#` line names its key-URI capture if its index is at most 10, else nothing; any other line names itself, trimmed. The trimmed line is the input with only the white space at both ends removed. |
| Playlist.SkippedLine | content.go:61-80 | A line that names nothing leaves the links unchanged. |
| Playlist.LinkedLine | content.go:70-88 | A line whose reference resolves adds one link: the reference, its address, and the name for the next counter value. |
| Playlist.FailedLine | content.go:70-73 | A line whose reference does not resolve, after lines that all resolved, makes the whole playlist fail with that error. |
| Playlist.RefsInLineOrder | content.go:53-89 | References come one per naming line, in strictly increasing line order; the j-th is what that line names; every other line names nothing. |
| Playlist.HeaderRejected | content.go:57-59 | A playlist is rejected with a format error iff its trimmed line 0 is not `#EXTM3U`, and the error carries that line. |
| Playlist.PlanOutcome | content.go:70-73 | With a valid header the pass succeeds iff every reference resolves; otherwise its error is that of the first reference that does not resolve. |
| Playlist.PlanLinks | content.go:74-88 | On success the k-th link keeps the k-th reference as written and its resolved address, and is stored as `LocalName(prefix, 10001 + k)`; no two links share a file name. |
| Playlist.CollectedSucceeds | content.go:82-85 | Resolving a list of references succeeds iff each one resolves. |
| Playlist.CollectedLinks | content.go:86-88 | After a successful resolution, link k is reference k, its address, and the name for counter value 10000 + k + 1. |
| Playlist.FirstFailure | content.go:70-73 | The first reference that fails to resolve decides the error; later references do not matter. |
| Playlist.FailureSticks | content.go:83-85 | Once resolution has failed, more references do not change the result (the loop has returned). |
| Playlist.ResolvedStep | content.go:86-88 | A resolving reference adds one link named after the incremented counter. |
| Playlist.UnresolvedStep | content.go:82-85 | A reference that does not resolve makes the whole resolution fail with its error. |
| Playlist.FailingLine | content.go:82-85 | A failing line after lines that all resolved gives the error of the whole playlist. |
| Playlist.RefsPrefix | content.go:53 | The references of the first k lines are a prefix of those of the first m lines. |
| Playlist.RefsStep | content.go:61-89 | Line `key` appends its reference, if any, after those of the earlier lines. |
| Playlist.LocalNameInjective | content.go:75 | Different counter values give different file names under the same prefix. |
| Playlist.NamesDistinct | content.go:86-88 | Links named after consecutive counter values have pairwise distinct file names. |
| Partition.ProcessAvgNum | content.go:221-252 | Worker i's range lies inside the task list: `0 <= start <= end <= total`. |
| Partition.FewerTasksThanWorkers | content.go:223-229 | With fewer tasks than workers, worker i gets `[i-1, i)` while tasks last and `[0, 0)` after. |
| Partition.RangeSize | content.go:231-251 | Worker i holds `total / n` tasks, plus one if `i <= total % n`. |
| Partition.SharesBalanced | content.go:242-251 | A worker holds at most one task more than any later worker and never fewer. |
| Partition.RangeBetweenBoundaries | content.go:221-252 | Worker i's range runs from the (i-1)-th to the i-th boundary `k*(total/n) + min(k, total%n)`, or is the empty `[0, 0)`. |
| Partition.RangesContiguous | content.go:231-251 | When every worker has a task, worker 1 starts at 0, each range starts where the previous one ends, and worker n ends at `total`. |
| Partition.RangesDisjoint | content.go:221-252 | No task lies in the ranges of two different workers. |
| Partition.TaskCovered | content.go:221-252 | Every task lies in the range of some worker. |
| Partition.OwnerFrom | content.go:221-252 | Names the worker among the first k whose boundaries enclose a given task. |
| Partition.BoundaryBelowTotal | content.go:237-251 | Boundaries lie in `[0, total]` and the n-th one is `total`. |
| Partition.BoundaryMonotone | content.go:237-251 | Boundaries never decrease. |
| Partition.AssignTasks | content.go:121-124 | Returns one slice per worker, slice i-1 being `links[start:end]` of worker i's range, and the slices concatenated are exactly the link list. |
| Escape.Str2Regexp | content.go:181-188 | The 13 passes give the per-character escape: each listed character gets a backslash in front, every other character is kept. |
| Escape.SearchTable | content.go:182-183 | The replacement for each listed character is a backslash and that character. The list starts with the backslash and names no character twice, and so does the list with `|` added. |
| Escape.PassStep | content.go:184-186 | One more pass escapes one more listed character, because no earlier pass left a bare copy of it. |
| Escape.PassesInOrder | content.go:184-186 | Running the first k passes equals escaping the first k listed characters character by character. |
| Escape.BackslashFirstMatters | content.go:182-186 | Running the `.` pass before the backslash pass would turn `.` into `\\.`; the order used gives `\.`. |
| Escape.EscapedLength | content.go:181-188 | Escaping adds exactly one character per listed character. |
| Escape.EscapedPlain | content.go:181-188 | A text without listed characters comes back unchanged. |
| Escape.UnescapeEscaped | content.go:181-188 | For any list that starts with the backslash and repeats nothing, reading the escaped text with "a backslash quotes the next character" gives back the original. |
| Escape.EscapedInjective | content.go:181-188 | Distinct lines give distinct patterns. |
| Escape.EscapedLiteral | content.go:181-188 | Every listed character in the escaped text is quoted: a backslash followed by a listed character. |
| Escape.PipeLeftBare | content.go:182 | `str2regexp("a|b")` is `a|b`, whose `|` is not quoted. |
| Escape.QuoteMeta | content.go:182 | Escaping all 14 reserved characters quotes every one of them and can be read back. |
| Escape.QuoteMetaAgrees | content.go:182 | On a line without `|`, escaping all 14 characters gives what `str2regexp` gives. |
| Strings.JoinSplit | content.go:53 | Joining the lines of `strings.Split` with the separator gives back the text. |
| Strings.Split | content.go:53 | There is one more part than separators, and no part contains the separator. |
| Strings.TrimSpaceTrims | content.go:55 | `TrimSpace` removes exactly the white space at both ends: what remains is a contiguous part of the input with no white space at either end. |
| Strings.TrimSpaceIdempotent | content.go:55 | Trimming twice is trimming once. |
| Strings.ReplaceAllAppend | content.go:185 | Replacing a character in a concatenation replaces it in each part. |
| Strings.Pad5Value | content.go:75 | Reading the `%05d` digits back gives the counter value. |
| Strings.Pad5Digits | content.go:75 | `%05d` prints only digits. |
| Strings.Pad5Injective | content.go:87 | Distinct counter values print differently. |
| Strings.Pad5FiveDigits | content.go:87 | Counter values below 100000 print as exactly five characters. |

## Findings

| source | as written | input that shows it | evidently intended | confidence | as-written member | corrected member |
|---|---|---|---|---|---|---|
| content.go:182 | The list of characters to escape has 13 entries and leaves out `|`, which Go's regular-expression syntax reserves. | The segment line `a|b` gives the pattern `a|b`, the alternation of `a` and `b`, so the rewrite at content.go:92-93 looks for `(\s+?)a` or `b(\s+?)` instead of the line. | Escape all 14 reserved characters, as `regexp.QuoteMeta` does. | not executed; medium, since `|` is rare in playlist lines | Escape.PipeLeftBare | Escape.QuoteMeta |

## Left out

- HTTP and file-system I/O are not modelled: `getUrlContent`, `downloadFile`, `filePutContents`, `fixMkdirAll`, the directory name built from `prefix`, and writing the rewritten manifest.
- Concurrency is not modelled: the goroutines, the `WaitGroup`, the counting channel, `countStatMsg`, and the retry and sleep loop of `handleLinks`. `AssignTasks` models only which slice each worker is handed.
- Reference resolution is a parameter: `url2absolute` (RFC 3986 section 5.2 resolution through Go's `net/url`) is the `Resolver` argument, and the capture of ``URI="([\s\S]+)"`` is the `KeyCapture` argument. Their internals are not modelled.
- Manifest rewriting is not modelled: the substitution of key URIs (content.go:78) and the boundary-safe regular-expression replacement of segment lines (content.go:92-93). Only `str2regexp`, which builds that expression, is modelled.
- The variant-playlist detection (`childIndex`) and the recursion into the first variant are not modelled.
- `Playlist.LocalName` treats `prefix` as literal text. `fmt.Sprintf` would read a `%` inside `prefix` as a formatting verb.
- Partition.ProcessAvgNum: the bound `1 <= threads <= 10000` enforced in `main.go` is not required; only `1 <= i <= n` is, and every property holds for any worker count.
- Strings are sequences of Unicode characters, not Go's UTF-8 bytes. `TrimSpace` uses Go's `unicode.IsSpace` set, and the handling of invalid UTF-8 is not modelled.
- Go's `int` width is not modelled. Every value computed stays between 0 and the task total, or is the counter value 10000 plus the number of links, so no overflow arises for lists that fit in memory.
- Logging (`log.Println`, `log.Printf`) is not modelled.
