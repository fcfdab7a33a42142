# Class site: lines-of-code meta page and project gallery, modelled in Dafny

The site has two data generators and two pages that use the data.

`meta/generate_loc.js` walks the repository's `.js` and `.css` files. It runs `git blame --line-porcelain` on each one, or splits the file into lines when blame gives no output. It writes one CSV row per line to `meta/loc.csv`, with these fields:
- the file;
- the line number;
- the type;
- the short commit;
- the author;
- the date, hh:mm:ss time, timezone and datetime;
- the depth;
- the length.

`meta/generate_filesize.js` walks the whole commit history. For each commit that has an author date, it writes one row per file whose lower-cased extension is `.js` or `.css` and whose blob size can be read, with that size in bytes and the commit's ISO date; other commits and files are skipped.

`meta/main.js` loads `loc.csv` and does four things:
- it groups the rows into commits;
- it sorts the commits by number of lines, for the scatter plot's layering;
- it counts the commits the brush has selected;
- it breaks the selected commits' lines down by file type.

`projects.js` is the project gallery. A search box filters projects by title or description. A pie chart counts the visible projects per year. Clicking a slice or a legend entry toggles a year filter.

The model mirrors that structure. Each module is listed with the source it models.

- `Wrappers` holds `Option` and `Result`.
- `Text` holds the JavaScript string operations the scripts rely on:
  - the `\s` character class, `trim` and `toLowerCase` (ASCII);
  - `includes`;
  - `split` on `/\r?\n/`, on `'\n'` and on `/\s+/`;
  - `join`;
  - decimal rendering and `Number()`.
- `Seqs` holds `filter` and `flatMap`, and `d3.groups`/`d3.rollup` as `Keys`/`Members` grouping in order of first appearance.
- `Paths` holds POSIX `path.extname`, `path.basename`, `path.join` and `path.relative`.
- `Blame` holds `parseGitBlame`: the porcelain parser and the commit-date cache.
- `LocCsv` holds the rest of `generate_loc.js`:
  - `getAllFiles`;
  - `simpleLines`;
  - `splitISO` and the local-time fallback;
  - `esc`;
  - the row loop.
- `Filesize` holds `generate_filesize.js`.
- `Commits` and `CommitSort` hold `main.js`.
- `Projects` holds `projects.js`. Its `Gallery` class carries the page's mutable state: `selectedYear`, and the visible list with its pie.

Processes, files and the clock are not modelled. They enter as parameters:
- `git` oracles, which are functions from a command's arguments to its output, or `None` when the command throws;
- a directory tree;
- a `readFile` function;
- a `Clock`;
- a fallback-token function standing in for `Math.random`.

## Model

| member | source | states |
|---|---|---|
| Text.TrimStart | meta/generate_filesize.js:24 | every character dropped from the front is `\s`, and the result does not start with `\s` |
| Text.TrimEnd | meta/generate_filesize.js:24 | every character dropped from the end is `\s`, and the result does not end with `\s` |
| Text.TrimStartSuffix | meta/generate_filesize.js:22-28 | trimming the start removes a prefix: the result is a suffix of the input |
| Text.TrimEndPrefix | meta/generate_filesize.js:22-28 | trimming the end removes a suffix: the result is a prefix of the input |
| Text.Trim | meta/generate_filesize.js:24 | `trim`: the end-trim of the start-trim; characterised by `Text.TrimSpec` |
| Text.TrimSpec | meta/generate_filesize.js:24 | `trim` returns the slice of the input between a leading and a trailing run made only of `\s`, and that slice neither starts nor ends with `\s` |
| Text.TrimNoSpace | meta/generate_loc.js:89-90 | a string without `\s` characters is left unchanged by `trim` |
| Text.ContainsChar | projects.js:21-22 | `includes` of a one-character string holds exactly when that character occurs |
| Text.ContainsEmpty | projects.js:21-22 | every string includes the empty string |
| Text.SplitLines | meta/generate_loc.js:59 | `split(/\r?\n/)` always yields at least one piece; for any text its pieces are those of `split('\n')` with the `\r` before each `\n` dropped (`Text.SplitLinesDropsCr`) |
| Text.SplitLinesCount | meta/generate_loc.js:59 | the number of pieces is the number of `\n` plus one |
| Text.SplitLinesNoNewline | meta/generate_loc.js:59 | no piece contains `\n` |
| Text.SplitOn | meta/generate_filesize.js:34 | `split(c)` for one character: at least one piece, no piece contains `c`, the first piece is empty exactly when the text is empty or starts with `c`, and the pieces join back to the text (`Text.JoinSplitOn`) |
| Text.SplitWs | meta/generate_filesize.js:49 | `split(/\s+/)`: at least one piece, no piece contains `\s`, only the first and last piece can be empty, and the first is empty exactly when the text is empty or starts with `\s` |
| Text.SplitWsWord | meta/generate_filesize.js:49 | a word without `\s` in front of some text becomes the start of that text's first piece |
| Text.SplitWsRun | meta/generate_filesize.js:49 | a non-empty run of `\s` ends a piece, and the text after it is split on its own |
| Text.SplitWsLead | meta/generate_filesize.js:49 | a word followed by a run of `\s` is the first piece, followed by the pieces of the rest |
| Text.SplitWsLast | meta/generate_filesize.js:49 | a word followed by nothing or by `\s` is the first piece |
| Text.SplitWsFields | meta/generate_filesize.js:49-52 | three words separated by runs of `\s` are pieces 0, 1 and 2 of the split |
| Text.SplitLinesWithoutCr | meta/generate_loc.js:98-101 | without `\r` in the text, splitting on `/\r?\n/` and on `'\n'` agree |
| Text.SplitLinesDropsCr | meta/generate_loc.js:98-101 | for any text, `split(/\r?\n/)` has as many pieces as `split('\n')`; each piece but the last loses one trailing `\r`, and the last is unchanged |
| Text.CrDroppedBreak | meta/generate_loc.js:98-101 | a `\n` or `\r\n` in front adds an empty first piece to both splits |
| Text.CrDroppedChar | meta/generate_loc.js:98-101 | another character in front extends both first pieces and keeps the relation |
| Text.DropCr | meta/generate_loc.js:98-101 | the piece itself, or the piece with one `\r` after it |
| Text.JoinSplitOn | meta/generate_filesize.js:31-35 | joining `split(c)` with `c` gives back the original string |
| Text.JoinSplitLines | meta/generate_loc.js:98-101 | without `\r`, joining the lines with `\n` gives back the text |
| Text.JoinAll | meta/generate_loc.js:145 | one joined row per field list |
| Text.JoinAllPointwise | meta/generate_loc.js:145 | a list whose k-th entry is the k-th row joined is the joined rows |
| Text.JoinAllAppend | meta/generate_filesize.js:83-108 | joining rows distributes over concatenation |
| Text.NatToStringSpec | meta/generate_loc.js:142-143 | the decimal rendering is all digits, reads back as the number, has no leading zero, and has one or two digits exactly below 10 or 100 |
| Text.CountCharAppend | meta/generate_loc.js:144 | occurrences of a character add up over a concatenation |
| Text.ParseNumber | meta/generate_filesize.js:56 | `Number()`: surrounding `\s` ignored, empty is 0, optionally signed digits are that integer, anything else `NaN`; see the parse lemmas below |
| Text.NumberRoundTrip | meta/generate_filesize.js:45-57 | `Number()` of the decimal rendering of any integer is that integer |
| Text.ParseDigits | meta/generate_filesize.js:45-57 | `Number()` of a non-empty digit string is its decimal value |
| Text.ParseNegative | meta/generate_loc.js:73 | `Number()` of `-` followed by digits is the negated decimal value |
| Text.ParseSigned | meta/generate_loc.js:73 | a trimmed `-digits` string, which is not all digits, parses to its negated value |
| Text.TrimDigitsNewline | meta/generate_filesize.js:54-55 | `cat-file -s` output with a trailing newline trims to its digits |
| Text.DigitIsNotSpace | meta/generate_loc.js:73 | decimal digits are not `\s` characters |
| Text.DigitChar | meta/generate_loc.js:142-143 | each digit value renders as a decimal digit character |
| Text.Slice | meta/generate_loc.js:139 | `slice(a, b)` clamps both bounds to the length and returns exactly the characters from the clamped start to the clamped end, or nothing when the end is not past the start |
| Seqs.FilterAppend | meta/main.js:146 | `filter` distributes over concatenation |
| Seqs.FilterMultiset | meta/main.js:146 | `filter` keeps every element satisfying the predicate as many times as it occurs and drops the rest |
| Seqs.FilterMembership | projects.js:19-23 | an element is in the filtered list exactly when it is in the list and satisfies the predicate |
| Seqs.FilterPermutation | meta/main.js:99 | permuting the input does not change how many elements `filter` keeps |
| Seqs.FilterLength | meta/main.js:146 | `filter` never lengthens a list |
| Seqs.FilterAll | projects.js:19-23 | filtering a list whose elements all pass returns it unchanged |
| Seqs.MultisetExt | meta/main.js:99 | multisets with equal counts are equal |
| Seqs.FlatMapAppend | meta/main.js:157 | `flatMap` distributes over concatenation |
| Seqs.FlatMapSnoc | meta/main.js:157 | `flatMap` of a prefix one longer adds that element's image |
| Seqs.FlatMapOrigin | meta/main.js:157 | every flattened element comes from some input element |
| Seqs.FlatMapComplete | meta/generate_filesize.js:83-108 | conversely, every element of an input element's image is in the flattened result |
| Seqs.FlatMapLength | meta/main.js:157 | the flattened length is the sum of the images' lengths |
| Seqs.MembersAppend | meta/main.js:18 | a group of a concatenation is the two groups concatenated |
| Seqs.MembersHaveKey | meta/main.js:18 | every group member is an input element with that key |
| Seqs.KeysSpec | meta/main.js:18 | group keys are distinct, a key is listed exactly when its group is non-empty, and every element's key is listed |
| Seqs.KeysOfPrefix | meta/main.js:18 | the keys of a prefix are a prefix of the keys (first-appearance order) |
| Seqs.MembersOfNone | meta/main.js:18 | a key no element has has an empty group |
| Seqs.FirstMember | meta/main.js:19-20 | a group's first member is the key's first occurrence |
| Seqs.KeysLength | meta/main.js:18 | there are no more groups than elements |
| Seqs.GroupHead | meta/main.js:19-20 | for a listed key, the index of its first occurrence, whose element heads the group |
| Seqs.SizesStep | meta/main.js:158 | appending an element adds one to the group-size sum exactly when its key is among the keys |
| Seqs.SizesSnoc | meta/main.js:158 | adding a key to the list adds its group size to the sum |
| Seqs.PartitionSum | meta/main.js:158 | the group sizes add up to the number of elements |
| Paths.StripTrailingSlashes | meta/generate_loc.js:38 | the result is a prefix of the path that does not end in `/`, and everything removed is `/` |
| Paths.Basename | meta/generate_loc.js:38 | `path.basename`: the last component after trailing slashes are dropped; it contains no `/` |
| Paths.AfterLastSlash | meta/generate_loc.js:38 | the result contains no `/` |
| Paths.LastDot | meta/generate_loc.js:38 | the index found holds the last `.`; none is found exactly when there is no `.` |
| Paths.ExtName | meta/generate_loc.js:38 | `extname` is empty or a `.` followed by neither `.` nor `/` |
| Paths.AfterLastSlashOfJoin | meta/generate_loc.js:35 | the last component of `dir/name` is `name` |
| Paths.AfterLastSlashNoSlash | meta/generate_loc.js:38 | a slash-free name is its own last component |
| Paths.ExtNameOfJoin | meta/generate_loc.js:35-38 | the extension of `path.join(dir, name)` is that of `name` |
| Paths.LastDotOfSuffix | meta/generate_loc.js:38 | in `b.t` with no `.` in `t`, the last dot is the one before `t` |
| Paths.ExtNameOfName | meta/generate_loc.js:38 | `extname("stem.t")` is `".t"` |
| Blame.Parse | meta/generate_loc.js:59-82 | the records the porcelain loop pushes, from line `i` on; characterised by `Blame.ParseOrigin`, `ParseAtHeader` and `ParseWithoutTab` |
| Blame.ScanHeaders | meta/generate_loc.js:69-79 | the header scan stops at the first tab line or at the end, skips only non-tab lines, and its entry is the headers folded in order |
| Blame.ReadHeaders | meta/generate_loc.js:69-79 | the header-reading loop computes that scan |
| Blame.ParseSkip | meta/generate_loc.js:66 | a line that is not a 40-hex-digit header is skipped |
| Blame.ParseRecord | meta/generate_loc.js:66-82 | a header starts one record, completed by the next tab line's content; without a tab line nothing more is produced |
| Blame.ParseLines | meta/generate_loc.js:59-82 | the loop produces exactly the records `Parse` describes |
| Blame.ParseOrigin | meta/generate_loc.js:64-82 | every record pairs a header line with the next tab line after it; its commit is the header's 40 hex characters and its content the tab line minus the tab |
| Blame.ParseAtHeader | meta/generate_loc.js:66-79 | for a header and its tab line, parsing emits that record and continues after the tab line |
| Blame.ParseWithoutTab | meta/generate_loc.js:76-79 | without a tab line ahead, nothing more is emitted |
| Blame.FoldCons | meta/generate_loc.js:70-75 | headers are applied first to last |
| Blame.FoldAppend | meta/generate_loc.js:70-75 | folding a concatenation folds the first part, then the second |
| Blame.FoldKeepsCommit | meta/generate_loc.js:68-75 | header lines never change the entry's commit |
| Blame.ApplyHeaderFields | meta/generate_loc.js:72-73 | `author ` sets the author to the rest of the line; `author-time ` sets the time to `Number(rest) * 1000`; other fields are kept |
| Blame.AuthorTimeKeepsAuthor | meta/generate_loc.js:72-73 | an `author-time ` line is not taken as an `author ` line |
| Blame.FoldAuthorNone | meta/generate_loc.js:72 | without `author ` lines the author is unchanged |
| Blame.FoldAuthorTimeNone | meta/generate_loc.js:73 | without `author-time ` lines the time is unchanged |
| Blame.FoldAuthorLast | meta/generate_loc.js:72 | the last `author ` line wins |
| Blame.FoldTimeSettled | meta/generate_loc.js:73 | after the last `author-time ` line the time no longer changes |
| Blame.FoldPrefixStep | meta/generate_loc.js:70-75 | folding a prefix one longer applies one more header |
| Blame.FoldAuthorTimeLast | meta/generate_loc.js:73 | the last `author-time ` line wins, as `Number(rest) * 1000` |
| Blame.IsoLookup | meta/generate_loc.js:89-90 | what `commitCache` stores for a commit: the trimmed `git show` date, or `null` when the command fails or prints nothing |
| Blame.AttachIsos | meta/generate_loc.js:85-93 | every record with a truthy commit gets that commit's looked-up date; the others are left as they are |
| Blame.CacheSkip | meta/generate_loc.js:86-87 | an entry without a truthy commit leaves the cache invariant intact |
| Blame.CacheHit | meta/generate_loc.js:88 | a truthy cached date is reused without a new `git show` |
| Blame.CacheMiss | meta/generate_loc.js:88-90 | a missing or falsy cached date is queried once and stored trimmed, keeping the invariant |
| Blame.AddTimestamps | meta/generate_loc.js:85-93 | every entry gets its commit's trimmed `git show` date; entries of one commit get the same date; a commit with a truthy date is queried at most once; every truthy commit is queried, and only commits that occur are |
| Blame.ParseGitBlame | meta/generate_loc.js:55-95 | falsy blame output gives `null`; otherwise the parsed records carry their dates, and a commit with a truthy date is queried at most once |
| LocCsv.AllFiles | meta/generate_loc.js:30-43 | the files of the tree, depth first in directory order, skipping `node_modules` and `.git`; see `LocCsv.AllFilesIncluded` |
| LocCsv.GetAllFiles | meta/generate_loc.js:30-43 | the recursive walk returns the files `AllFiles` lists, in directory order |
| LocCsv.AllFilesIncluded | meta/generate_loc.js:34-39 | every file returned has a lower-cased extension of `.js` or `.css` |
| LocCsv.EntryInAllFiles | meta/generate_loc.js:30-43 | whatever one listed entry contributes is in the walk's result |
| LocCsv.WalkedFile | meta/generate_loc.js:34-39 | conversely, a listed file outside `node_modules` and `.git` with an included lower-cased extension is walked |
| LocCsv.WalkedSubdirectory | meta/generate_loc.js:33-37 | the walk takes in every file found under a directory other than `node_modules` and `.git` |
| LocCsv.FilterFiles | meta/generate_loc.js:125 | the paths containing `loc.csv` are dropped and the rest kept in order |
| LocCsv.FileType | meta/generate_loc.js:140 | the `type` column; characterised by `LocCsv.FileTypeSpec` |
| LocCsv.FileTypeSpec | meta/generate_loc.js:140 | the type is `js`, `css` or `other`; it is not `other` exactly when the extension is included as written, and then it is the extension without its dot |
| LocCsv.CaseSensitiveType | meta/generate_loc.js:140 | a file the walk (line 38) includes only after lower-casing its extension gets type `other` |
| LocCsv.UpperCaseExtension | meta/generate_loc.js:140 | `X.JS` is walked (line 38) but typed `other` |
| LocCsv.SimpleLines | meta/generate_loc.js:98-101 | one entry per `\n` plus one |
| LocCsv.SimpleLinesContents | meta/generate_loc.js:98-101 | for any file text, one entry per `\r?\n` segment: no commit, no date, author `Unknown`, and the k-th segment as content |
| LocCsv.SimpleLinesJoin | meta/generate_loc.js:98-101 | for a file without `\r`, the contents joined with `\n` give back the file |
| LocCsv.Pad2Spec | meta/generate_loc.js:109-110 | `padStart(2,'0')` of a number below 100 is two digits reading back as the number |
| LocCsv.FormatOffset | meta/generate_loc.js:107-111 | the `±hh:mm` text of an offset in minutes; characterised by `FormatOffsetSign` and `FormatOffsetFields` |
| LocCsv.OffsetPieces | meta/generate_loc.js:107-111 | the offset text is laid out as sign, two characters, `:`, two characters |
| LocCsv.FormatOffsetSign | meta/generate_loc.js:107-108 | the offset is signed `+` exactly when `-getTimezoneOffset()` is non-negative |
| LocCsv.FormatOffsetFields | meta/generate_loc.js:107-111 | for an offset under 100 hours, the text is `±hh:mm`, minutes below 60, `hh*60+mm` its magnitude |
| LocCsv.SplitIso | meta/generate_loc.js:104-119 | `splitISO`; characterised by `SplitIsoMatched`, `SplitIsoFallback` and `NowStampReparses` |
| LocCsv.SplitIsoMatched | meta/generate_loc.js:116-118 | a date that matches the ISO pattern splits into its date, time and zone fields, which reassemble it |
| LocCsv.SplitIsoFallback | meta/generate_loc.js:105-117 | a missing, empty or non-matching date falls back to the current local time |
| LocCsv.NowStampReparses | meta/generate_loc.js:105-118 | the fallback's datetime matches the ISO pattern and splits back into the same fields |
| LocCsv.StampPieces | meta/generate_loc.js:112-114 | `date + 'T' + time + tz` has each piece at its fixed position |
| LocCsv.DoubleQuotes | meta/generate_loc.js:144 | `replace(/"/g, '""')` adds one character per quote and doubles the number of quotes |
| LocCsv.CollapseDoubled | meta/generate_loc.js:144 | undoing the `""` doubling gives back the value |
| LocCsv.Esc | meta/generate_loc.js:144 | a value with a comma is quoted, holds exactly two more quotes than twice the value's (so every inner quote is doubled), and unquotes back to itself; any other value is returned unchanged |
| LocCsv.RowFields | meta/generate_loc.js:138-145 | the eleven values `rows.push` joins for one entry; characterised by `LocCsv.RowFieldsSpec` |
| LocCsv.RowFieldsSpec | meta/generate_loc.js:134-145 | a row has 11 fields; `line` is the 1-based index in decimal, `depth` is 0, and `length` is the line's length in decimal |
| LocCsv.CommitFieldOfHash | meta/generate_loc.js:139-144 | a blamed commit's field is the first 8 hex characters, unquoted |
| LocCsv.ReadEntries | meta/generate_loc.js:135-136 | blame entries when in a repository and blame gives output, else the file's simple lines |
| LocCsv.FileFieldsAt | meta/generate_loc.js:142-145 | one field list per entry, the k-th built from entry k |
| LocCsv.FileRows | meta/generate_loc.js:142-146 | the per-file loop emits each entry's row, joined with commas |
| LocCsv.LocRows | meta/generate_loc.js:133-147 | the rows of the first `n` files, in file order; extended one file at a time by `LocCsv.LocRowsStep` |
| LocCsv.LocRowsStep | meta/generate_loc.js:133-147 | one more file appends its rows |
| LocCsv.BuildRows | meta/generate_loc.js:131-147 | the header followed by every file's rows, in file order |
| LocCsv.GenerateLoc | meta/generate_loc.js:124-149 | the CSV text of the walked files minus `loc.csv`, joined with `\n` |
| Filesize.SafeExec | meta/generate_filesize.js:22-28 | `safeExec`: `null` when the command throws, else its trimmed output; characterised by `Filesize.SafeExecTrimmed` |
| Filesize.SafeExecTrimmed | meta/generate_filesize.js:22-28 | `safeExec` fails exactly when the command fails; otherwise it returns the output minus a leading and a trailing run of `\s`, with nothing else removed |
| Filesize.AllCommits | meta/generate_filesize.js:31-35 | `getAllCommits`; characterised by `Filesize.AllCommitsSpec` |
| Filesize.AllCommitsSpec | meta/generate_filesize.js:31-35 | an empty or failed `rev-list` is the "no history" error; otherwise the hashes joined give the output back |
| Filesize.FilesAtCommit | meta/generate_filesize.js:38-42 | `listFilesAtCommit`; characterised by `Filesize.FilesAtCommitSpec` |
| Filesize.FilesAtCommitSpec | meta/generate_filesize.js:38-42 | no files without `ls-tree` output; otherwise exactly its non-blank lines, each as often as listed, in listing order |
| Filesize.BlobSize | meta/generate_filesize.js:45-57 | `fileBlobSize`: `null` when `ls-tree` gives nothing or fewer than three parts or `cat-file` gives nothing, else `Number` of its output |
| Filesize.BlobSizeOfDecimal | meta/generate_filesize.js:45-57 | when `cat-file -s` prints `n`, the size is `n` |
| Filesize.BlobSizeOfEntry | meta/generate_filesize.js:45-57 | for an `ls-tree` entry `<mode> <type> <object>\t<path>`, the size is `cat-file -s` of `<object>` |
| Filesize.CommitIsoOf | meta/generate_filesize.js:60-69 | `getCommitISO`; characterised by `Filesize.CommitIsoSpec` |
| Filesize.CommitIsoSpec | meta/generate_filesize.js:60-69 | no date exactly when `git show` is empty; otherwise the slices reassemble the ISO string |
| Filesize.SlicesCover | meta/generate_filesize.js:64-67 | slices 0-10, 10-11, 11-19 and 19- cover the string |
| Filesize.RowFieldsSpec | meta/generate_filesize.js:97-106 | 8 fields: short commit (at most 8 characters), path, size, `js`/`css` type matching the extension, and the commit's date fields |
| Filesize.TypeField | meta/generate_filesize.js:91-101 | for an included file the type is `js` or `css`, the extension without its dot |
| Filesize.FileFieldsRow | meta/generate_filesize.js:89-106 | each row of a file comes from an included file with a size at a dated commit |
| Filesize.FilesFieldsRows | meta/generate_filesize.js:89-106 | each row of a commit is one of its files' rows |
| Filesize.HistoryRows | meta/generate_filesize.js:83-108 | each CSV row comes from some commit and one of its files |
| Filesize.HistoryComplete | meta/generate_filesize.js:83-108 | conversely, every listed commit with an author date has a row for each of its listed files with an included extension and a size |
| Filesize.HistoryRowsIff | meta/generate_filesize.js:83-108 | a row is in the history exactly when it is the row of such a file at one of the listed commits |
| Filesize.HistoryFields | meta/generate_filesize.js:83-108 | the fields of every row the two loops push, commit by commit; see `Filesize.HistoryRows` |
| Filesize.HistoryAppend | meta/generate_filesize.js:83-108 | the history's rows distribute over the commit list |
| Filesize.FilesStep | meta/generate_filesize.js:89-107 | one more file appends its row, if any |
| Filesize.FileRow | meta/generate_filesize.js:90-106 | skips excluded extensions and missing sizes; else one row |
| Filesize.CommitRows | meta/generate_filesize.js:89-107 | the per-commit loop emits its files' rows in order |
| Filesize.HistoryStep | meta/generate_filesize.js:83-108 | one more commit appends its rows |
| Filesize.CommitRowsOf | meta/generate_filesize.js:84-107 | an undated commit is skipped; otherwise its files' rows |
| Filesize.HistoryRowsLoop | meta/generate_filesize.js:75-108 | the header followed by every commit's rows, in `rev-list` order |
| Filesize.FilesizeCsv | meta/generate_filesize.js:80-110 | the text `main` writes, or the history error; computed by `Filesize.Generate` |
| Filesize.Generate | meta/generate_filesize.js:80-112 | the CSV text, failing exactly when there is no history |
| Commits.HourFrac | meta/main.js:29 | hourFrac lies in [0, 24) and its whole part is the hour |
| Commits.ProcessCommits | meta/main.js:17-35 | one summary per distinct commit, in first-appearance order, holding that commit's lines |
| Commits.ProcessCommitsPartition | meta/main.js:17-35 | ids are distinct, no group is empty, `totalLines` counts the group, and the counts add up to the rows |
| Commits.ProcessCommitsMembers | meta/main.js:18 | each group's lines are rows of that commit, and every row's commit has a group |
| Commits.ProcessCommitsHeads | meta/main.js:19-29 | a summary's author, dates, hourFrac and url come from its commit's first row |
| Commits.ProcessCommitsOrder | meta/main.js:18 | the commits of a prefix of the rows are a prefix of the commits |
| Commits.IsCommitSelected | meta/main.js:129-136 | `isCommitSelected`: false without a selection, otherwise inclusive bounds on both axes; related to every commit by `Commits.SelectedCommitsSpec` and `Commits.SelectionMonotone` |
| Commits.SelectionMonotone | meta/main.js:129-136 | a larger rectangle selects every commit a smaller one does |
| Commits.SelectedCommitsSpec | meta/main.js:146 | exactly the commits that pass `isCommitSelected`, none without a selection |
| Commits.SelectionCountPermutation | meta/main.js:146 | sorting the commits in place (line 99) does not change the count |
| Commits.SelectionMessage | meta/main.js:145-150 | the `selection-count` text; characterised by `Commits.SelectionMessageSpec` |
| Commits.SelectionMessageSpec | meta/main.js:145-150 | `No commits selected` exactly when none is; otherwise the count in decimal |
| Commits.Breakdown | meta/main.js:152-163 | the entries `renderLanguageBreakdown` writes; characterised by `BreakdownEntries`, `BreakdownShares` and `BreakdownTotals` |
| Commits.BreakdownEntries | meta/main.js:152-162 | empty without a selection; otherwise the distinct types of the selected lines, first-appearance order, positive counts |
| Commits.BreakdownShares | meta/main.js:158-160 | each count is its type's group size and each proportion is count / lines |
| Commits.SumOfShares | meta/main.js:160 | dividing counts by one total divides their sum by it |
| Commits.SharesSumToOne | meta/main.js:160 | shares `count / total` of counts adding up to `total` add up to 1 |
| Commits.BreakdownTotals | meta/main.js:157-160 | with a selection the counts add up to the selected lines and the proportions to 1 |
| Commits.LanguageBreakdown | meta/main.js:152-163 | the loop yields exactly the rollup's entries |
| Commits.CommitInfo | meta/main.js:38-44 | the two numbers `renderCommitInfo` shows; see `Commits.CommitInfoSpec` |
| Commits.CommitInfoSpec | meta/main.js:38-44 | no more commits than lines, and some commit whenever there is a line |
| CommitSort.InsertStart | meta/main.js:99 | a sorted prefix extended by one element is the initial insertion state |
| CommitSort.InsertStep | meta/main.js:99 | swapping an out-of-order neighbour keeps the insertion state and the elements |
| CommitSort.InsertDone | meta/main.js:99 | once the inserted element is in order, the prefix is sorted |
| CommitSort.PairTies | meta/main.js:99 | exchanging two commits with different counts changes no tie |
| CommitSort.SwapKeepsTies | meta/main.js:99 | swapping neighbours with different counts keeps every tie in order |
| CommitSort.InOwnTie | meta/main.js:99 | a commit is kept by the filter for its own count |
| CommitSort.TieSnoc | meta/main.js:99 | a tie of a longer array is the prefix's tie plus possibly the last commit |
| CommitSort.LastAtMost | meta/main.js:99 | with equal ties, the last commit of one array has a count no larger than the other sorted array's last |
| CommitSort.SameLast | meta/main.js:99 | two sorted arrays with equal ties end in the same commit, and their prefixes have equal ties |
| CommitSort.SortedPrefix | meta/main.js:99 | a prefix of a sorted array is sorted |
| CommitSort.StableSortUnique | meta/main.js:99 | two arrays sorted by `totalLines` that keep every tie in the same order are equal, so the stable sort's result is fully determined |
| CommitSort.InsertAt | meta/main.js:99 | inserting the next commit keeps the prefix sorted by `totalLines`, the elements unchanged, and every tie in its original order |
| CommitSort.SortByLines | meta/main.js:99 | the commits end sorted by ascending `totalLines`, as a permutation, with commits of equal count in their original order (stable, as `Array.prototype.sort` is) |
| CommitSort.RenderScatterPlot | meta/main.js:65-163 | sorts the commits in place and stably, then gives the selection message and breakdown of the sorted array; the count is the same as before sorting |
| Projects.Search | projects.js:17-23 | the search filter; characterised by `Projects.SearchSpec` |
| Projects.SearchView | projects.js:25-27 | the handler's `visible` list; characterised by `Projects.SearchViewSpec` |
| Projects.YearView | projects.js:79-81 | the click handler's `visible` list; characterised by `Projects.YearViewSpec` |
| Projects.SearchSpec | projects.js:17-23 | exactly the projects whose lower-cased title or description includes the lower-cased input, each as often as it occurs |
| Projects.SearchEmpty | projects.js:17-23 | an empty search keeps every project |
| Projects.SearchViewSpec | projects.js:25-27 | without a truthy year the search result; with one, those of that year |
| Projects.YearViewSpec | projects.js:79-103 | a year click shows exactly that year's projects or all, a superset of the search view |
| Projects.Toggle | projects.js:76-100 | the selection clears exactly when the clicked year was selected; otherwise it becomes that year |
| Projects.ToggleTwice | projects.js:76-100 | clicking one year twice restores the selection exactly when it was none or that year |
| Projects.PieData | projects.js:36-45 | the `{label, value}` list of `renderPieChart`; characterised by `Projects.PieDataSpec` |
| Projects.PieDataSpec | projects.js:36-45 | distinct labels, one for each year present, each counting that year's projects (positive), and summing to all projects |
| Projects.MembersAreFilter | projects.js:36-40 | a year's rollup group is that year's projects in order |
| Projects.PieDataOrder | projects.js:36-40 | the labels of a prefix are a prefix of the labels |
| Projects.PieDataFirst | projects.js:36-45 | each slice's year first occurs at some project |
| Projects.SliceOpacity | projects.js:70-72 | a slice's opacity is 0.4 or 1 |
| Projects.LegendOpacity | projects.js:98 | a legend entry's opacity is 0.5 or 1 |
| Projects.DimmedIff | projects.js:70-98 | a slice is dimmed exactly when its legend entry is, exactly when another year is selected |
| Projects.ActiveIffUnfaded | projects.js:95-97 | under a truthy selection, a legend item is marked `active` exactly when it is not faded |
| Projects.SliceOfSelectedYear | projects.js:79-84 | with every visible project of the selected year, each slice is that year |
| Projects.SelectedYearUndimmed | projects.js:70-98 | then no slice or legend entry is dimmed |
| Projects.SelectedYearSingleSlice | projects.js:79-84 | then the pie is one slice counting every visible project |
| Projects.Gallery.constructor | projects.js:10-14 | no year selected and every project shown with its pie |
| Projects.Gallery.OnSearchInput | projects.js:17-31 | shows the search result, narrowed to a truthy selected year, and its pie; the selection stays |
| Projects.Gallery.ClickYear | projects.js:74-106 | toggles the year and shows that year's projects, or all, with their pie |
| Projects.Gallery.NothingDimmed | projects.js:70-98 | in every reachable state no slice or legend entry is dimmed |
| Projects.Gallery.LegendAllActive | projects.js:95 | in every reachable state, every legend item is `active` under a truthy selection and none is without a selection |
| Projects.Gallery.ClickTwiceRestores | projects.js:74-85 | from no selection or a truthy one, clicking a shown slice twice restores the selection; the view then shown is the full list narrowed to that selection, so an earlier search is not restored |

## Left out

- `global.js`, which renders the project cards and fetches the JSON, is not part of this model. `renderProjects` is represented only by the visible list.
- File system and processes: `execSync`, `fs.readdirSync`, `fs.readFileSync`, `fs.writeFileSync` and `mkdirSync` are oracle parameters. The CSV text is returned rather than written to disk.
- `isGitRepo` (meta/generate_loc.js:20-27) is the `haveGit` parameter.
- The shell quoting of file paths in the git commands is left out, because the oracles take the path directly.
- `Math.random().toString(16).slice(2, 10)` (meta/generate_loc.js:139) is a `token` parameter per file and line.
- `new Date()`, `toISOString`, `toTimeString` and `getTimezoneOffset` (meta/generate_loc.js:105-114) are the `Clock` parameter's fields. They are read as given, with no calendar model.
- The fallback's date is the UTC date, while its time and zone are local. Near midnight the three may therefore disagree. This needs a calendar model and is not stated.
- Loading `loc.csv` through `d3.csv` and parsing it with `new Date` (meta/main.js:4-14) is left out. Rows enter as records, and a `Date` is a `Moment` of epoch, hours and minutes.
- Invalid dates (NaN hours) are not represented.
- A commit playback slider is not part of these sources.
- The scatter plot's axes, scales and SVG drawing are left out. The scales are abstract functions from date and hour to position.
- Tooltips (`renderTooltipContent`, with its `toLocaleString` formatting), brush events and DOM updates are left out. Only the message text, the counts and the breakdown entries are modelled. The `.1~%` formatting of proportions is not.
- The `d3.pie` arcs, the colour scale, the SVG and the legend's HTML are left out. Only the slice and legend data and the opacities are modelled.
- Events, `async` loading and DOMContentLoaded ordering are not modelled. The gallery's handlers are methods called one at a time.
- `toLowerCase` is modelled as ASCII-only.
- Lengths count characters, not UTF-16 code units.
- `Number()` is modelled for an optionally signed decimal integer and the empty string. Other numeric forms (fractions, exponents, hex) give NaN. The model's integers are exact and unbounded, while JavaScript numbers are doubles: `Number()` rounds digit strings above 2^53, `String()` prints values from 1e21 up in exponent form, and `Number("Infinity")` is `Infinity`, not NaN. None of these arises for the sizes `cat-file -s` prints or the `author-time` seconds the core reads.
- `path.relative` is modelled for paths under the root, and `path.join` without normalising `..` or doubled slashes. The walked paths never contain either.
- Commits.HourFrac: computes over exact reals, while the program divides in IEEE doubles (59/60 is not a double); the rounding does not change `0 <= r < 24` or that the whole part is the hour, but the model does not track it.
- Commits.Breakdown: the proportions `count / lines.length` are exact reals, so `Commits.BreakdownTotals` proves they sum to exactly 1; in the program they are doubles and sum to 1 only up to rounding.
