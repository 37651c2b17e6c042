# golangers/config: the configuration loader, modelled in Dafny

The Go package `config` loads a JSON configuration from one of four sources:

- inline data (`Data`);
- a list of files (`Files`);
- a glob pattern (`Glob`);
- a directory (`Dir`).

Every file has its `#` comments stripped by `format`. `loadFiles` skips the
paths whose base name starts with `.`. `readFiles` reads the kept files in
one goroutine each and takes their stripped contents from a channel in the
order the goroutines finish. It writes the fragments into one buffer as
`{`, fragment, `,`, …, `}`, skips empty fragments and compacts the buffer
with `json.Compact`. The resulting `Config` holds the data and the list of
loaded files. Its accessors are `Bytes`, `String` and `Target`.

The model has five modules:

- `ByteStrings` (bytestrings.dfy): bytes, the byte constants the loader
  uses, and `IndexOf` and `Join` on byte strings.
- `Comments` (comments.dfy): the comment stripper `regexpNote.ReplaceAll`.
  A match of `#.*` runs from a `#` up to the next newline. The stripper is
  proved equal to an independent line-by-line statement: cut at the
  newlines, keep each line up to its first `#`, keep the newlines.
- `Merge` (merge.dfy): the buffer loop of `readFiles` as an imperative
  loop. It is proved against a specification function `Merged` of the
  received fragments. The corrected comma rule `Separated` sits beside it.
- `Paths` (paths.dfy): `filepath.Base`, `Clean` and `Join` for
  `/`-separated paths.
- `ConfigLoader` (config.dfy): `Config` and its accessors, `format`,
  `readFiles`, `loadFiles`, `Data`, `Files`, `Glob` and `Dir`.

What comes from outside is a parameter:

- the file system is a map from path to contents;
- the results of `filepath.Glob` and `ioutil.ReadDir` are listings that
  may be errors;
- `json.Compact` is a function `compact`;
- the order in which the channel delivers the fragments is a sequence
  `received`, required to hold exactly the stripped contents, in any order.

Each `log.Fatal` becomes a `Failure` result that names what failed.

Three places in the code do not do what the rest of the program
evidently expects. The model follows the code as written and proves the
corrected behaviour beside it (see "## Findings"):

- The comma after a fragment depends on its receive position
  (config.go:54), not on whether a non-empty fragment follows. With
  `"a":1` received before a file holding a single comment and no newline
  the buffer is `{"a":1,}`.
  `json.Compact` rejects that, and config.go:61 ignores the error.
- The fragments are taken in the order the goroutines finish
  (config.go:37-48), so the buffer depends on the schedule.
- `Target()` (config.go:151-153) reads `directory`, but no Config that is
  returned ever sets it: `Dir` sets it on a Config it discards
  (config.go:115-130).

## Model

| member | source | states |
|---|---|---|
| Comments.Strip | config.go:16 | the stripped output holds no `#` and is no longer than the input |
| Comments.BeforeComment | config.go:16 | what a line keeps is exactly its bytes before its first `#` |
| Comments.StripLine | config.go:16 | a line followed by a newline or the end strips to its part before `#`, followed by the stripped rest |
| Comments.StripIsLineByLine | config.go:32 | `ReplaceAll` of `#.*` equals the line-by-line rule: every newline stays, and each line keeps its bytes before its first `#` |
| Comments.StripKeepsNewlines | config.go:32 | stripping removes no newline: the count of newlines is unchanged |
| Comments.StripWithoutComments | config.go:32 | input without `#` comes back unchanged |
| Comments.StripIdempotent | config.go:32 | stripping twice is stripping once |
| ConfigLoader.Format | config.go:26-33 | fails exactly when the file cannot be read, naming that path; otherwise the contents stripped line by line (each line up to its first `#`, newlines kept), with no `#` and no longer |
| ConfigLoader.Formatted | config.go:39-43 | the fragments the goroutines send: one per file, each `format` of that file |
| ConfigLoader.ReadFiles | config.go:35-64 | succeeds exactly when every file is readable, and otherwise names an unreadable listed file; the result is `compact` of the buffer built from the fragments in received order; the non-empty fragments written are those of the files, each as often |
| Merge.Merged | config.go:45-59 | the buffer starts with `{` and ends with `}`; no files give `{}` |
| Merge.BuildBuffer | config.go:45-59 | the receive loop builds exactly `Merged`: non-empty fragments joined by `,`, plus one `,` before `}` when the last received fragment is empty and another one was written |
| Merge.WrittenStep | config.go:47-57 | receiving fragment i writes it if it is non-empty, then a `,` when i < lfs; an empty fragment writes nothing |
| Merge.NonEmptySnoc | config.go:49-51 | one more received fragment joins the written ones only when it is not empty |
| Merge.NonEmptyCounts | config.go:49-51 | the written fragments are the received ones with the empty ones removed, each as often as received |
| Merge.ReceiveOrderKeepsFragments | config.go:37-48 | any two delivery orders write the same non-empty fragments, each as often |
| Merge.NonEmptyAppend | config.go:49-51 | skipping empty fragments distributes over concatenation |
| Merge.MergedAllNonEmpty | config.go:47-57 | with no empty fragment, the buffer is `{`, the fragments joined by `,` in received order, and `}` |
| Merge.MergedSingle | config.go:87 | one fragment is wrapped in braces unchanged, empty or not |
| Merge.EmptyFragmentAddsNothing | config.go:49-51 | an empty fragment received anywhere but last changes nothing |
| Merge.TrailingEmptyLeavesComma | config.go:54-56 | an empty fragment received last, after a non-empty one, leaves `,}` at the end |
| Merge.MergedIsSeparatedUnlessDangling | config.go:54-56 | the buffer as written equals the comma-between-non-empty buffer exactly when no comma dangles |
| Merge.ReceiveOrderDecidesComma | config.go:47-57 | `"a":1` received before an empty fragment gives `{"a":1,}`; received after it, `{"a":1}`; the corrected rule gives `{"a":1}` |
| Merge.BuildSeparatedBuffer | config.go:47-57 | the corrected loop (a comma before every non-empty fragment except the first) builds `Separated` |
| Merge.SeparatedIgnoresEmpty | config.go:49-51 | under the corrected rule, an empty fragment anywhere, the end included, changes nothing |
| ConfigLoader.LoadFiles | config.go:66-83 | the Config tagged "files" that holds the paths not hidden, in order, with the data `readFiles` gives for them; fails exactly when one of those cannot be read |
| ConfigLoader.VisiblePrefix | config.go:71-78 | each loop step keeps the path unless its base name starts with `.` |
| ConfigLoader.VisibleCounts | config.go:71-78 | a hidden path is kept 0 times; any other path is kept as often as it is listed |
| ConfigLoader.VisibleInOrder | config.go:71-78 | the kept paths are a subsequence of the given ones: relative order is preserved |
| ConfigLoader.VisibleExactly | config.go:72-77 | a path is kept if and only if it is listed and its base name does not start with `.` |
| ConfigLoader.Files | config.go:96-98 | the result of `loadFiles` on the given paths: a read failure names an unreadable kept path |
| ConfigLoader.Glob | config.go:100-107 | a failed glob is fatal with the glob error; otherwise the result of `loadFiles` on the matches, a read failure naming an unreadable kept match |
| ConfigLoader.Dir | config.go:109-131 | a failed listing is fatal; otherwise `loadFiles` of the listed non-directory entries whose names do not start with `.`, each joined onto the cleaned directory; the result is tagged "files" and its `Target()` is empty; a read failure names an unreadable one of those paths |
| ConfigLoader.DirPathsVisible | config.go:121-130 | every path `Dir` builds passes the filter of `loadFiles` again, so `loadFiles` keeps all of them |
| ConfigLoader.DirPathsExactly | config.go:120-128 | a path is in Dir's list if and only if it is some non-directory entry, whose name does not start with `.`, joined onto the directory |
| ConfigLoader.KeptPathVisible | config.go:123-127 | a kept entry joined onto a non-empty directory is not hidden |
| ConfigLoader.DirKeepingTarget | config.go:115-118 | the corrected Dir: the Config tagged "directory" holds the cleaned directory as its non-empty `Target()` and the loaded files and data; a read failure names an unreadable listed path |
| ConfigLoader.Data | config.go:85-94 | the Config tagged "data" with no files and no directory, whose data is `compact` of `{` + data + `}`, as merging the data as the one fragment gives |
| ConfigLoader.EmptyDataIsNoFiles | config.go:85-94 | empty inline data gives the same bytes as loading no files: `compact("{}")` |
| ConfigLoader.Config.Bytes | config.go:143-145 | returns the loaded data |
| ConfigLoader.Config.String | config.go:147-149 | returns the loaded data, as a string of the same bytes |
| ConfigLoader.Config.Target | config.go:151-153 | returns the recorded directory |
| ConfigLoader.CompletionOrderWitness | config.go:37-57 | two readable, kept files, one holding `"a":1` and one holding a single comment and no newline: one delivery order gives `{"a":1,}`, the other `{"a":1}` |
| ConfigLoader.ReadFilesInOrder | config.go:35-64 | the corrected loader: succeeds exactly when every file is readable, with `compact` of the fragments in file order separated only between non-empty ones |
| Paths.Base | config.go:72-73 | the base name is never empty, so `fileName[0]` always exists |
| Paths.Clean | config.go:117 | the cleaned directory is never empty |
| Paths.JoinPath | config.go:127 | `filepath.Join` of two elements: the non-empty ones joined by `/` and cleaned; empty exactly when both elements are empty |
| Paths.SplitAppend | config.go:127 | joining a slash-free name adds exactly one element after the directory's elements |
| Paths.BaseOfJoin | config.go:127 | the base of a plain name joined onto a non-empty directory is that name |

## Left out

- `Config.Load` (config.go:133-141) is left out: it calls `json.Unmarshal` into a value of any type and logs through `log.Debug`.
- The mutex `mu` (config.go:14) is declared but never used, so it is left out.
- Goroutines and the channel are not modelled as threads. Their only observable effect is the delivery order, which is the parameter `received`.
- File reading is a map lookup. The model does not cover I/O errors other than a missing file, or file contents that change between reads.
- `log.Fatal` ends the Go process. The model returns a `Failure` instead. When several files are unreadable, it names one of them without saying which, like the race between the goroutines.
- `json.Compact` is the parameter `compact`. Its error is ignored at config.go:61 and config.go:87. The model says nothing about what the function does, including on invalid input such as `{"a":1,}`.
- `filepath.Glob` pattern matching is the given `matches` listing. The sort order of `ioutil.ReadDir` is the order of the given `listing`.
- Dir: entry names are required to be non-empty and free of `/`, as `ioutil.ReadDir` gives them.
- Paths: only `/` is a separator. There are no Windows volume names.
- Results are `Config` values, not `*Config` pointers. Go's `loadFiles` appends to `conf.files` in place (config.go:77). The model's `LoadFiles` builds the list on a local and makes the `Config` once. The difference cannot be observed, because nothing holds `conf` before it is returned.
- Config.Bytes: Go's `Bytes` returns the Config's own slice, so a caller who writes into it changes `data` and what `String` returns later. The model returns a value and does not capture that aliasing.

## Findings

| source | as written | input that shows it | evidently intended | confidence | as-written member | corrected member |
|---|---|---|---|---|---|---|
| config.go:54 | a comma follows every written fragment except when it was the last one received (`i < lfs`) | `"a":1` received before a file holding a single comment and no newline: the buffer is `{"a":1,}`, which `json.Compact` rejects, and config.go:61 ignores that error | commas only between non-empty fragments, giving `{"a":1}` | high, not executed | Merge.TrailingEmptyLeavesComma | Merge.BuildSeparatedBuffer |
| config.go:37-48 | fragments are taken in the order the goroutines finish | two files, `"a":1` and a file holding a single comment and no newline: one schedule gives `{"a":1,}`, the other `{"a":1}`; with keys in several files, the order also decides which duplicate key wins | fragments in file order, so the result does not depend on the schedule | high, not executed | ConfigLoader.CompletionOrderWitness | ConfigLoader.ReadFilesInOrder |
| config.go:115-130 | `Dir` builds a Config tagged "directory" with the cleaned directory, then returns `loadFiles`' Config instead | any readable directory: `Target()` (config.go:151-153) is empty and the tag is "files" | the returned Config is tagged "directory" and `Target()` is the cleaned directory | medium, not executed | ConfigLoader.Dir | ConfigLoader.DirKeepingTarget |

The corrected comma rule does not help a comment-only file that ends in a
newline: it strips to the fragment `"\n"`, which is not empty by the test at
config.go:49, so it is written like any other fragment and the buffer is not
JSON under either rule.
