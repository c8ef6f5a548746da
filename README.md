# SF-INI loader and document store, in Dafny

This project models `tf.ssf.sfort.ini.SFIni`, a small Java library that reads an
extended INI format: section headers compose dot-separated key prefixes
(`[a]` gives `a.`, `[.b]` appends to the current prefix, `[]` returns to the root),
keys may repeat and keep every value, comment lines attach to the next
assignment, and `.=value` stores another value under the last key.

- `JavaText` (`text.dfy`): `String.trim()` (drops leading and trailing chars up
  to U+0020), `indexOf(char)`, and ASCII lower-casing.
- `IniStore` (`store.dfy`): the `Data` record, the insertion-ordered
  `LinkedHashMap<String, List<Data>>` as a value `Doc(keys, lists)`, the
  appending `compute` call, `containsKey`, `getLast`, `getBoolean`, and the
  fragments that `writeToStringConsumer` produces (`Emit`), including its
  `NullPointerException` on records whose comments are `null`.
- `IniLoader` (`loader.dfy`): the loop of `load(Reader)` as a pure `Step` on
  the loop's locals (`path`, `seqKey`, `seqComments`) and the store, and `Run`,
  its fold over the lines, with the line counter.
- `Ini` (`sfini.dfy`): the class `SFIni` with the fields `keys` and `data`,
  `Load` written as the source's loop and proved equal to `Run`,
  `WriteToStringConsumer` written as its nested loops and proved equal to
  `Emit`, and `ToString`.
- `IniScenarios` (`scenarios.dfy`): small documents loaded line by line, for
  any plain names and values: sections, relative and empty headers, comments,
  repeated keys, the shorthand after a header, malformed lines, booleans and
  writing a loaded store back out.

Java's `null` is `None`; an exception thrown by `load` is an `Option<LoadError>`
result that names the kind of error and the 1-based line; the exception from
`getBoolean` is an `Err`. The accessors are functions of `SFIni.Contents()`.

Behaviour of the code that a reader of the format might not expect, kept as
the code has it:
- A section header clears the last key, so `.=v` right after any header is
  refused. `[a]`, `x=1`, `[.b]`, `.=2` therefore fails on line 4; it does not
  store `a.b.x` or `a.x`.
- A relative header is appended with its leading dot: `[a]` then `[.b]` gives
  the prefix `a..b.`.
- A comment is stored with its `;`, and the serialiser writes another `;` in
  front, so `;c` is written back as `;;c`.
- A record stored with no comment pending gets `null` comments, and
  serialising any such record throws. Loading and then serialising is
  therefore not a round trip.
- The `[` test and the `;`-in-header test look at the raw line. The comment
  test and the split at `=` look at the trimmed line. So `  [a]` is not a
  header; it is taken as an assignment if it holds `=`, and refused otherwise.

## Model

| member | source | states |
|---|---|---|
| `JavaText.Trim` | src/main/java/tf/ssf/sfort/ini/SFIni.java:145 | the trimmed line is empty iff every char is at most U+0020; otherwise its first and last chars are above U+0020; a line starting with a non-space char keeps it first |
| `JavaText.TrimIsSlice` | src/main/java/tf/ssf/sfort/ini/SFIni.java:145 | the trimmed line is the slice of the raw line that starts after its leading chars up to U+0020, and every char after that slice is at most U+0020 |
| `JavaText.TrimKeeps` | src/main/java/tf/ssf/sfort/ini/SFIni.java:145-181 | a char above U+0020 occurs in the trimmed line iff it occurs in the raw line, so the raw `contains("=")` test guarantees the trimmed `indexOf('=')` finds one |
| `JavaText.TrimIdempotent` | src/main/java/tf/ssf/sfort/ini/SFIni.java:145 | trimming twice is trimming once |
| `JavaText.IndexOf` | src/main/java/tf/ssf/sfort/ini/SFIni.java:181 | the index holds the char and no earlier index does |
| `JavaText.ToLowerIsCaseVariant` | src/main/java/tf/ssf/sfort/ini/SFIni.java:67 | lower-casing a value gives a lower-case word iff the value spells that word up to case |
| `IniStore.Empty` | src/main/java/tf/ssf/sfort/ini/SFIni.java:33 | a new store is well formed and holds no record under any key |
| `IniStore.Append` | src/main/java/tf/ssf/sfort/ini/SFIni.java:200-204 | one record is added at the end of its key's list; every other key's list is unchanged; a new key goes to the end of the key order, a known key keeps its place |
| `IniStore.AppendKeeps` | src/main/java/tf/ssf/sfort/ini/SFIni.java:200-204 | after appending, the map holds exactly the old keys plus the key; a key order in step with the map, and the absence of empty lists, are kept |
| `IniStore.ContainsKey` | src/main/java/tf/ssf/sfort/ini/SFIni.java:37-40 | `containsKey` holds iff the key's list is present and non-empty |
| `IniStore.GetLast` | src/main/java/tf/ssf/sfort/ini/SFIni.java:42-46 | there is a value iff `containsKey` holds, and it is the value of the last record under the key |
| `IniStore.GetBoolean` | src/main/java/tf/ssf/sfort/ini/SFIni.java:64-72 | no value iff the key is absent or empty; `true` iff the last value is `1` or `true` in any case; `false` iff it is `0` or `false` in any case; any other value is refused |
| `IniStore.CommentFrags` | src/main/java/tf/ssf/sfort/ini/SFIni.java:99-103 | each comment gives three fragments |
| `IniStore.CommentFragsAt` | src/main/java/tf/ssf/sfort/ini/SFIni.java:99-103 | comment i gives `;`, the comment and CRLF at fragments 3i, 3i+1 and 3i+2 |
| `IniStore.RecordFrags` | src/main/java/tf/ssf/sfort/ini/SFIni.java:98-107 | a record throws iff its comments are `null`, and then pushes nothing; otherwise it pushes three fragments per comment plus four for `key=value` + CRLF |
| `IniStore.RecordsFrags` | src/main/java/tf/ssf/sfort/ini/SFIni.java:98-108 | when no record throws, a key's records push at least four fragments each |
| `IniStore.KeysFrags` | src/main/java/tf/ssf/sfort/ini/SFIni.java:97-109 | when nothing throws and every key holds a record, at least four fragments per key are pushed |
| `IniStore.RecordsCrashIff` | src/main/java/tf/ssf/sfort/ini/SFIni.java:98-99 | writing a key's records throws iff one of them has `null` comments |
| `IniStore.KeysCrashIff` | src/main/java/tf/ssf/sfort/ini/SFIni.java:97-99 | writing a list of keys throws iff one of their records has `null` comments |
| `IniStore.Emit` | src/main/java/tf/ssf/sfort/ini/SFIni.java:96-110 | serialising throws iff some stored record has `null` comments |
| `IniStore.Join` | src/main/java/tf/ssf/sfort/ini/SFIni.java:89-94 | the joined text starts with the first fragment |
| `IniStore.JoinAppend` | src/main/java/tf/ssf/sfort/ini/SFIni.java:89-94 | joining two runs of fragments is joining each and concatenating, so fragments are appended in the order pushed |
| `IniStore.EmitAppendNewKey` | src/main/java/tf/ssf/sfort/ini/SFIni.java:97-108 | a record under a new key is written after everything already stored (insertion order) |
| `IniStore.EmitAppendLastKey` | src/main/java/tf/ssf/sfort/ini/SFIni.java:98-108 | a further record under the last key is written right after that key's earlier records (list order) |
| `IniStore.RecordText` | src/main/java/tf/ssf/sfort/ini/SFIni.java:99-107 | a commented record is written as `;` + comment + CRLF per comment, then `key=value` + CRLF |
| `IniStore.RecordsCrashStays` | src/main/java/tf/ssf/sfort/ini/SFIni.java:98-103 | once a record has thrown, later records of the key add nothing |
| `IniStore.KeysCrashStays` | src/main/java/tf/ssf/sfort/ini/SFIni.java:97-103 | once a key has thrown, later keys add nothing |
| `IniLoader.WithDot` | src/main/java/tf/ssf/sfort/ini/SFIni.java:166-168 | text already ending in `.` is kept as is, other non-empty text gains a trailing `.`, and the result is empty iff the text is |
| `IniLoader.ComposePath` | src/main/java/tf/ssf/sfort/ini/SFIni.java:166-173 | header text starting with `.` is appended, dot-terminated, to the old path; any other text replaces it; the new path is empty iff the text is (`[]` resets to the root), otherwise it ends in `.` |
| `IniLoader.AbsolutePath` | src/main/java/tf/ssf/sfort/ini/SFIni.java:169-173 | a header not starting with `.` sets the same path whatever the current one is |
| `IniLoader.Step` | src/main/java/tf/ssf/sfort/ini/SFIni.java:143-208 | a blank or comment line is never refused; only an assignment line can change the store |
| `IniLoader.HeaderStep` | src/main/java/tf/ssf/sfort/ini/SFIni.java:155-178 | a header is refused iff the raw line holds `;`, the trimmed line does not end in `]`, or the inner text holds a bracket; accepted, it leaves the store alone, clears the last key and pending comments, and composes the path from the inner text |
| `IniLoader.AssignStep` | src/main/java/tf/ssf/sfort/ini/SFIni.java:180-204 | an assignment is refused iff it is `.=` with no last key, with that error; accepted, the path is kept, the pending comments are cleared, and the value after the first `=` is appended with those comments under what is then the last key |
| `IniLoader.Attached` | src/main/java/tf/ssf/sfort/ini/SFIni.java:193-199 | the record gets `null` iff no comment is pending, and otherwise exactly the pending comments |
| `IniLoader.Assign` | src/main/java/tf/ssf/sfort/ini/SFIni.java:192-204 | the record holding the value and the pending comments goes at the end of the key's list, and the pending comments are cleared |
| `IniLoader.CommentLine` | src/main/java/tf/ssf/sfort/ini/SFIni.java:145-150 | a comment line queues its trimmed text, `;` included, and changes nothing else |
| `IniLoader.BlankLine` | src/main/java/tf/ssf/sfort/ini/SFIni.java:151-154 | a blank line changes nothing: pending comments and the last key survive |
| `IniLoader.HeaderLine` | src/main/java/tf/ssf/sfort/ini/SFIni.java:155-176 | a raw line starting with `[` never changes the store; accepted, it has cleared the last key and pending comments; a `;` anywhere on the raw line refuses it; otherwise a trimmed line not ending in `]` refuses it |
| `IniLoader.SectionLine` | src/main/java/tf/ssf/sfort/ini/SFIni.java:155-178 | `[inner]` plus trailing spaces, without `;` or inner brackets, sets the path from `inner` and clears the last key and pending comments |
| `IniLoader.NestedBracketLine` | src/main/java/tf/ssf/sfort/ini/SFIni.java:162-165 | a header whose inner text holds `[` or `]` is refused |
| `IniLoader.SplitAtFirst` | src/main/java/tf/ssf/sfort/ini/SFIni.java:181-192 | for `left=right` with no `=` in `left`, the split gives exactly `left` and `right` |
| `IniLoader.AssignmentLine` | src/main/java/tf/ssf/sfort/ini/SFIni.java:180-204 | for trimmed text `left=value`, the key is the path plus `left` untrimmed, the value is the rest, the key becomes the last key, the record takes the pending comments (`null` if none) which are cleared, it is appended to the store, and `getLast(key)` is then the value |
| `IniLoader.ShorthandLine` | src/main/java/tf/ssf/sfort/ini/SFIni.java:184-188 | `.=value` appends under the last key and keeps it; with no last key it is refused |
| `IniLoader.UnrecognisedLine` | src/main/java/tf/ssf/sfort/ini/SFIni.java:205-206 | a non-blank, non-comment line not starting with `[` and without `=` is refused |
| `IniLoader.AppendedIsLast` | src/main/java/tf/ssf/sfort/ini/SFIni.java:37-46 | after appending value v under k, `containsKey(k)` holds and `getLast(k)` is v |
| `IniLoader.StepKeeps` | src/main/java/tf/ssf/sfort/ini/SFIni.java:145-208 | every accepted line keeps the store well formed with no empty list, keeps every comment starting with `;`, and keeps the path empty or dot-terminated |
| `IniLoader.StepExtends` | src/main/java/tf/ssf/sfort/ini/SFIni.java:193-204 | an accepted line only appends: old keys keep their order and old lists are prefixes of the new ones |
| `IniLoader.UncommentedAssignBreaksEmit` | src/main/java/tf/ssf/sfort/ini/SFIni.java:193-199 | storing a record with no pending comment makes serialisation throw |
| `IniLoader.RunIsFold` | src/main/java/tf/ssf/sfort/ini/SFIni.java:142-209 | the load loop is the fold of `Step` over the lines |
| `IniLoader.FoldConcat` | src/main/java/tf/ssf/sfort/ini/SFIni.java:142-209 | folding over two blocks of lines is folding over the second from where the first stopped |
| `IniLoader.RunConcat` | src/main/java/tf/ssf/sfort/ini/SFIni.java:142-209 | running two blocks of lines is running the second from where the first stopped, unless the first failed |
| `IniLoader.Run` | src/main/java/tf/ssf/sfort/ini/SFIni.java:138-209 | a failure names a line within the lines run, counting from the first line's number |
| `IniLoader.LoadLines` | src/main/java/tf/ssf/sfort/ini/SFIni.java:136-209 | a failed load names a 1-based line number no larger than the number of lines |
| `IniLoader.RunKeeps` | src/main/java/tf/ssf/sfort/ini/SFIni.java:142-209 | a load keeps the store well formed with `;`-prefixed comments and no empty list, and keeps the path empty or dot-terminated |
| `IniLoader.RunExtends` | src/main/java/tf/ssf/sfort/ini/SFIni.java:142-209 | whether it succeeds or fails, a load never removes or reorders prior contents (loads are cumulative) |
| `IniLoader.RunFailsAtLine` | src/main/java/tf/ssf/sfort/ini/SFIni.java:138-208 | a failed load names a line number within the input; the store is exactly what the lines before it produced, and that line's step fails with the reported kind |
| `Ini.SFIni.constructor` | src/main/java/tf/ssf/sfort/ini/SFIni.java:33-35 | a new object holds the empty store |
| `Ini.SFIni.Load` | src/main/java/tf/ssf/sfort/ini/SFIni.java:136-210 | the loop leaves the store and the reported error that `Run` gives from fresh locals and line 1 |
| `Ini.SFIni.LoadLine` | src/main/java/tf/ssf/sfort/ini/SFIni.java:143-208 | one pass of the loop classifies the line in the source's order and leaves the locals and store that `Step` gives, or names the exception with the store untouched |
| `Ini.SFIni.ReadHeader` | src/main/java/tf/ssf/sfort/ini/SFIni.java:155-178 | the header branch clears the last key and pending comments, then sets the path or names the header exception, as `HeaderStep` does |
| `Ini.SFIni.StoreAssignment` | src/main/java/tf/ssf/sfort/ini/SFIni.java:180-204 | the assignment branch picks the key (`.=` reuses the last key, refused without one), hands the pending comments to the record and appends it, as `AssignStep` does |
| `Ini.SFIni.Compute` | src/main/java/tf/ssf/sfort/ini/SFIni.java:200-204 | the store afterwards is the old store with the record appended under the key, created if missing |
| `Ini.SFIni.WriteToStringConsumer` | src/main/java/tf/ssf/sfort/ini/SFIni.java:96-110 | the fragments pushed, and whether it throws, are those of `Emit` on the store |
| `Ini.WriteRecords` | src/main/java/tf/ssf/sfort/ini/SFIni.java:98-108 | the middle loop pushes the fragments of one key's records, stopping at a `null` comment list |
| `Ini.WriteComments` | src/main/java/tf/ssf/sfort/ini/SFIni.java:99-103 | the inner loop pushes `;`, comment, CRLF per comment |
| `Ini.SFIni.ToString` | src/main/java/tf/ssf/sfort/ini/SFIni.java:89-94 | the joined fragments, or nothing iff some record has `null` comments |
| `IniScenarios.ShorthandAfterHeaderFails` | src/main/java/tf/ssf/sfort/ini/SFIni.java:155-188 | `[a]`, `x=v`, `[.b]`, `.=w` stores `a.x` and then fails on line 4 |
| `IniScenarios.RelativeHeaderKeepsDot` | src/main/java/tf/ssf/sfort/ini/SFIni.java:166-173 | `[a]`, `[.b]`, `x=v` stores under `a..b.x` |
| `IniScenarios.EmptyHeaderResetsRoot` | src/main/java/tf/ssf/sfort/ini/SFIni.java:166-173 | `[a]`, `[]`, `x=v` stores under `x` |
| `IniScenarios.CommentsSurviveBlankLine` | src/main/java/tf/ssf/sfort/ini/SFIni.java:145-199 | two comments, a blank line and `x=v` give one record carrying both comments with their `;` |
| `IniScenarios.DuplicateKeyKeepsBoth` | src/main/java/tf/ssf/sfort/ini/SFIni.java:37-46 | `x=v1`, `x=v2` keep both records in order; `containsKey` holds and `getLast` is `v2` |
| `IniScenarios.TwoAssignmentsLoad` | src/main/java/tf/ssf/sfort/ini/SFIni.java:180-204 | `x=v1`, `x=v2` on any store appends two records under `x`, leaving `x` as the last key |
| `IniScenarios.MalformedLinesReportTheirLine` | src/main/java/tf/ssf/sfort/ini/SFIni.java:174-206 | `[a` fails on line 1; plain text after `x=v` fails on line 2 with `x` stored |
| `IniScenarios.BooleanExamples` | src/main/java/tf/ssf/sfort/ini/SFIni.java:64-72 | `TRUE` reads as true; `yes` is refused |
| `IniScenarios.CommentIsDoubledOnOutput` | src/main/java/tf/ssf/sfort/ini/SFIni.java:99-107 | a record with comment `c` is written as `;c` then `k=v`, so a loaded `;c` comes back as `;;c` |
| `IniScenarios.UncommentedLoadCannotBeWritten` | src/main/java/tf/ssf/sfort/ini/SFIni.java:193-199 | loading the single line `x=v` leaves a store whose serialisation throws |

## Left out

- `load(String)`, `load(File)`, `load(Path)`, `load(InputStream)`: file and stream opening, UTF-8 decoding and `BufferedReader.readLine` line splitting are library I/O; `Load` takes the lines directly, and `IOException` is not modelled.
- `getInt` and `getDouble`: they wrap `Integer.parseInt` and `Double.parseDouble` (number parsing, floating point).
- `getEnum`: it relies on reflection over an enum class.
- Exception messages: only the kind of error and the line number are kept. The three header errors share one message in the source, and so do the shorthand and unrecognised-line errors.
- The `Consumer<String>` callback and the `StringBuilder`: the fragments are returned as a sequence and joined.
- `GetBoolean`: lower-cases ASCII letters only; Java's full Unicode lower-casing maps no other char to a char of `1`, `0`, `true` or `false`, so the result is the same.
- Java `char` is a UTF-16 code unit while a Dafny `char` is a Unicode scalar value; surrogate pairs are not modelled. `trim()` only tests codes up to U+0020, so it agrees either way.
- The `int` line counter is unbounded here; its overflow after 2^31 lines is not modelled.
- The reset of the last key and pending comments that precedes a header's failure checks is dropped on failure: `HeaderStep` computes it but returns `Fail` without parser state, since the locals die with the exception.
- Callers may put anything into the public `data` field; `SFIni.Valid` only asks for a key order that matches the map, and lists there may be empty, which `containsKey` and `getLast` handle.
- Concurrency: none in the source.
