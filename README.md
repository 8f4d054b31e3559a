# Mock-exam generator, modelled in Dafny

This project models the decision logic of `src/mock.py`, the mock-exam generator of the pb152
tools. The generator scans the week directories of a course repository for practice tasks
(`pNN…c` and `rNN…c`) that have not been done yet, and picks a random selection of them. It
archives the previous exam into `exams_finished`, then copies the chosen files into `exam/`.
Names are anonymized to `task_k.c` unless `--show` is given, in which case they become
`week.name`. It also writes a mapping file, patches the makefile copied from the newest week,
and records the copied tasks in `progress.json`. The `reveal` command renames anonymized
files back through the mapping file. The `done` command archives the current exam.

The filesystem is reduced to values:

- A week directory is a name and a sequence of file entries, in listing order.
- The exam directory is a map from file names to contents.
- The archive is a map from folder names to such maps.
- The progress file is `Missing`, `Unreadable` or `Saved(list)`.
- A makefile or mapping file is text, read as lines.

Python's string primitives are modelled exactly as the program uses them:

- `str.split`, `str.join`;
- `str.strip`, with Unicode whitespace;
- `int()`, with sign, digit underscores and the surrounding whitespace it skips, which is the
  `isspace` set without the ASCII separators 28 to 31;
- `f"{w:02d}"`;
- the ordering of strings and the stable sort.

Regular expressions are written out as predicates. This includes `$` matching before a final
newline and the anchoring per line of `re.MULTILINE`.

The model has one module per part of the program:

| module | contents |
|---|---|
| `Wrappers` | `Option` |
| `Strings` | whitespace, prefix and suffix tests, `strip`, `split`, `join`, and the round trips between `split` and `join` |
| `PyInt` | `int()` and `f"{w:02d}"`, with `int(f"{w:02d}") == w` |
| `Sorting` | string order and stable insertion sort, with uniqueness of the sorted arrangement |
| `WeekRange` | `parse_week_range`: a loop method against the set `Weeks(s)`, with membership characterised token by token |
| `Scanner` | `get_candidates`: a loop method against `Candidates`, with the full membership condition |
| `Progress` | loading and saving of the progress record |
| `Mapping` | the mapping dictionary, its reading loop, the de-anonymization rule, the mapping lines `main` writes, and the round trip from writing to reading |
| `Makefile` | `create_dynamic_makefile` as a method against `PatchText`, with the line-by-line effect proved |
| `Assembly` | the selection count, the selection loop of `main` (names, mapping lines, new ids, copies) and the choice of the template week |
| `Exam` | the class `Workspace` holding the progress record, exam directory and archive; its methods `ArchiveExisting` (`archive_existing_exam` and `done`), `Reveal` (`reveal_exam_files` and `reveal`) and `Generate` (the generating path of `main`) |

Environment-dependent inputs become parameters:

- the random selection, `selected`, constrained by `IsSample` to be a duplicate-free selection of
  candidates of the clamped size;
- the folder timestamp, `stamp`;
- the glob order of the exam directory, `listing`;
- the success of each copy or move, `copyOk` and `moveOk`;
- the generated intro text, `intro`.

## Model

| member | source | states |
|---|---|---|
| PyInt.ParseInt | src/mock.py:47 | `int()` succeeds only on text that holds a digit |
| PyInt.IntSkipsAsciiSpace | src/mock.py:47 | `int(" 4\n")` skips the surrounding ASCII whitespace and gives 4 |
| PyInt.IntKeepsSeparators | src/mock.py:47 | `int("4\x1c")` fails although `"4\x1c".strip()` is `"4"`: `int()` does not skip the ASCII separators |
| PyInt.ParseDecimal | src/mock.py:47 | `int(str(n)) == n` for every natural number |
| PyInt.ParsePad2 | src/mock.py:49 | `int(f"{w:02d}") == w` for every integer, negative ones included |
| PyInt.Pad2Injective | src/mock.py:49 | different weeks get different padded ids |
| PyInt.DecimalInjective | src/mock.py:402 | different natural numbers have different decimal notations |
| Strings.StripExact | src/mock.py:44 | `strip()` returns exactly the part between a whitespace prefix and a whitespace suffix |
| Strings.JoinSplit | src/mock.py:42 | joining the pieces of `split(sep)` with `sep` gives the text back |
| Strings.SplitJoin | src/mock.py:420 | splitting a join of pieces without the separator gives the pieces back |
| Strings.SplitPieces | src/mock.py:42 | no piece of a split holds the separator; there is one piece exactly when the separator is absent |
| Sorting.SortBy | src/mock.py:78 | Python's stable sort returns a sorted permutation of its input |
| Sorting.SortedUnique | src/mock.py:65 | two sorted arrangements of the same multiset are equal, so the sorted order depends only on the contents |
| WeekRange.ParseWeekRange | src/mock.py:38-55 | the loop returns exactly `Weeks(weekStr)`: empty when unrestricted, otherwise the union of each stripped token's contribution |
| WeekRange.AddToken | src/mock.py:44-54 | one loop step adds exactly the token's contribution: a range for a token holding `-`, a single padded id otherwise, nothing on a failed conversion |
| WeekRange.AddRange | src/mock.py:48-49 | `range(start, end + 1)` adds the padded ids of `start..end` |
| WeekRange.UnrestrictedFilters | src/mock.py:39-40 | the empty filter, the default `all`, `ALL` and `All` all give the empty set of weeks |
| WeekRange.WeeksMembership | src/mock.py:42-54 | an id is in the result exactly when some comma-separated token contributes it |
| WeekRange.RangeToken | src/mock.py:45-50 | a token `a-b` contributes the padded ids of `a..b` inclusive, and nothing when reversed |
| WeekRange.SingleToken | src/mock.py:51-53 | a digit token contributes its single padded id |
| WeekRange.WordSkipped | src/mock.py:52-54 | a token without digits is skipped |
| WeekRange.MissingStart | src/mock.py:45-50 | a token starting with `-` (such as `-3`) is skipped |
| WeekRange.TooManyEnds | src/mock.py:45-50 | a token with two dashes (such as `1-2-3`) is skipped, because unpacking three ends fails |
| WeekRange.WordTokenSkipped | src/mock.py:52-54 | the filter `xx` gives no weeks |
| WeekRange.ThreeEndsSkipped | src/mock.py:46-50 | the filter `1-2-3` gives no weeks |
| WeekRange.MissingStartSkipped | src/mock.py:46-50 | the filter `-3` gives no weeks |
| WeekRange.SeparatorEndSkipped | src/mock.py:44-54 | the filter `4\x1c-8` gives no weeks: only the whole token is stripped, and `int()` rejects the start `4\x1c` |
| WeekRange.TwoTokens | src/mock.py:42-43 | a filter of two comma-separated tokens gives the union of their contributions |
| WeekRange.ExampleFilter | src/mock.py:332 | the help text's example `04-08,11` gives the weeks 04 to 08 and 11 |
| Scanner.GetCandidates | src/mock.py:68-89 | the loop over sorted directories and their entries returns exactly `Candidates` |
| Scanner.ScanDir | src/mock.py:83-88 | the inner loop keeps, in listing order, the entries that are not `.pristine`, match the name pattern and are not processed |
| Scanner.CandidatesMembership | src/mock.py:68-89 | a file is a candidate exactly when its directory is a month directory, is in the target weeks when any are given, and holds the file, and the file is not `.pristine`, matches the prefix pattern and its id is not processed |
| Scanner.NoFlagsNoCandidates | src/mock.py:70-73 | with both prefix flags false there are no candidates |
| Scanner.PristineNeverMatches | src/mock.py:84-85 | a `.pristine` name never matches the task pattern |
| Scanner.MonthDirNames | src/mock.py:15 | a directory name without newline matches the month pattern exactly when it is `f"{w:02d}"` for some `w` in 1..12 |
| Scanner.MatchesIgnoringCase | src/mock.py:75-76 | a letter of the selected prefixes in either case, a digit, and `.c` or `.C` make a match |
| Progress.SaveProcessedPaths | src/mock.py:57-66 | saving writes a sorted list without repetitions that loads back as the same set |
| Progress.SavedFormUnique | src/mock.py:65 | there is only one sorted, repetition-free list for each set, so the saved form is determined by the set |
| Mapping.ProcessLine | src/mock.py:132-136 | a line fails exactly when it holds `=` and does not split into two parts |
| Mapping.ParseMappingFile | src/mock.py:129-138 | the reading loop returns the dictionary read so far and whether it reached the end |
| Mapping.ReadMappingComplete | src/mock.py:275-283 | the reading reaches the end exactly when no line fails |
| Mapping.ReadMappingStops | src/mock.py:130-138 | after the first failing line nothing further is read |
| Mapping.ReadMappingUnique | src/mock.py:136 | the dictionary read never holds a key twice |
| Mapping.PutGet | src/mock.py:136 | after `mapping[k] = v`, key `k` gives `v` and every other key is unchanged |
| Mapping.TerminatorIrrelevant | src/mock.py:132-136 | a line's trailing newline does not change what it stores |
| Mapping.BlankLineIgnored | src/mock.py:277-278 | a final empty line stores nothing |
| Mapping.DeAnonymizedPlain | src/mock.py:153-157 | a de-anonymized name never holds `/` |
| Mapping.DeAnonymizedId | src/mock.py:153-155 | a value `week/name` becomes `week.name` |
| Mapping.DeAnonymizedNoSlash | src/mock.py:156-157 | a value without `/` is kept as it is |
| Mapping.DeAnonymizedDeep | src/mock.py:289-293 | a value with three segments becomes its last one |
| Mapping.MappingLines | src/mock.py:401-403 | the k-th mapping line is `task_k.c = id` of the k-th selected file |
| Mapping.TaskNameInjective | src/mock.py:402 | different positions get different `task_k.c` names |
| Mapping.MappingLineParses | src/mock.py:403 | reading one written mapping line stores `task_k.c` with the id |
| Mapping.ReadMappingLines | src/mock.py:276-280 | reading the written mapping lines recovers `task_k.c -> id` in selection order and completes |
| Mapping.MappingRoundTrip | src/mock.py:418-420 | reading the mapping file `main` writes recovers the dictionary of the selection, provided no id holds `=` or a newline, or starts or ends with whitespace |
| Mapping.EqualsInIdBreaksLine | src/mock.py:134 | an id containing `=` makes its mapping line fail to unpack |
| Makefile.CreateDynamicMakefile | src/mock.py:244-259 | the method's successive substitutions give exactly `PatchText` |
| Makefile.ClearTemplate | src/mock.py:248-250 | the loop over `SRC_D`, `SRC_E`, `SRC_T` and `SRC_R` clears each line for all four names |
| Makefile.PatchedLineCases | src/mock.py:248-255 | a cleared-variable assignment keeps only its `NAME =` head, an `SRC_P` line gets the names after its head, and any other line is kept |
| Makefile.ClearedLineCases | src/mock.py:249-250 | clearing keeps each cleared variable's head and leaves `SRC_P` and other lines unchanged |
| Makefile.PatchedWithSet | src/mock.py:254-255 | with an `SRC_P` line, and provided no file name holds a newline, the makefile keeps its number of lines and each line is patched in place |
| Makefile.PatchedWithPrepend | src/mock.py:256-257 | without an `SRC_P` line, and provided no file name holds a newline, `SRC_P = names` becomes the first line and the rest are the cleared template lines |
| Makefile.FilesListed | src/mock.py:245 | for a non-empty list of names none of which holds a space, the file list is the sorted names, and splitting it at spaces gives them back |
| Makefile.AssignmentsExclusive | src/mock.py:250 | a line assigns at most one of the variable names |
| Makefile.HeadStable | src/mock.py:250 | clearing a cleared line changes nothing, and it stays an assignment of the same name only |
| Assembly.PrefixFlags | src/mock.py:356-358 | at least one prefix is selected; one flag selects its prefix alone; neither or both select both |
| Assembly.NegativeCountPassesGuard | src/mock.py:366-370 | a negative count as written is never 0, so it passes the guard |
| Assembly.SelectionCount | src/mock.py:366-370 | the count is at most the number of candidates, 0 exactly when `num <= 0` or there are none, and `min` otherwise |
| Assembly.AssembleSelection | src/mock.py:389-416 | the selection loop gives exactly `Assemble`'s names, mapping lines, ids and copies |
| Assembly.AssembledMappingLines | src/mock.py:401-403 | in anonymized mode the mapping lines are those of all selected files in order, whether their copy succeeds or not; in show mode there are none |
| Assembly.AssembledIds | src/mock.py:407-410 | the new ids are exactly the `week/name` ids of the files whose copy succeeded, in both modes |
| Assembly.AssembledNames | src/mock.py:401-409 | the exam names are exactly `task_k.c` (anonymized) or `week.name` (shown) for the k-th selected file that was copied |
| Assembly.AssembledNamesDistinct | src/mock.py:401-405 | distinct selected files in month directories get distinct exam names |
| Assembly.SessionNameReserved | src/mock.py:401-405 | no exam name of a selected file is `makefile` or `00_mapping.txt` |
| Assembly.SampleFromCandidates | src/mock.py:377 | every selected file is in a month directory and not yet processed |
| Assembly.BestWeekIsNewest | src/mock.py:230-235 | the template week is the greatest-named month directory holding a makefile, and there is none exactly when no such directory exists |
| Assembly.SupportShadowing | src/mock.py:237-240 | a support file in the template week is copied from there, shadowing the root's copy; the root's copy is taken only when the week has none; a file in neither place is not copied |
| Exam.MoveFiles | src/mock.py:141-166 | the move loop fills the folder with the moved files under their targets, counts them, and creates the folder exactly when some file is archivable |
| Exam.ArchivedMembership | src/mock.py:144-163 | the folder holds a name exactly when an archivable file whose move succeeded has it as target |
| Exam.MovedCountBounds | src/mock.py:141-164 | the count is at most the number of files and is 0 exactly when no archivable file was moved |
| Exam.FolderNameInjective | src/mock.py:108-124 | different indexes with one timestamp give different folder names |
| Exam.ArchiveNumbering | src/mock.py:108-124 | archiving keeps every earlier folder and adds at most the folder numbered one past the existing ones |
| Exam.ArchiveRestoresShowName | src/mock.py:150-157 | archiving an anonymized exam whose mapping file is the one generation wrote stores `task_k.c` under the show-mode name `week.name`, provided no selected id holds `=` or a newline or starts or ends with whitespace, and the k-th file's week and name hold no `/` |
| Exam.RevealNames | src/mock.py:285-298 | the revealed names are exactly the show-mode names of the task files that were present and whose rename succeeded |
| Exam.RevealKeeps | src/mock.py:285-303 | files that are not task files keep their content through the rename loop |
| Exam.RevealOnlyAdds | src/mock.py:285-303 | after the rename loop every file was there before or is a revealed name |
| Exam.RevealRestoresShowName | src/mock.py:272-316 | revealing a generated anonymized exam moves each present `task_k.c` whose rename succeeds to its show-mode name, provided the selection is duplicate-free, from month directories, with no `/` in week or name, no show-mode name already in the exam directory, and no id holds `=` or a newline or starts or ends with whitespace |
| Exam.RenameFiles | src/mock.py:285-303 | the rename loop gives exactly `Renamed` |
| Exam.SupportFilesKept | src/mock.py:237-240 | every copied support file is still in the generated exam directory with its copied content, beside the selected files, the intro, the mapping file and the makefile |
| Exam.UnrestrictedScansAllMonths | src/mock.py:39-40 | with an unrestricted filter a file is a candidate exactly when some month directory holds it and the file is eligible, whatever the directory's week |
| Exam.ExamFiles | src/mock.py:381-422 | the files a generation writes are exactly `GeneratedSession`, and the new ids are the copied selection's |
| Exam.WriteExamFiles | src/mock.py:381-423 | the exam directory is `GeneratedSession`, and the saved record is sorted, free of repetitions, and loads as the earlier ids plus those of the copied files |
| Exam.Workspace.ArchiveExisting | src/mock.py:91-177 | a missing or empty exam directory is left alone; otherwise the archive is `ArchiveAfter`, the exam directory is emptied, and the result is the number of files moved |
| Exam.Workspace.Reveal | src/mock.py:261-316 | without a mapping file, or when reading it fails, nothing changes; otherwise the files are renamed, the makefile is patched when some rename succeeded, and the mapping file is removed |
| Exam.Workspace.WriteExam | src/mock.py:386-423 | the exam directory and progress record are those of `ExamWritten`; the archive is unchanged |
| Exam.Workspace.Generate | src/mock.py:362-423 | nothing happens exactly when the clamped count is 0; otherwise the previous exam is archived, a missing template week stops with an empty exam directory, and a generation writes `ExamWritten`; the progress record never loses an id |

## Left out

- `get_root_dir`: working-directory probing; the root is the `Workspace`'s `root` and `rootFiles`.
- `run_pb152_update`: it runs a shell subprocess.
- `generate_intro_joke`: random word sampling; its text, or its absence after a failed write, is the parameter `intro`.
- `random.sample`: the draw is the input `selected`, constrained by `IsSample`.
- Timestamps from `st_mtime`, `datetime.now` and `strftime`: the folder's timestamp is the parameter `stamp`.
- `argparse` and logging: the flags are parameters of `Generate`. The output is not modelled.
- The dispatch of the `reveal` and `done` commands is not a member of its own. They are `Workspace.Reveal` and `Workspace.ArchiveExisting`.
- Failures of `mkdir`, `rmtree`, `os.remove`, file writes and support-file copies are not modelled. Only the per-file copy and move results are parameters.
- The JSON encoding of `progress.json`: a stored record is its list of strings, or `Unreadable` when loading raises. A JSON value other than a list, which `set()` would still accept, is not modelled.
- The `is_dir()` filters when listing the root and the archive are not modelled. Week directories (`root`) and the files at the root (`rootFiles`) are separate, so a file and a directory may share a name. Archive folders are the keys of `archive`. Subdirectories inside the exam and week directories are not modelled either: both are flat maps or sequences of files.
- The move loop of `archive_existing_exam` removes each file from the exam directory as it goes. The model empties the directory at the end, once `rmtree` runs. The glob listing fixes which files are visited, so the result is the same.
- `int()` accepts Unicode digits other than ASCII and is limited to 4300 digits. Neither is modelled; the model accepts ASCII digits only, with no length limit.
- Scanner.NameMatches: `\d` in the file pattern also matches non-ASCII decimal digits; the model accepts ASCII digits only.
- `re.sub` with `\s*` can match across a line break. The model patches per line, so an assignment whose `=` sits on the next line is not modelled.
- Backslash escapes in the file names spliced into the `re.sub` replacement string are not modelled.
- Reading files as text: universal newlines (`\r\n`) are not modelled, and lines are split at `\n`.
- Mapping.DeAnonymizedName: a mapping value whose target name is `""`, `.` or `..` uses that literal name in the model. Examples are a missing value, `/`, or `a/b/`, and they come only from an edited mapping file. In the program such a target names a directory. Archiving would then keep the file under its own name, or move it to the archive root for `..`. Revealing would fail the move for `""` and `.`, and would move the file to the root for `..`. Exam.ArchiveTarget and Exam.Renamed inherit this.
- SortBy: it is an insertion sort, not Timsort. Both are stable sorts, so the results are equal.

## Findings

| source | as written | input that shows it | evidently intended | confidence | as-written member | corrected member |
|---|---|---|---|---|---|---|
| src/mock.py:366-370 | `count = min(args.num, len(candidates))`, then only `count == 0` returns | `-n -1` with at least one candidate: count is -1 and passes the guard. The program then archives the previous exam (line 373) before `random.sample` raises `ValueError` (line 377). These two later steps follow from the source text. They are not modelled, because `Generate` follows the corrected count | a count of at most 0 stops before archiving anything | not executed | Assembly.NegativeCountPassesGuard | Assembly.SelectionCount |

`Generate` uses the corrected `SelectionCount`. A non-positive `num` therefore leaves everything unchanged.
