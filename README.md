# qemu_exec result processing, modelled in Dafny

FACT_core's `qemu_exec` analysis plugin checks whether the binaries inside a
firmware image can be run. It runs every included executable under QEMU
user-mode emulation, in a container, once for each candidate architecture and
each of a few command-line options (`-h`, `--help`, `-help`, `--version`, a
bare space), and also records a syscall trace (`strace`). It then decides
which files showed real execution.

This project models the sequential rules that turn those raw runs into the
stored analysis result:

- architecture resolution: which QEMU binaries to try for a file-type descriptor;
- failure classification: a timeout or a failed driver becomes an error marker;
- the emulator-error check on captured output;
- the conversion of captured output to text;
- trace compression;
- replacement of the bare-space option by a printable label;
- merging of options that gave identical results;
- insertion of a job's result into the per-file table;
- the executable verdict and the summary;
- the outcome rules of analysing one object.

The production module is not part of this model. Its behaviour is
reconstructed from the plugin's test module
`src/plugins/analysis/qemu_exec/test/test_plugin_qemu_exec.py`. The model cites
that file for every rule.

Modules:

- `Text`: substring tests (Python's `in` on `str` and `bytes`), the `", "`-joined keys of merged entries and their read-back, and the decimal rendering `str(int)`.
- `OrderedMaps`: Python dictionaries whose insertion order matters, as association lists with distinct keys.
- `RunResults`: run records, the validity heuristic, the emulator error markers, failure classification and conversion to text.
- `Aggregation`: the in-place rewrites of one option dictionary. The class `ArchResultSet` holds the dictionary as a field. Its methods are proved against the functions `Merge`, `ReplaceEmpty` and `ProcessStrace`.
- `Architectures`: the architecture catalog and the first-match lookup.
- `Executability`: testing one file under one architecture. The method `CheckQemuExecutability` drives an `ArchResultSet` through the rewrites.
- `Jobs`: the per-file result table (the class `JobResults`), the verdicts, the summary, the relevant-type test and the outcome decision of `process_object`.

Foreign code is passed in as a function parameter and never axiomatised:

- zlib compression: `compress`;
- decoding captured bytes to text: `decode`;
- the container run itself: a `SandboxOutcome` value that is either completed with its options, timed out, or failed.

Choices the test module fixes, or leaves open:

- Validity heuristic. The test at line 269 says that return code "1" with output on both stdout and stderr does not count, so non-empty stdout alone is not enough. A run counts when stdout is non-empty and either the return code is "0" or stderr is empty. This rule agrees with all six rows at lines 264-269.
- Architecture resolution. The test at lines 141-147 expects exactly the `MIPS32` list for a descriptor that also contains the name `MIPS`. The model returns the list of the first catalog entry whose name occurs in the descriptor.
- Order of the early outcomes of `process_object`. The tests at lines 223-245 do not fix the order of the three checks. The model checks the object's own type first, so that the parent-flag test at lines 231-238 holds whatever the object contains. Next comes the no-files check and then the daemon check. All three tests hold under this order for every value of the conditions they leave open.

## Model

| member | source | states |
|---|---|---|
| Text.IsFactorIffOccurs | src/plugins/analysis/qemu_exec/test/test_plugin_qemu_exec.py:311 | the substring test used for `option in key` holds exactly when the name occurs at some position of the key |
| Text.NameInJoin | src/plugins/analysis/qemu_exec/test/test_plugin_qemu_exec.py:311 | every option name of a merged group is a substring of the group's merged key |
| Text.PartsOfJoin | src/plugins/analysis/qemu_exec/test/test_plugin_qemu_exec.py:301-311 | splitting a merged key at ", " gives back exactly the comma-free option names that were joined |
| Text.JoinInjective | src/plugins/analysis/qemu_exec/test/test_plugin_qemu_exec.py:310 | two groups of comma-free names with the same merged key are the same group, so merged keys never collide |
| Text.IntToDecimal | src/plugins/analysis/qemu_exec/test/test_plugin_qemu_exec.py:340-347 | `str(n)` is non-empty, starts with '-' exactly for negative numbers and is otherwise decimal digits |
| Text.DecimalRoundTrip | src/plugins/analysis/qemu_exec/test/test_plugin_qemu_exec.py:340-347 | parsing the decimal text of a return code gives the number back |
| Text.DecimalInjective | src/plugins/analysis/qemu_exec/test/test_plugin_qemu_exec.py:340-347 | different return codes never become the same text |
| Text.Bytes | src/plugins/analysis/qemu_exec/test/test_plugin_qemu_exec.py:314-328 | a `b'...'` literal has one byte per character, each equal to the character's code |
| OrderedMaps.Set | src/plugins/analysis/qemu_exec/test/test_plugin_qemu_exec.py:331-337 | `d[k] = v` adds `k` to the keys, makes `d[k]` equal `v`, keeps every other entry, keeps a present key's position and appends a new key |
| OrderedMaps.Pop | src/plugins/analysis/qemu_exec/test/test_plugin_qemu_exec.py:331-337 | `d.pop(k)` removes exactly `k` from the keys and leaves every other entry's value alone; in a dictionary it drops exactly that entry and keeps the others in their order |
| RunResults.ClassifyRun | src/plugins/analysis/qemu_exec/test/test_plugin_qemu_exec.py:116-126 | a timeout gives `{'error': 'timeout'}`, a failed driver gives `{'error': 'process error'}`, and a completed run keeps its options |
| RunResults.ClassificationDistinguishesFailures | src/plugins/analysis/qemu_exec/test/test_plugin_qemu_exec.py:116-126 | the two failure kinds are recorded differently |
| RunResults.OutputWithoutError | src/plugins/analysis/qemu_exec/test/test_plugin_qemu_exec.py:260-269 | the validity rule for one record; stated in closed form by `ValidTextRecord` and on the six rows by `ValidityTruthTable` |
| RunResults.ArchHasValidRun | src/plugins/analysis/qemu_exec/test/test_plugin_qemu_exec.py:260-269 | an architecture shows execution when some option other than the trace has a valid record; read by key in `Aggregation.ValidRunByKey` |
| RunResults.ValidExecutionInResults | src/plugins/analysis/qemu_exec/test/test_plugin_qemu_exec.py:260-269 | `_valid_execution_in_results`: some architecture of the file shows execution; see `SingleRunVerdict` and `ValidityTruthTable` |
| RunResults.SingleRunVerdict | src/plugins/analysis/qemu_exec/test/test_plugin_qemu_exec.py:260-263 | for one architecture with one option, the verdict is exactly that run's validity |
| RunResults.ValidityTruthTable | src/plugins/analysis/qemu_exec/test/test_plugin_qemu_exec.py:264-269 | the six rows, including rc "1" with output on both streams giving False |
| RunResults.ValidTextRecord | src/plugins/analysis/qemu_exec/test/test_plugin_qemu_exec.py:264-269 | a text record is valid iff stdout is non-empty and (the return code is "0" or stderr is empty) |
| RunResults.FailedRunsAreNotExecutable | src/plugins/analysis/qemu_exec/test/test_plugin_qemu_exec.py:205-221 | when every architecture holds an error marker, the file is not executable |
| RunResults.SilentRunsAreNotExecutable | src/plugins/analysis/qemu_exec/test/test_plugin_qemu_exec.py:264 | runs that all printed nothing and returned "0" are no evidence |
| RunResults.HelloWorldIsExecutable | src/plugins/analysis/qemu_exec/test/test_plugin_qemu_exec.py:128-136 | an option other than the trace that printed "Hello World\n" with return code "0" and empty stderr makes the file executable |
| RunResults.ShortOutputHasNoError | src/plugins/analysis/qemu_exec/test/test_plugin_qemu_exec.py:321-328 | output shorter than both markers holds no emulator error |
| RunResults.ContainsDockerError | src/plugins/analysis/qemu_exec/test/test_plugin_qemu_exec.py:322-328 | an emulator error message occurs in the output bytes; see `DockerErrorExamples` and `ShortOutputHasNoError` |
| RunResults.ResultContainsQemuErrors | src/plugins/analysis/qemu_exec/test/test_plugin_qemu_exec.py:314-319 | some bytes field of some record holds an emulator error marker; see `QemuErrorExamples` |
| RunResults.DockerErrorExamples | src/plugins/analysis/qemu_exec/test/test_plugin_qemu_exec.py:321-328 | the "Unsupported syscall" message is found; "foobar" and empty output are not |
| RunResults.QemuErrorExamples | src/plugins/analysis/qemu_exec/test/test_plugin_qemu_exec.py:314-319 | a record holding "Invalid ELF" is flagged and one holding "no errors" is not |
| RunResults.ConvertOutputToStrings | src/plugins/analysis/qemu_exec/test/test_plugin_qemu_exec.py:340-347 | every field of every record becomes text; options, their order and field names stay the same; text fields are unchanged; bytes are decoded; a number `n` becomes exactly `str(n)`, which reads back as `n` |
| RunResults.ReturnCodeZeroBecomesText | src/plugins/analysis/qemu_exec/test/test_plugin_qemu_exec.py:340-347 | the example record: bytes fields are decoded and return code 0 becomes "0" |
| Aggregation.Merge | src/plugins/analysis/qemu_exec/test/test_plugin_qemu_exec.py:301-311 | `merge_similar_entries` as a left fold over the options; specified by `MergeShape` and the lemmas below it |
| Aggregation.MergeAddsNoSpaceKey | src/plugins/analysis/qemu_exec/test/test_plugin_qemu_exec.py:331-337 | merging a dictionary without a ' ' key never creates one: every merged key is one option name or contains ", " |
| Aggregation.MergeShape | src/plugins/analysis/qemu_exec/test/test_plugin_qemu_exec.py:301-311 | after merging, values are pairwise distinct, no value is lost or invented, and each key joins, in order, the names of all options that held its value |
| Aggregation.MergeOfDistinct | src/plugins/analysis/qemu_exec/test/test_plugin_qemu_exec.py:301-311 | entries whose values all differ are left exactly as they are |
| Aggregation.MergeIdempotent | src/plugins/analysis/qemu_exec/test/test_plugin_qemu_exec.py:301-311 | merging a merged dictionary changes nothing |
| Aggregation.MergeSize | src/plugins/analysis/qemu_exec/test/test_plugin_qemu_exec.py:310 | the number of entries after merging is the number of distinct results, never more than before |
| Aggregation.NamesSurviveMerge | src/plugins/analysis/qemu_exec/test/test_plugin_qemu_exec.py:128-136 | every option name, `--help` included, is a substring of the key of the entry that holds its result, and reading that key back lists it |
| Aggregation.UniqueEntrySurvives | src/plugins/analysis/qemu_exec/test/test_plugin_qemu_exec.py:302-310 | an option whose result no other option shares (a missing field or other values) stays, with its name and value unchanged |
| Aggregation.MergeKeysDistinct | src/plugins/analysis/qemu_exec/test/test_plugin_qemu_exec.py:301-311 | with distinct, comma-free option names the merged keys are again distinct |
| Aggregation.MergeOfFive | src/plugins/analysis/qemu_exec/test/test_plugin_qemu_exec.py:301-311 | five options in which the 1st, 2nd and 5th hold the same result merge into exactly three entries: "option_1, option_2, option_5", option_3, option_4 |
| Aggregation.MergeExampleResult | src/plugins/analysis/qemu_exec/test/test_plugin_qemu_exec.py:301-311 | the test's dictionary merges into exactly those three entries, with option_3 and option_4 unchanged |
| Aggregation.MergedExampleKeyNamesAll | src/plugins/analysis/qemu_exec/test/test_plugin_qemu_exec.py:311 | the shared key contains each of option_1, option_2 and option_5 |
| Aggregation.ValidRunByKey | src/plugins/analysis/qemu_exec/test/test_plugin_qemu_exec.py:260-269 | the verdict on an architecture reads its dictionary only through key lookups of non-trace options |
| Aggregation.MergePreservesVerdict | src/plugins/analysis/qemu_exec/test/test_plugin_qemu_exec.py:301-311 | merging never changes whether an architecture shows real execution (both directions) |
| Aggregation.MergeKeepsValidRun | src/plugins/analysis/qemu_exec/test/test_plugin_qemu_exec.py:301-311 | a valid run survives merging under a key that is not the trace option |
| Aggregation.MergeInventsNoValidRun | src/plugins/analysis/qemu_exec/test/test_plugin_qemu_exec.py:301-311 | every valid merged entry comes from some valid non-trace option |
| Aggregation.ReplaceEmpty | src/plugins/analysis/qemu_exec/test/test_plugin_qemu_exec.py:331-337 | the ' ' key is gone; the EMPTY label is present iff ' ' or the label was, holding the ' ' result; every other key and value is unchanged |
| Aggregation.ReplaceEmptyExample | src/plugins/analysis/qemu_exec/test/test_plugin_qemu_exec.py:331-337 | on the example, ' ' is absent, the EMPTY label is present and '-h' is still present |
| Aggregation.ReplaceEmptyPreservesVerdict | src/plugins/analysis/qemu_exec/test/test_plugin_qemu_exec.py:331-337 | renaming the bare-space option never changes the verdict |
| Aggregation.ProcessStrace | src/plugins/analysis/qemu_exec/test/test_plugin_qemu_exec.py:350-369 | the trace entry always exists afterwards; it is the compressed stdout when that is non-empty text, and otherwise `{}`; all other entries are unchanged |
| Aggregation.ProcessStraceExamples | src/plugins/analysis/qemu_exec/test/test_plugin_qemu_exec.py:350-369 | no trace, an empty trace, an error trace and an empty stdout all give `{}`; "foobar" gives its compressed form |
| Aggregation.ProcessStracePreservesVerdict | src/plugins/analysis/qemu_exec/test/test_plugin_qemu_exec.py:350-369 | processing the trace never changes the verdict |
| Aggregation.ArchResultSet.ReplaceEmptyStrings | src/plugins/analysis/qemu_exec/test/test_plugin_qemu_exec.py:331-337 | rewrites the held dictionary in place into `ReplaceEmpty` of the old one and keeps keys distinct |
| Aggregation.ArchResultSet.ProcessStraceOutput | src/plugins/analysis/qemu_exec/test/test_plugin_qemu_exec.py:350-369 | rewrites the held dictionary in place into `ProcessStrace` of the old one |
| Aggregation.ArchResultSet.MergeSimilarEntries | src/plugins/analysis/qemu_exec/test/test_plugin_qemu_exec.py:301-311 | the two-loop in-place merge leaves exactly `Merge` of the old dictionary |
| Architectures.FirstMatch | src/plugins/analysis/qemu_exec/test/test_plugin_qemu_exec.py:141-152 | the position found holds a name occurring in the descriptor, and no earlier name occurs |
| Architectures.FindArchSuffixes | src/plugins/analysis/qemu_exec/test/test_plugin_qemu_exec.py:141-152 | the result is `[]` iff no catalog name occurs in the descriptor; otherwise it is the binary list of the first entry whose name occurs |
| Architectures.CatalogSpecificFirst | src/plugins/analysis/qemu_exec/test/test_plugin_qemu_exec.py:145-147 | no architecture name occurs in a name listed after it, so variants come before the generic names they contain |
| Architectures.MostSpecificWins | src/plugins/analysis/qemu_exec/test/test_plugin_qemu_exec.py:145-147 | for any matching name, the entry chosen is that name's or an earlier one, and never a generic name contained in it |
| Architectures.MipsDescriptorResolvesToMips32 | src/plugins/analysis/qemu_exec/test/test_plugin_qemu_exec.py:141-147 | the MIPS32 descriptor resolves to the MIPS32 list and not to the MIPS list |
| Architectures.UnknownDescriptorResolvesToNothing | src/plugins/analysis/qemu_exec/test/test_plugin_qemu_exec.py:149-152 | "foo" resolves to `[]` |
| Executability.QemuExecutability | src/plugins/analysis/qemu_exec/test/test_plugin_qemu_exec.py:128-139 | failed runs keep their error marker; a completed run always produces options; an emulator error (wrong architecture) or an empty run gives `{}`; what a clean run stores is stated by `QemuExecutabilityKeepsOptions` and `QemuExecutabilityDropsSpace` |
| Executability.QemuExecutabilityKeepsOptions | src/plugins/analysis/qemu_exec/test/test_plugin_qemu_exec.py:128-136 | for a clean completed run, every option other than the trace and ' ' (`--help` included) is stored under a key that contains its name and reads back to list it, holding its record converted to text |
| Executability.QemuExecutabilityDropsSpace | src/plugins/analysis/qemu_exec/test/test_plugin_qemu_exec.py:331-337 | a completed run never stores a ' ' key |
| Executability.Rewrite | src/plugins/analysis/qemu_exec/test/test_plugin_qemu_exec.py:128-139 | the rewrites of a clean run in their order: conversion to text, trace processing, renaming of ' ', merging; their effects are stated by the lemmas on each step and by `QemuExecutabilityVerdict` and `QemuExecutabilityKeepsOptions` |
| Executability.CheckQemuExecutability | src/plugins/analysis/qemu_exec/test/test_plugin_qemu_exec.py:128-139 | classifying, checking for emulator errors and rewriting one dictionary in place returns exactly `QemuExecutability` |
| Executability.QemuExecutabilityVerdict | src/plugins/analysis/qemu_exec/test/test_plugin_qemu_exec.py:128-139 | the stored result shows real execution iff the run completed without emulator errors and one of its converted non-trace options is valid |
| Executability.FailedRunsDoNotCount | src/plugins/analysis/qemu_exec/test/test_plugin_qemu_exec.py:117-139 | timeouts, driver failures and emulator-rejected runs never count as execution |
| Executability.FailureMarkersStored | src/plugins/analysis/qemu_exec/test/test_plugin_qemu_exec.py:116-126 | a timeout is stored as `{'error': 'timeout'}` and a driver failure as `{'error': 'process error'}` |
| Jobs.InsertJob | src/plugins/analysis/qemu_exec/test/test_plugin_qemu_exec.py:271-283 | an empty result changes nothing; a first result creates `{path, results: {arch: result}}`; a later one is filed under its architecture and keeps the earlier architectures; other files are untouched |
| Jobs.InsertJobKeepsEvidence | src/plugins/analysis/qemu_exec/test/test_plugin_qemu_exec.py:278-283 | storing a job never takes away a file's evidence of execution under another architecture |
| Jobs.InsertJobNewEvidence | src/plugins/analysis/qemu_exec/test/test_plugin_qemu_exec.py:154-166 | storing a valid result makes its file executable |
| Jobs.InsertJobExample | src/plugins/analysis/qemu_exec/test/test_plugin_qemu_exec.py:271-283 | the two calls of the test give exactly the two nested tables it expects |
| Jobs.JobResults.constructor | src/plugins/analysis/qemu_exec/test/test_plugin_qemu_exec.py:275 | the table starts empty |
| Jobs.JobResults.ProcessQemuJob | src/plugins/analysis/qemu_exec/test/test_plugin_qemu_exec.py:271-283 | testing one (file, architecture) pair updates the table in place to `InsertJob` of the old table with that pair's `QemuExecutability` |
| Jobs.MarkExecutable | src/plugins/analysis/qemu_exec/test/test_plugin_qemu_exec.py:154-166 | every collected file keeps its path and results and is marked executable iff some architecture shows a valid run |
| Jobs.GetSummary | src/plugins/analysis/qemu_exec/test/test_plugin_qemu_exec.py:287-298 | the summary is `[]` or `['executable']`, and `['executable']` iff some file is executable |
| Jobs.GetSummaryExamples | src/plugins/analysis/qemu_exec/test/test_plugin_qemu_exec.py:287-298 | `{}` and `{foo: False}` give `[]`; adding `{bar: True}` gives `['executable']` |
| Jobs.SummaryOfMarkedFiles | src/plugins/analysis/qemu_exec/test/test_plugin_qemu_exec.py:168-176 | the summary of the marked files is `['executable']` iff some file ran validly under some architecture |
| Jobs.HasRelevantType | src/plugins/analysis/qemu_exec/test/test_plugin_qemu_exec.py:69-72 | the object's own mime type is one of the executable types; see `HasRelevantTypeExamples` |
| Jobs.HasRelevantTypeExamples | src/plugins/analysis/qemu_exec/test/test_plugin_qemu_exec.py:69-72 | `None` and mime "foo" are not relevant; "application/x-executable" is |
| Jobs.ProcessObject | src/plugins/analysis/qemu_exec/test/test_plugin_qemu_exec.py:223-245 | an executable object gets only the parent flag; no included files gives `{summary: []}`; a stopped daemon stores nothing; otherwise the files are marked and summarised |
| Jobs.AnalysedSummary | src/plugins/analysis/qemu_exec/test/test_plugin_qemu_exec.py:168-187 | an analysed object is summarised as executable iff one of its files ran validly |
| Jobs.TimeoutsAreNotExecutable | src/plugins/analysis/qemu_exec/test/test_plugin_qemu_exec.py:204-221 | when every stored result is a timeout, no file is executable and the summary is empty |
| Jobs.ProcessObjectExamples | src/plugins/analysis/qemu_exec/test/test_plugin_qemu_exec.py:223-245 | the parent-flag, no-files and daemon-down examples give their outcomes |

## Left out

- Running the container and QEMU (`get_docker_output`, `check_output`), the daemon probe (`docker_is_running`, `pgrep dockerd`) and the shell helper. These are external processes. A run is a `SandboxOutcome` value, and the daemon state is a boolean parameter.
- The unpacker, temporary directories, the binary-service database and `_find_relevant_files`. These cover filesystem walking, file-magic identification and a database lookup. `Jobs.ProcessObject` takes the collected file table as a parameter.
- The worker pool that runs the jobs, and the loop of `_process_included_files` over files and architectures. These are concurrency and orchestration around `Jobs.JobResults.ProcessQemuJob`, which is modelled.
- The uid of a file, a content hash. It is a parameter of `ProcessQemuJob`.
- Jobs.InsertJob: the rule that an empty result is dropped is reconstructed. Lines 271-283 store only non-empty results.
- The production module. Its constants are reconstructed: the catalog `arch_to_bin_dict`, `FILE_TYPES`, the EMPTY label "(no parameter)" and the ", " separator of merged keys. The tests fix only their roles: `MIPS32` before `MIPS`; "application/x-executable" is relevant; the label differs from ' '; every merged name occurs in its key.
- Aggregation.ProcessStrace: zlib compression is the parameter `compress`. The 0x789c header that the test at line 369 checks, and decompression, are not stated.
- RunResults.ConvertOutputToStrings: decoding bytes to text is the parameter `decode`. The model states only that the result is text from `decode`. Python's decoding and its error handling are not modelled.
- RunResults.ResultContainsQemuErrors: only raw captured bytes are searched for the markers. A field that is already text is not searched.
- Aggregation.ArchResultSet.MergeSimilarEntries: it requires that the merged keys do not collide. Python would silently overwrite an entry if they did. `Aggregation.MergeKeysDistinct` discharges this for distinct, comma-free option names.
- Executability.CheckQemuExecutability: it requires the option names of a completed run to be distinct and comma-free. The plugin's fixed option list and "strace" satisfy this.
- Executability.QemuExecutabilityVerdict: it requires that the EMPTY label is not itself one of the run's option names.
- Jobs.HasRelevantType: a file-type analysis without a "mime" entry counts as not relevant. The tests do not show that case.
- Jobs.ProcessObject: the tests do not fix the order of its three early outcomes. The order chosen is explained above. The parent-flag outcome is stored as the flag alone.
