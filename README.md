# TINKER pair-energy scripts, modelled in Dafny

These scripts drive the TINKER `archive` and `analyze` programs to split a
molecular-dynamics trajectory into residue pairs and collect the pair
interaction energies. This project models their deterministic core:

- **Reading a `.arc` file.** This covers `read_tinker_xyz`, the atom records of the first frame. There are three copies of it:
  - new_main.py's copy drops the `0` bonds;
  - the copies in read_sep_arc.py and read_tinker_xyz.py keep them.
- **The frame counters.** There are two:
  - the lines equal to the stripped header (`get_header_and_repetitions`, `count_frames_in_arc_file`);
  - the integer-line counter of `call_tinker_archive`.
- **Residue segmentation.** `atoms_to_residues` cuts before every contiguous `N`, `CA`, `C` triad. It appears three times, identically.
- **Pair enumeration and the `archive` script.**
  - Pairs are enumerated as `for i in range(1, n): for j in range(i + 1, n)`.
  - The four-branch `archive` stdin script of `archive_sep_pair` is written out exactly.
  - So is the single-residue script of `call_archive_ref`.
  - The reference-index prompt is checked.
- **Connectivity cleanup.** This is the rewrite of each pair archive that drops `0` bond fields. Any bond that is not an integer abandons the rewrite.
- **Energy reports.** This is the first-match label dispatch over `analyze`'s output, and the per-component lists (`Main.all_energy_components`). The lists only grow, across all pairs.
- **The driver loop of `archive_sep_pair`.** It has the external programs as parameters.
- **`apply_mutations`.** It applies `A12V`-style substitutions in place on a character array.

Shared conventions:

- **Files.** A file is the list `readlines()` returns, with terminators kept. `None` stands for a missing file (`FileNotFoundError`).
- **Python string operations.** `str.strip`, `str.split`, `" ".join`, `sub in s`, `int()` and `str(int)` are written out in `PyText`.
- **Whitespace.** It is the ASCII set Python's `isspace` accepts.
- **`int()`.** It is surrounding whitespace, an optional sign and ASCII digits.

Modules, one per file:

| file | module | models |
|---|---|---|
| py_text.dfy | `PyText` | the Python string built-ins the scripts use |
| arc_reader.dfy | `ArcReader` | `read_tinker_xyz` in its three copies, the frame counters |
| segmenter.dfy | `Segmenter` | `atoms_to_residues` |
| selection.dfy | `Selection` | pair order, the `archive` scripts, the reference prompt, `call_archive_ref`, `call_tinker_archive` |
| connect_cleanup.dfy | `ConnectCleanup` | the rewrite of `pair_*.arc` files (new_main.py lines 162-186) |
| energy.dfy | `Energy` | report parsing and `Main.all_energy_components` |
| pair_driver.dfy | `PairDriver` | the loops of `archive_sep_pair` |
| mutations.dfy | `Mutations` | `apply_mutations` |

`X N CA C X N CA C` segments into three residues `[X]`, `[N CA C X]`, `[N CA C]` (`Segmenter.EightAtomExample`).

## Model

| member | source | states |
|---|---|---|
| PyText.Split | new_main.py:64 | every field of `str.split()` is non-empty and free of white space |
| PyText.SplitJoin | new_main.py:177 | splitting `" ".join(fields)` followed by white space gives the fields back |
| PyText.ParseIntToString | new_main.py:171-177 | `int(str(n)) == n` for every integer |
| PyText.ParseNegated | new_main.py:129 | `int("-" + str(n)) == -n` for a natural number |
| PyText.ParseIntNotBlank | new_main.py:51 | a line `int()` accepts is not blank once stripped |
| PyText.IntToStringInjective | new_main.py:153 | different integers print differently |
| ArcReader.ParseInts | new_main.py:74 | `[int(num) for num in parts[6:]]` succeeds exactly when every field parses, and position by position gives each field's value |
| ArcReader.DropZeros | new_main.py:76 | the filtered list is no longer, and holds exactly the non-zero values of the original |
| ArcReader.DropZerosKeepsOrder | new_main.py:76 | the filter distributes over concatenation, so the kept bonds stay in file order |
| ArcReader.DropZerosNoZero | new_main.py:76 | a list without `0` is left unchanged, so filtering twice is filtering once |
| ArcReader.Records | new_main.py:59-77 | the loop yields records or stops with a field error; at most one record per line read; with the filter, no bond list holds `0` |
| ArcReader.RecordsErrSticky | new_main.py:68-74 | a record that fails to parse makes the whole read fail, whatever follows |
| ArcReader.RecordOfMeaning | new_main.py:60-76 | a line is skipped exactly when it has fewer than seven fields (blank lines have none); it is rejected exactly when the serial, the type code or a bond is not an integer; otherwise the record holds the serial, symbol, the three coordinate tokens, the type code and the bonds read, without the zeros when the filter applies |
| ArcReader.RecordsErrIff | new_main.py:59-78 | the read fails with the uncaught `ValueError` exactly when some line it reads is rejected |
| ArcReader.ReadTinkerXyz | new_main.py:44-81 | the file is missing exactly when the result is `FileNotFound`; the first line is not an integer exactly when it is `HeaderNotInteger`; otherwise at most `n_atoms + 1` atoms are read |
| ArcReader.RecordsAreKeptLines | new_main.py:59-77 | the records are, in order, the parsed lines among the `n_atoms + 1` read that are neither blank nor shorter than seven fields |
| ArcReader.RecordOfCopies | read_sep_arc.py:19-37 | a line is skipped or rejected by both reader copies alike, and both read the same record except for the `0` bonds |
| ArcReader.ReaderCopiesAgree | read_sep_arc.py:3-42 | the two reader copies accept the same files, fail the same way, and read the same atoms except that new_main.py's bond lists lack the `0`s |
| ArcReader.CountMatchingIsMultiplicity | new_main.py:27-33 | the frame count is the number of lines whose stripped text equals the header |
| ArcReader.CountMatchingFirst | new_main.py:16-33 | the first line counts itself, so the count is at least one |
| ArcReader.CountFramesInArcFile | read_sep_arc.py:66-86 | `None` exactly for a missing file, otherwise the number of matching lines |
| ArcReader.GetHeaderAndRepetitions | new_main.py:7-42 | a header is found exactly when the file exists and its first line is not blank; the header is that stripped line, and it repeats between 1 and the number of lines times |
| ArcReader.ReaderOkHasHeader | new_main.py:24-39 | whenever the reader accepts a file, the header counter finds a header and counts it at least once |
| ArcReader.IntegerFrames | read_tinker_xyz.py:90-96 | the count never exceeds the number of leading integer lines |
| ArcReader.IntegerFramesStops | read_tinker_xyz.py:90-96 | nothing after the first non-integer line influences the count |
| ArcReader.CountIntegerFrames | read_tinker_xyz.py:84-104 | a missing file and a non-integer first line are the two errors, both exactly; otherwise the count of the loop as written |
| ArcReader.BreakCountsNothing | read_tinker_xyz.py:90-96 | as written, an archive whose first frame has any atom line gets the count 0, however many frames it has |
| ArcReader.ContinueCountsRepeats | read_tinker_xyz.py:90-97 | with `continue`, a well-formed archive of `k` frames gets the count `k - 1`, the repetitions of its first line |
| ArcReader.CountRepeatedHeaders | read_tinker_xyz.py:84-104 | the counting loop with `continue` computes that intended count |
| Segmenter.AtomsToResidues | new_main.py:83-101 | the residues laid end to end are the atoms; no atoms give no residues; residue 0 holds no triad; every later residue starts with `N, CA, C` and holds no other triad; the last residue is not empty; and the result equals the independent cut-before-every-triad definition |
| Segmenter.SplitIsCut | read_sep_arc.py:44-64 | any split with those properties is the cut before every triad, so the segmentation is unique |
| Segmenter.FirstResidueEmpty | new_main.py:90-95 | residue 0 is empty exactly when the atoms start with `N, CA, C` |
| Segmenter.EightAtomExample | read_tinker_xyz.py:39-59 | `X N CA C X N CA C` gives the three residues `[X]`, `[N CA C X]`, `[N CA C]` |
| Selection.PairsAreLexicographic | new_main.py:108-111 | the pairs visited are exactly `1 <= i < j < n`, each once, in strictly increasing lexicographic order |
| Selection.ChooseBranchIsFirstTest | new_main.py:123-135 | each of the four branches is taken exactly when its own test holds and no earlier test does |
| Selection.ArchiveScriptByBranch | new_main.py:123-135 | the script of a pair is the text of the branch the chain selects, with the bounds in that branch's order |
| Selection.SentinelScript | new_main.py:124-126 | the script for the special pair starting at serials 1 and 17 is the source's text |
| Selection.AdjacentScript | new_main.py:127-129 | the script for adjacent residues is the source's text |
| Selection.ForwardScript | new_main.py:130-132 | the script when the first residue comes first is the source's text |
| Selection.ReversedScript | new_main.py:133-135 | the script for the remaining case is the source's text, with residue 2's bounds first |
| Selection.RangeLineDecodes | new_main.py:126-135 | the range line reads back, field by field, as the negated bounds, the negated header and the flag |
| Selection.FrameLineDecodes | new_main.py:126-135 | the frame line reads back as `1, repetitions, 1` |
| Selection.IncreasingSerialsNeverReversed | new_main.py:130-135 | when serials increase along the atoms, the final `else` never runs |
| Selection.NeighboursAreAdjacent | new_main.py:124-129 | with consecutive serials, neighbouring residues take the sentinel or the adjacency branch |
| Selection.DistantAreForward | new_main.py:124-132 | with consecutive serials, residues further apart take the sentinel or the forward branch |
| Selection.FirstAccepted | read_sep_arc.py:96-104 | every answer before the accepted one is rejected, and the accepted one is in range |
| Selection.PromptReferenceIndex | read_sep_arc.py:96-104 | the prompt returns the first accepted answer's value, an index `1 <= k < len(residues)`, and fails only when no answer is accepted |
| Selection.FirstAcceptedIs | read_sep_arc.py:96-104 | the first position whose answer is accepted is the one the prompt stops at |
| Selection.NoReferenceForTooFewResidues | read_tinker_xyz.py:68-77 | with fewer than two residues no answer is ever accepted |
| Selection.ReferenceScriptText | read_sep_arc.py:115 | the reference script is the source's text |
| Selection.ReferenceLineFields | read_sep_arc.py:115 | the reference range line splits back into its six fields |
| Selection.CallArchiveRef | read_sep_arc.py:90-115 | a script exists exactly when there are residues and an answer is accepted, and it is built from the selected residue's bounds |
| Selection.CallTinkerArchive | read_tinker_xyz.py:61-104 | an index is chosen exactly when there are residues; it is the value of the first answer that `int()` accepts and that lies in `1 .. len(residues) - 1`; and the frame count is that of the loop as written |
| ConnectCleanup.CleanLines | new_main.py:168-177 | when the rewrite succeeds, it keeps the number of lines and rewrites each line on its own |
| ConnectCleanup.CleanFileShape | new_main.py:162-186 | the rewrite is abandoned exactly when some line after the first has a bond that is not an integer; otherwise the first line is kept, the length is kept, and every other line is its own cleaned version |
| ConnectCleanup.ShortLinesKept | new_main.py:170 | lines with at most six fields come through untouched |
| ConnectCleanup.CleanedLineFields | new_main.py:169-177 | a cleaned line splits into the original first six fields followed by the non-zero bonds in order |
| ConnectCleanup.IntTokensRead | new_main.py:177 | `[str(num) for num in xs]` parses back to `xs` |
| ConnectCleanup.CleanLineIdempotent | new_main.py:168-177 | cleaning a cleaned line changes nothing |
| ConnectCleanup.CleanFileIdempotent | new_main.py:168-177 | cleaning a cleaned file changes nothing |
| ConnectCleanup.WrittenIsClean | new_main.py:162-186 | for every file, what is on disk after the cleanup is a fixed point of the cleanup: the cleaned lines when it succeeds, the untouched file when it is abandoned |
| ConnectCleanup.CleanupConnect | new_main.py:164-181 | the in-place loop over `lines` writes the cleaned file, or leaves the file as it was when a bond does not parse |
| Energy.DispatchIsFirstMatch | new_main.py:203-211 | a line sets the component of the first label it contains, and none when it contains no label |
| Energy.LastFor | new_main.py:203-211 | the index found is the last line that dispatches to the component |
| Energy.ReportFails | new_main.py:203-211 | a report is lost exactly when some labelled line has too few fields for its value |
| Energy.ReportValues | new_main.py:202-211 | a component is reported exactly when some line carries its label, and its value is the field of the last such line |
| Energy.ParseEnergyReport | new_main.py:201-211 | the loop over the output lines computes that report |
| Energy.AccumulateAppends | new_main.py:214-219 | storing a report appends exactly one value to each reported component's list and changes no other list |
| Energy.AccumulateAllIsHistory | new_main.py:214-219 | after any number of runs, each list is its old contents followed by the values of each run, in run order; nothing is reset |
| Energy.EnergyLog.constructor | new_main.py:268-269 | the lists start empty |
| Energy.EnergyLog.Record | new_main.py:214-219 | the loop over the report's items leaves the lists as `Accumulate` says |
| PairDriver.PairFileNameInjective | new_main.py:153 | different pairs are renamed to different `pair_i_j.arc` files |
| PairDriver.PairNamesDistinct | new_main.py:108-153 | no two pairs of a run share a pair archive name |
| PairDriver.NoPairsBelowThree | new_main.py:108-111 | with fewer than three residues no pair is processed |
| PairDriver.StepsAt | new_main.py:108-192 | step `k` of the run is the step of the `k`-th pair |
| PairDriver.ProcessRow | new_main.py:111-253 | one pass of the inner `for j` loop for row `i`: the steps gain those of the pairs `(i, j)` for every `j > i`, in order, and the lists gain their reports |
| PairDriver.ProcessPair | new_main.py:112-219 | one iteration builds the pair's script, cleans its archive, builds the `analyze` input, and stores the report when `analyze` ran without error |
| PairDriver.ArchiveSepPair | new_main.py:103-266 | the steps are those of the pairs in enumeration order, and the lists end as the old lists followed by every pair's report; no residues means nothing is done |
| Mutations.TargetMeaning | apply_mutations.py:24-36 | a mutation writes somewhere exactly when its middle part is an integer between 1 and the length, and then it writes to that position minus one |
| Mutations.LastWriterIsLast | apply_mutations.py:20-43 | the index found is the last mutation that writes to the position |
| Mutations.ApplyOneEffect | apply_mutations.py:22-43 | one mutation keeps the length; a skipped one changes nothing; an accepted one puts its last character at its position, whether or not the expected residue matched, and changes nothing else |
| Mutations.ApplyAllAt | apply_mutations.py:18-46 | the length is kept, and every position holds the last character of the last mutation that writes to it, or its original residue; an empty list changes nothing |
| Mutations.SkippedIsDropped | apply_mutations.py:27-36 | a mutation with a non-integer or out-of-range position can be removed from the list without changing the result |
| Mutations.ApplyMutations | apply_mutations.py:1-46 | the in-place loop over the character array returns that sequence |

## Left out

- **Running `archive` and `analyze`** (new_main.py:138-147, 193-195; read_sep_arc.py:117-130). These are external processes. What they leave behind is a parameter of the driver:
  - the pair archive;
  - the `analyze` run, which is its stdout as lines and its stderr text, or a missing executable.
- **Newest-file selection, rename and remove.** These are `glob`, `os.path.getctime`, `os.rename` and `os.remove` (new_main.py:150-158, 255-261). The rename is modelled only by the pair archive the driver receives.
- **`max()` of an empty directory listing** (new_main.py:151). It raises an uncaught `ValueError` that the model does not reproduce.
- **Opening, reading and writing files.** A file is modelled as its lines.
- **Which pair archives the cleanup touches.** In the source it rewrites every `pair_*.arc` the glob finds (new_main.py:162); the model cleans the current pair's archive. Once `os.remove` has run, that is the only one left.
- **Floating point.** `float()` of the coordinates and of the energy tokens is not modelled. Both remain the text tokens of the file. A `float()` that fails is not modelled either: it drops the report in new_main.py:252, and it would stop the reader.
- **Mean, standard deviation and the energy table.** This is the `.2f` formatting and appending to energy_analysis.txt (new_main.py:222-247). It is floating point and file output.
- **The order of dictionary keys.** `EnergyLog.Record` visits components in branch order. The resulting lists do not depend on that order.
- **Interactive input.** The path prompts `input()` and `exit()` are left out (read_sep_arc.py:133-161; read_tinker_xyz.py:65-66). The reference-index prompt is modelled with its answers given in advance. "No accepted answer" stands for a prompt that never ends.
- **`print` diagnostics.** The mismatch warning of `apply_mutations` is one of them.
- **The module-level script code** (new_main.py:268-277; read_sep_arc.py:132-163; read_tinker_xyz.py:116-120; apply_mutations.py:49-102). This includes reading mutations from output_file.txt and appending results to mutated_sequences.txt.
- **list_mutformat.py.** It is a CSV-to-text wrapper.
- **`stdout.splitlines()`.** `analyze`'s output is given already split into lines.
- **The Python built-ins `int()` and whitespace.** Several equivalents are simpler than Python's:
  - `PyText.ParseInt` rejects what Python's `int()` also accepts: underscores between digits (`1_0`) and non-ASCII digits;
  - non-ASCII white space is not white space here.
- **`call_archive_ref` with no residues.** The script line names variables that were never bound, so the source raises `NameError`. `Selection.CallArchiveRef` returns `None` for that case and for answers that never satisfy the prompt.
- **`apply_mutations` with an empty mutation string.** It raises `IndexError` at apply_mutations.py:22. `Mutations.ApplyMutations` requires every mutation to be non-empty.
- **`Selection.CallTinkerArchive` and the unused variables.** It does not keep the selected residue's bounds or the parameter path. The source computes both and never uses them.

## Findings

| source | as written | input that shows it | evidently intended | confidence | as-written member | corrected member |
|---|---|---|---|---|---|---|
| read_tinker_xyz.py:90-96 | The frame counter leaves the loop (`break`) at the first line that is not an integer. | Any archive of two or more frames whose first frame has an atom line: the line after the header is an atom line, so the loop stops at once and the count is 0. | Skip non-integer lines (`continue`), so the count is the number of later lines equal to the atom count. On a well-formed archive of `k` frames that is `k - 1`. | medium, not executed | ArcReader.BreakCountsNothing | ArcReader.ContinueCountsRepeats |

The count is only printed in the source, so nothing else in the model depends on it. `Selection.CallTinkerArchive` reports the count as written.
