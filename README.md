# PolynomialSymmetryBreakers scripts, modelled in Dafny

The repository has four small Python scripts around a Gurobi experiment on
bin packing with symmetry-breaking constraints. This project models their
logic:

- **Transcript extraction** (`src/extract_to_csv.py`). A single pass over the
  lines of a Gurobi log fills one nine-field record:
  - the status, with precedence rules;
  - the best objective and gap, with the last line winning and a zero-gap
    gate on the objective;
  - the explored-node statistics;
  - the initial gap, read from the first progress row after the table header.

  The module `GurobiPatterns` writes out the `RE_*` patterns as matchers
  on suffixes of a line. Module `ExtractToCsv` gives the scan twice:
  - as a left fold `Scan` of the one-line transition `Step`;
  - as the source's loop over local variables, `ParseOutFileStream`, which is
    proved to compute `Scan`.
- **`key=value` validation** (`parse_kv_args` in `src/extract_to_csv.py`,
  `_parse_kv_args` in `src/gen_files_with_sbs.py`). Module `KvArgs` holds it:
  - the specification `Parse`;
  - the source's dictionary-filling loop `ParseArgs`, proved to compute it.

  Each script's wrapper fixes that script's required keys.
- **Snippet splice** (`src/gen_files_with_sbs.py` and
  `src/gen_files_with_sb_nonlinear.py`). A copy of the base LP is made for
  each snippet file. The snippet's constraints go into the copy right before
  its `Binary` header:
  - a leading `Subject To` is dropped;
  - blank and comment lines are dropped;
  - the kept lines are followed by one blank line.

  Modules `LpSplice` and `SnippetFiles` hold the shared logic. Modules
  `GenFilesWithSbs` and `GenFilesWithSbNonlinear` hold the two scripts'
  drivers. These differ in the output suffix and in whether an empty
  snippet set is an error.
- **Bin-packing instances** (`src/bin_packing_problem_generator.py`).
  Module `BinPacking` covers:
  - the validated size classes around half the capacity;
  - the sorting of the drawn sizes, an in-place insertion sort on an array;
  - the LP writer, a method whose loops append the written chunks and which
    is proved equal to the layout function `LpChunks`;
  - lemmas that place every row and variable of the file.

Text is `string`. A file is the sequence of its lines, or for the LP writer
the sequence of strings passed to `write`. The random generator is a
parameter `pick`. File and directory access, printing and process exit are
not modelled: the scripts' error exits become `Failure`/`Failed` values.

## Model

| member | source | states |
|---|---|---|
| `ExtractToCsv.ParseOutFileStream` | src/extract_to_csv.py:109-182 | the loop over the lines computes the record of the fold `Scan`; `filename` is the base name of the path |
| `ExtractToCsv.NextStatus` | src/extract_to_csv.py:124-129 | the status becomes "Time limit reached" iff it was already or the line has that phrase; any other change is from "" to "Optimal solution found" on a line with the optimal phrase and without the time-limit phrase, and such a line always makes that change |
| `ExtractToCsv.Observe` | src/extract_to_csv.py:124-145 | the status, best-line and explored-line updates never touch the initial-gap phase or value |
| `ExtractToCsv.IsSeparator` | src/extract_to_csv.py:157-160 | a trimmed line counts as a separator iff every character is `\|`, `-`, `=` or whitespace |
| `ExtractToCsv.IsProgressRow` | src/extract_to_csv.py:154-163 | a line is taken as a progress row iff its trimmed text has a character that is neither whitespace nor `\|`, `-`, `=`, and `RE_PROGRESS_ROW_START` matches at its start |
| `ExtractToCsv.RowGapIsLastPercent` | src/extract_to_csv.py:165-169 | the gap read from a row is "" iff no percent token occurs anywhere in the trimmed row; otherwise it is a percent token that is the rightmost match of the trimmed row: no match starts one character before it and every later match lies inside it, so by `LastTokenUnique` it is the only such token |
| `ExtractToCsv.Capture` | src/extract_to_csv.py:147-170 | the initial-gap phase changes only the two flags and `initial_gap`, and does nothing once the gap is captured |
| `ExtractToCsv.Step` | src/extract_to_csv.py:123-170 | one line moves the status by `NextStatus`; the header and captured flags never go back; a captured gap is kept; a new capture happens only on a progress row after the header and stores that row's gap |
| `ExtractToCsv.Scan` | src/extract_to_csv.py:119-170 | after any lines, a captured gap implies the header was seen, and without a capture `initial_gap` is "" |
| `ExtractToCsv.StatusDecidedByPhrases` | src/extract_to_csv.py:125-129 | final status is "Time limit reached" iff some line has that phrase; "Optimal solution found" iff no line has the time-limit phrase and some line has the optimal phrase; "" iff neither phrase occurs |
| `ExtractToCsv.StatusStep` | src/extract_to_csv.py:125-129 | one line keeps the status in step with which phrases have been seen so far |
| `ExtractToCsv.TimeLimitIsFinal` | src/extract_to_csv.py:125-127 | once the status is "Time limit reached", no further lines change it |
| `ExtractToCsv.LastBestLineWins` | src/extract_to_csv.py:132-137 | after the scan, `gap` is the last best-objective line's gap token plus `%`, and `objective` is its objective token when that gap token is exactly "0.0000", else "" |
| `ExtractToCsv.NoBestLineLeavesGapEmpty` | src/extract_to_csv.py:111-112 | without any best-objective line, `gap` and `objective` stay "" |
| `ExtractToCsv.LastExploredLineWins` | src/extract_to_csv.py:140-145 | `nodes`, `simplex_iters`, `runtime_seconds` and `work_units` all come from the last explored line |
| `ExtractToCsv.NoExploredLineLeavesStatsEmpty` | src/extract_to_csv.py:113-116 | without any explored line, the four fields are all "" |
| `ExtractToCsv.NoHeaderNoInitialGap` | src/extract_to_csv.py:148-152 | until a table-header line occurs, the capture has not started and `initial_gap` is "" |
| `ExtractToCsv.WaitsForFirstRow` | src/extract_to_csv.py:149-163 | the header line itself, and every later line that is blank, a separator or not a progress row, leaves the capture waiting with `initial_gap` "" |
| `ExtractToCsv.StepCapturesRow` | src/extract_to_csv.py:162-170 | a progress row read after the header, before any capture, captures that row's gap |
| `ExtractToCsv.CapturesAtFirstRow` | src/extract_to_csv.py:162-170 | reading through the first progress row after the first header captures that row's last percent token, or "" |
| `ExtractToCsv.CapturedGapIsFinal` | src/extract_to_csv.py:148 | once captured, `initial_gap` and the phase stay the same for any further lines |
| `ExtractToCsv.InitialGapIsFirstRowGap` | src/extract_to_csv.py:148-170 | the final `initial_gap` is the last percent token of the first progress row after the first header line |
| `ExtractToCsv.ParseKvArgs` | src/extract_to_csv.py:37-69 | validates `argv[1:]` against `in_path`, `out_csv`; success yields exactly those two keys with non-empty values |
| `GurobiPatterns.FindPhrase` | src/extract_to_csv.py:73-74 | the search returns the leftmost position where the phrase occurs between ASCII word boundaries, and None iff it occurs nowhere |
| `GurobiPatterns.HasTimeLimit` | src/extract_to_csv.py:73 | `RE_TIME_LIMIT.search` succeeds iff "Time limit reached" occurs at some position between word boundaries |
| `GurobiPatterns.HasOptimal` | src/extract_to_csv.py:74 | `RE_OPTIMAL.search` succeeds iff "Optimal solution found" occurs at some position between ASCII word boundaries |
| `GurobiPatterns.RunSound` | src/extract_to_csv.py:76-92 | what the greedy matcher finds is a match of the pattern in the regex sense, with those captures |
| `GurobiPatterns.RunComplete` | src/extract_to_csv.py:76-92 | on a pattern whose greedy items never need to give back characters, every regex match is found by the matcher, with the same captures |
| `GurobiPatterns.RunAll` | src/extract_to_csv.py:76-92 | both directions at once: the matcher's result is a match, and every match has the matcher's captures |
| `GurobiPatterns.RunIff` | src/extract_to_csv.py:76-92 | the matcher succeeds iff the pattern matches |
| `GurobiPatterns.FirstMatch` | src/extract_to_csv.py:132 | `search` returns the match at the leftmost position where the anchored pattern matches, and None when it matches nowhere |
| `GurobiPatterns.BestItemsWellFormed` | src/extract_to_csv.py:76-79 | `RE_BEST_LINE` meets the matcher's condition and its three groups capture a number, a number and a decimal |
| `GurobiPatterns.BestAt` | src/extract_to_csv.py:76-79 | a result is a match of `RE_BEST_LINE` whose groups are a number, a number and a decimal; every match of the pattern gives exactly that result |
| `GurobiPatterns.BestSearch` | src/extract_to_csv.py:76-79 | `RE_BEST_LINE.search` is None iff the anchored pattern matches at no position; otherwise it is the match at the leftmost such position |
| `GurobiPatterns.ExploredItemsWellFormed` | src/extract_to_csv.py:81-84 | `RE_EXPLORED` meets the matcher's condition and its four groups capture digits, digits, a decimal and a decimal |
| `GurobiPatterns.ExploredAt` | src/extract_to_csv.py:81-84 | a result is a match of `RE_EXPLORED` whose groups are non-empty digit runs and decimals; every match of the pattern gives exactly that result |
| `GurobiPatterns.ExploredSearch` | src/extract_to_csv.py:81-84 | `RE_EXPLORED.search` is None iff the anchored pattern matches at no position; otherwise it is the match at the leftmost such position |
| `GurobiPatterns.ScanForSpec` | src/extract_to_csv.py:87 | scanning for a pattern after `.*` succeeds iff some newline-free gap is followed by a match |
| `GurobiPatterns.ScanForThenSpec` | src/extract_to_csv.py:87 | scanning for `.*A.*B` succeeds iff some gap, a match of A, another gap and a match of B follow each other |
| `GurobiPatterns.HeadThenGapsSpec` | src/extract_to_csv.py:86-89 | a run of the first part followed by `.*` second `.*` third succeeds iff the three parts match in the regex sense |
| `GurobiPatterns.HeaderAtSpec` | src/extract_to_csv.py:86-89 | the header matcher succeeds at the start of a text iff `RE_TABLE_HEADER` matches there, with ASCII case folding |
| `GurobiPatterns.HasTableHeader` | src/extract_to_csv.py:86-89 | `RE_TABLE_HEADER.search` succeeds iff the pattern matches at some position of the line |
| `GurobiPatterns.ProgressRowStart` | src/extract_to_csv.py:91 | `RE_PROGRESS_ROW_START.match` succeeds iff the text starts with a match of `H\s+\d+\s+\d+\s+` or of `\d+\s+\d+\s+`, with `\d` the ASCII digits |
| `GurobiPatterns.PercentAt` | src/extract_to_csv.py:92 | an anchored `RE_PERCENT` match is a prefix of the text made of a decimal and `%`; whenever such a prefix exists, the matcher returns it |
| `GurobiPatterns.Hits` | src/extract_to_csv.py:165 | each reported match is a real match at its position, and the matches come left to right without overlapping |
| `GurobiPatterns.HitsCover` | src/extract_to_csv.py:165 | every position where the pattern matches lies inside one of the reported matches |
| `GurobiPatterns.NoHitsIffNoMatch` | src/extract_to_csv.py:165 | `findall` reports nothing iff the pattern matches at no position |
| `GurobiPatterns.FindAllPercents` | src/extract_to_csv.py:165 | `RE_PERCENT.findall` returns the tokens of the reported matches in order, each a decimal followed by `%`, and nothing iff no percent token occurs |
| `GurobiPatterns.LastHitIsLastMatch` | src/extract_to_csv.py:165-167 | for a pattern whose matches end in a character they never start with, the last reported match is the rightmost one: no match starts one character before it, and every match after its start lies inside it |
| `GurobiPatterns.LastPercentToken` | src/extract_to_csv.py:165-167 | the last token `findall` returns is the rightmost percent token of the text in the sense of `LastHitIsLastMatch` |
| `GurobiPatterns.LastTokenUnique` | src/extract_to_csv.py:165-167 | a text has at most one rightmost percent token, so `[-1]` of `findall` is determined by the text alone |
| `KvArgs.ParseArgs` | src/extract_to_csv.py:37-69 | the token loop plus the two list comprehensions computes `Parse` |
| `KvArgs.CollectStep` | src/extract_to_csv.py:46-56 | one more token is one more step of the loop on the pairs built so far |
| `KvArgs.SplitToken` | src/extract_to_csv.py:47-51 | a token splits iff it contains `=`; the key is the stripped text before the first `=` and the value the cleaned text after it |
| `KvArgs.CleanValue` | src/extract_to_csv.py:51 | the cleaned value neither starts nor ends with `'` |
| `KvArgs.CleanValueIsSlice` | src/extract_to_csv.py:51 | the cleaned value is a slice of the raw value, and every character cut off either side is whitespace or a quote |
| `KvArgs.Collect` | src/extract_to_csv.py:46-56 | the token loop fails only with a token error: no `=`, empty key or duplicate key |
| `KvArgs.MissingKeys` | src/extract_to_csv.py:58 | a key is reported missing iff it is required and absent or empty |
| `KvArgs.MissingKeysAppend` | src/extract_to_csv.py:58 | the missing keys come in the order of the required keys: the list for `a + b` is the list for `a` followed by the list for `b` |
| `KvArgs.UnknownKeys` | src/extract_to_csv.py:62 | a key is reported unknown iff it was given and is not required |
| `KvArgs.UnknownKeysAppend` | src/extract_to_csv.py:62 | the unknown keys come in the order they were given: the list for `a + b` is the list for `a` followed by the list for `b` |
| `KvArgs.CollectStopsAtFirstError` | src/extract_to_csv.py:46-56 | the first bad token decides the outcome, whatever follows it |
| `KvArgs.CollectedPairs` | src/extract_to_csv.py:46-56 | a successful loop has one distinct non-empty key per token, in token order, each mapped to its token's cleaned value, and nothing else |
| `KvArgs.ParsedHasExactlyRequiredKeys` | src/extract_to_csv.py:58-69 | a successful parse holds exactly the required keys, each non-empty and taken from some token |
| `KvArgs.ErrorPrecedence` | src/extract_to_csv.py:41-68 | usage iff the arguments are a lone `-h`/`--help`; token errors come before missing keys, which come before unknown keys; each reported list is non-empty and correctly classified |
| `GenFilesWithSbs.ParseKvArgs` | src/gen_files_with_sbs.py:34-77 | validates `argv[1:]` against `base_lp_file`, `sbs_dir`, `gen_lp_files`; success yields exactly those keys with non-empty values |
| `GenFilesWithSbs.Generate` | src/gen_files_with_sbs.py:96-121 | no `Binary` header is an error; otherwise an empty snippet list is an error; otherwise one spliced output per snippet in sorted order, named `stem.lp` |
| `GenFilesWithSbNonlinear.Generate` | src/gen_files_with_sb_nonlinear.py:35-56 | no `Binary` header is an error; otherwise one spliced output per snippet in sorted order, named `stem_nonlin.lp`, and none for an empty list |
| `LpSplice.FindFrom` | src/gen_files_with_sbs.py:96-97 | the search returns the first line at or after the start that the header test accepts, and None iff there is none |
| `LpSplice.FindBinary` | src/gen_files_with_sbs.py:96-99 | the insert index is the first line whose stripped, lower-cased text is `binary`; None iff no line is |
| `LpSplice.Filter` | src/gen_files_with_sbs.py:111 | a line is kept iff it is non-blank and does not start with `\` after left-trimming |
| `LpSplice.FilterConcat` | src/gen_files_with_sbs.py:111 | filtering keeps the original order of the kept lines |
| `LpSplice.OnlyLeadingHeaderDropped` | src/gen_files_with_sbs.py:108-111 | only a first line reading `subject to` is dropped; a later one goes through the filter |
| `LpSplice.Block` | src/gen_files_with_sbs.py:113-114 | one line per constraint, its trailing newlines replaced by one `\n`, then a single blank line |
| `LpSplice.BlockOfSplitLines` | src/gen_files_with_sbs.py:106-114 | for lines from `splitlines()`, each block line is the constraint plus `\n` |
| `LpSplice.Inserted` | src/gen_files_with_sbs.py:116-117 | the base prefix up to the index, then the block, then the base suffix, unchanged |
| `LpSplice.InsertedAround` | src/gen_files_with_sbs.py:116-117 | after the insertion, the block's last line is followed by the base line at the index, and cutting the block out gives the base back |
| `LpSplice.Merge` | src/gen_files_with_sbs.py:116-117 | the slice insertion on the copied list yields `Inserted` |
| `LpSplice.SpliceLayout` | src/gen_files_with_sbs.py:96-117 | `Splice` succeeds iff the base has a `Binary` line; the block of constraints and a blank line sit right before the first one; removing the block gives back the base |
| `SnippetFiles.SortByName` | src/gen_files_with_sbs.py:101 | sorting keeps every snippet exactly once |
| `SnippetFiles.InsertSorted` | src/gen_files_with_sbs.py:101 | inserting into a sorted list keeps it sorted |
| `SnippetFiles.SortByNameSorts` | src/gen_files_with_sbs.py:101 | the snippets are processed in ascending order of their names, as a permutation of the listing |
| `SnippetFiles.Output` | src/gen_files_with_sbs.py:113-119 | the output lines are the splice of the snippet into the base |
| `SnippetFiles.Outputs` | src/gen_files_with_sbs.py:105 | there is one output per snippet |
| `SnippetFiles.OutputsInOrder` | src/gen_files_with_sbs.py:105-120 | the i-th output is named after the i-th snippet's stem plus the suffix and holds that snippet's splice |
| `SnippetFiles.SpliceOne` | src/gen_files_with_sbs.py:106-119 | one loop body yields the output for its snippet |
| `SnippetFiles.SpliceAll` | src/gen_files_with_sbs.py:105-121 | the loop yields the outputs of all snippets, in order |
| `Text.StripIsSlice` | src/extract_to_csv.py:154 | `s.strip(cs)` is a slice of `s`, and every character cut off either side belongs to `cs` |
| `Text.StripEmptyIff` | src/extract_to_csv.py:154-156 | `s.strip(cs)` is empty iff every character of `s` belongs to `cs` |
| `Text.RemoveChars` | src/extract_to_csv.py:158 | the chained `replace` calls keep exactly the characters not removed: a one-character text is dropped iff its character is removed, and is kept as it is otherwise |
| `Text.RemoveCharsConcat` | src/extract_to_csv.py:158 | removal works character by character in order: removing from `a + b` gives the result for `a` followed by the result for `b` |
| `Text.BaseName` | src/extract_to_csv.py:173 | the record's file name holds no `/` and is the part of the path after its last `/`, once trailing slashes are dropped |
| `Text.Stem` | src/gen_files_with_sbs.py:119 | the stem is the name cut before its last `.` exactly when that dot is neither first nor last, and the whole name otherwise |
| `BinPacking.Range` | src/bin_packing_problem_generator.py:66 | `range(lo, hi)` has `max(0, hi - lo)` consecutive elements starting at `lo` |
| `BinPacking.ClassValues` | src/bin_packing_problem_generator.py:62-68 | before filtering, the values are exactly `classes` consecutive integers containing `B // 2`, for odd and even `classes` |
| `BinPacking.Filtered` | src/bin_packing_problem_generator.py:70 | a value survives iff it lies in `[1, B-1]` |
| `BinPacking.HalfSurvives` | src/bin_packing_problem_generator.py:70-71 | with `B >= 2`, `B // 2` survives the filter, so the choice always has a value to pick |
| `BinPacking.Instance` | src/bin_packing_problem_generator.py:53-71 | errors for `n <= 0`, then `B <= 1`, then `classes <= 0`; otherwise `n` sizes, each a filtered class value in `[1, B-1]` |
| `BinPacking.SortInPlace` | src/bin_packing_problem_generator.py:79 | `sizes.sort()` leaves the array ascending and a permutation of its old contents |
| `BinPacking.SinkLast` | src/bin_packing_problem_generator.py:79 | one insertion step extends the sorted prefix by one element, keeping the multiset and leaving the elements after it untouched |
| `BinPacking.LpChunks` | src/bin_packing_problem_generator.py:28-50 | the file is written in `7 + 3n + n*n` chunks |
| `BinPacking.WriteBinPackingLp` | src/bin_packing_problem_generator.py:18-50 | the nested write loops emit exactly `LpChunks` |
| `BinPacking.LpFixedLines` | src/bin_packing_problem_generator.py:28-50 | the file opens with the two comment lines, then `Minimize`, the objective, `Subject To`, then `Binary` after `2n` rows, and `End` last |
| `BinPacking.LpAssignRowAt` | src/bin_packing_problem_generator.py:37-38 | chunk `5 + i` is item i's `assign_i` row over `x_i_0 .. x_i_{n-1}` equal to 1 |
| `BinPacking.LpCapRowAt` | src/bin_packing_problem_generator.py:40-42 | chunk `5 + n + j` is bin j's `cap_j` row |
| `BinPacking.LpBinVarAt` | src/bin_packing_problem_generator.py:44-46 | chunk `6 + 2n + j` in the `Binary` section declares `y_j` |
| `BinPacking.LpItemVarAt` | src/bin_packing_problem_generator.py:47-49 | chunk `6 + 3n + Cell(n, i, j)` declares `x_i_j` |
| `BinPacking.CellIsRowMajor` | src/bin_packing_problem_generator.py:47-49 | the item variables are in row-major order: `Cell(n, i, j) == i * n + j` |
| `BinPacking.XRowsRowMajor` | src/bin_packing_problem_generator.py:47-49 | the nested loop places item i, bin j at offset `Area(i, n) + j` of its output, inside the area it writes; `CellIsRowMajor` shows that offset is `i * n + j` |
| `BinPacking.CapTermsNonEmpty` | src/bin_packing_problem_generator.py:41 | with at least one item the left-hand side is never empty, so the `or "0"` fallback never applies |
| `BinPacking.FileName` | src/bin_packing_problem_generator.py:81 | the file name ends with `_seed` and the seed actually used, `seed + n`, then `.lp` |
| `BinPacking.FileNameDeterminesParameters` | src/bin_packing_problem_generator.py:81 | two equal file names have equal `n`, `B`, `classes` and seed used, so the name records all four |
| `Text.IntToStringInjective` | src/bin_packing_problem_generator.py:81 | different integers are written as different decimal strings |
| `BinPacking.GenerateInstance` | src/bin_packing_problem_generator.py:74-85 | instance errors propagate; otherwise the sizes are the drawn ones sorted ascending (a permutation), the path is `bin_pack_prob/` followed by `FileName`, which records n, B, classes and seed+n and the LP is `LpChunks` of the sorted sizes |
| `Text.NatToStringRoundTrip` | src/bin_packing_problem_generator.py:22-26 | the decimal digits in variable names read back to the index |

## Left out

- File and directory I/O is not modelled:
  - `iter_out_files`, the CSV writer and `main` in `src/extract_to_csv.py`;
  - `read_text`, `write_text`, `mkdir`, `os.makedirs` and `open` in the generators;
  - the base-file and directory existence checks in `src/gen_files_with_sbs.py:89-92`.

  Files are given as their lines. Outputs are returned as lists of lines, not joined into text.
- Decoding is not modelled: the `errors="replace"` decoding and universal-newline translation happen before the lines the scanner receives.
- No order is claimed for `iter_out_files`. `os.scandir` order is unspecified.
- Command-line front ends are not modelled:
  - `argparse` in `src/bin_packing_problem_generator.py:88-125` and `src/gen_files_with_sb_nonlinear.py:20-25`;
  - the `--pattern` glob. The listing passed to `GenFilesWithSbNonlinear.Generate` is the set of files the pattern selected.
- The usage and error message texts, `print` and `sys.exit` are not modelled. Usage becomes `ShowUsage`; each error exit becomes a constructor of `ArgError` or `GenError`.
- The random generator is a parameter. `random.Random(seed + n)` and `rng.choice` are modelled by `pick`: draw `t` takes index `pick(t) % |values|`, so any member of `values` can be drawn and nothing else.
- Directory listings arrive as `Snippet` values (name and lines). `sorted` over paths that share one directory orders them as their file names do.
- GurobiPatterns.FindPhrase: its word boundaries use ASCII word characters (`IsWordChar`). Python's `\b` in a str pattern also counts non-ASCII letters and digits as word characters, so `éOptimal solution found` has no match in the source but one here.
- GurobiPatterns.HasOptimal: the same ASCII-only `\b` as `FindPhrase`.
- GurobiPatterns.HasTimeLimit: `\b` uses ASCII word characters, while Python's `\w` in a str pattern also covers non-ASCII letters and digits.
- GurobiPatterns.BestAt: `\d` is ASCII `0-9` and `IGNORECASE` folds ASCII letters only. Python also accepts other Unicode decimal digits and folds a few non-ASCII letters, such as the Kelvin sign for `k`.
- GurobiPatterns.ExploredAt: the same ASCII-only `\d` and case folding as `BestAt`.
- GurobiPatterns.HasTableHeader: case folding is ASCII-only, as in `BestAt`.
- GurobiPatterns.HeaderAtSpec: `IGNORECASE` folds ASCII letters only. Python also folds `ſ` (long s) to `s` and `ı` (dotless i) to `i`, so a header line with `Tıme` in place of `Time` matches in the source and not here.
- GurobiPatterns.ProgressRowStart: `\d` is ASCII `0-9`. Python's `\d` in a str pattern accepts every Unicode decimal digit, such as Arabic-Indic `١`. `ExtractToCsv.IsProgressRow` and the rows that use it inherit this. `\s` is Unicode-wide here as in Python.
- Text.LowerAscii: lower-cases ASCII letters only. `str.lower()` is Unicode-wide, but the only non-ASCII character that lowers to an ASCII letter is the Kelvin sign (to `k`). Neither `binary` nor `subject to` contains a `k`, so `IsBinaryHeader` and `IsSubjectToHeader` agree with the source.
- Text.BaseName: `Path(p).name` with trailing slashes dropped. pathlib also collapses a trailing `.` component, which this function does not.
- GurobiPatterns.BestSearch: stated through the anchored matcher `BestAt`, whose own contract ties it to the regex meaning; the unanchored search is not restated as a regex property directly.
- GurobiPatterns.ExploredSearch: stated through `ExploredAt`, in the same way as `BestSearch`.
- Two snippet files with the same stem but different extensions (`a.txt` and `a.lp`) give the same output name. The source then writes the second over the first. `SnippetFiles.Outputs` lists both outputs and does not model the overwrite.
- LpSplice.Merge: the slice assignment `merged[insert_at:insert_at] = block` on a copied list is modelled as reassigning a sequence value. The copy and the in-place update of a Python list are not modelled separately.
- LpSplice.Splice: its contract is `SpliceLayout`, kept as a separate lemma so that callers of `Splice` do not carry it.
- Numeric interpretation of extracted tokens is not modelled. The source keeps them as text too, and the zero-gap test compares text with `0.0000`.
