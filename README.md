# Barcode demultiplexing core, modelled in Dafny

The pipeline splits paired-end sequencing reads by a well barcode carried in
read 1. A layout string such as `C8L16C8L16C8L1U12T18` says where the barcode
(`C`), linkers (`L`), UMI (`U`) and poly-T (`T`) sit in the read.

- `parse_pattern` decodes the layout into half-open position ranges per letter.
- `findall_mismatch` opens `min(n, len)` positions of a barcode at a time to
  every base and collects the strings produced: those within `n`
  substitutions of the barcode, each with at least `min(n, len)` base
  positions.
- `get_mismatch_dict` turns a list of whitelist barcodes into an error-tolerant
  index: variant → canonical barcode, where a later barcode wins.
- `splitInf_to_dict` reads the assignment table (raw sample, well
  specification such as `1-9,10,11`, subsample) and expands it into each
  subsample's wells.
- `get_all_bc` builds three indexes per subsample:
  - `map`, from the canonical barcode to the well name;
  - `sample`, the merged mismatch index of the subsample's wells;
  - optionally `well`, one mismatch index per well.
- The `Split_Fastq` constructor checks its arguments.
- The loop of `run` reads the two FASTQ streams pair by pair, cuts the barcode
  out of read 1, and appends the pair to the output files:
  - of every subsample whose `sample` index holds it (there is no `break`);
  - with `--split_to_well`, also of the well `map[sample[barcode]]`.

The model has seven modules, one per file:

- `Results` (results.dfy): `Result` and `Option`.
- `Text` (text.dfy): the parts of Python's `str.strip`, `str.split`,
  `str.join`, `str(n)` and `int(s)` the core relies on, with their round trips.
- `PatternDecoder` (pattern_decoder.dfy): `parse_pattern`, with `re.findall`
  modelled as a scanning tokenizer over the raw string.
- `MismatchIndex` (mismatch_index.dfy): `findall_mismatch` and
  `get_mismatch_dict`. Each is a method with its loops, proved equal to a
  specification function. That function is then proved equal to a closed form:
  same length, at most `min(n, len)` differences, every changed position
  holding a base, and at least `min(n, len)` positions holding a base.
- `WellRouting` (well_routing.dfy): `splitInf_to_dict`, its table checks and
  well-specification expansion.
- `WellBarcodes` (well_barcodes.dfy): `read_one_col` on the whitelist's lines,
  and `get_all_bc`.
- `Demultiplex` (demultiplex.dfy):
  - the constructor's checks;
  - the output files as a class, `Outputs`, whose two maps `r1` and `r2` stand
    for the handles `fh_fq1` and `fh_fq2` and hold the text written so far;
  - the routing loop as methods of that class;
  - `SplitFastq`, which composes everything `run` does.

In the source, every `sys.exit` stops the process; in the model it is an error
value. So are the `KeyError`, `ValueError`, `TypeError` and `AttributeError`
that the code lets escape. The file system, the FASTQ readers and the protocol
JSON become parameters:

- the assignment table as a `Table`;
- the whitelist as its lines;
- the read files as a map from path to records;
- the protocol dictionary as a map from protocol name to `Protocol`.

`run` writes `@{entry.name}`, and pysam's `name` excludes any comment that
follows the read name on the header line, so a written record drops the header
comment. A record in the model is name, sequence and quality, and
`FormatRecord` writes exactly those.

## Model

| member | source | states |
|---|---|---|
| PatternDecoder.ParsePattern | bin/parse_protocol.py:7-29 | fails, with `InvalidPattern(pattern)` and no partial result, exactly when no token is found or a token's letter is not allowed; otherwise its keys are exactly the letters found and each letter maps to the spans of its tokens in order |
| PatternDecoder.FindTokens | bin/parse_protocol.py:16-17 | every token found has a capital letter |
| PatternDecoder.FindTokensCount | bin/parse_protocol.py:16-17 | a layout of length `L` gives at most `L / 2` tokens, since each takes a letter and at least one digit |
| PatternDecoder.FindTokensRender | bin/parse_protocol.py:16-17 | the tokenizer reads back every layout written as letter plus decimal length, so no token is lost or split |
| PatternDecoder.FindTokensCons | bin/parse_protocol.py:16-17 | a letter followed by a maximal run of digits is one token whose length is the run's value; scanning goes on after the run |
| PatternDecoder.LayoutStep | bin/parse_protocol.py:24-28 | one more token appends its span to its letter's list, starting the list when the letter is new, and leaves other letters alone |
| PatternDecoder.SpansContiguous | bin/parse_protocol.py:20-28 | the first span starts at 0, each span starts where the previous one stops, and each span is as long as its token's number |
| PatternDecoder.SpansDisjoint | bin/parse_protocol.py:20-28 | a later token's span starts at or after the end of every earlier one |
| PatternDecoder.LayoutCovers | bin/parse_protocol.py:20-28 | every position before the end of the layout lies in exactly one token's span |
| PatternDecoder.SpansOfInOrder | bin/parse_protocol.py:24-27 | a repeated letter gets one span per token, appended in the order met and never merged |
| PatternDecoder.SpansOfSound | bin/parse_protocol.py:24-27 | every span listed for a letter is the span of a token of that letter |
| PatternDecoder.SpansOfSorted | bin/parse_protocol.py:24-27 | the spans of one letter are increasing and pairwise disjoint |
| PatternDecoder.SpansOfLength | bin/parse_protocol.py:24-27 | a letter's list has as many spans as the letter has tokens |
| PatternDecoder.ParsePatternExample | bin/parse_protocol.py:9-13 | `C8L16C8L16C8L1U12T18` is valid, has letters C, L, U and T, and gives C = [0,8),[24,32),[48,56), L = [8,24),[32,48),[56,57), U = [57,69) and T = [69,87) |
| MismatchIndex.FindAllMismatch | bin/parse_protocol.py:52-75 | the set built by the nested loops is exactly the strings of the barcode's length that differ from it in at most `min(n, len)` positions, each differing position holding a base, and having at least `min(n, len)` base positions |
| MismatchIndex.OpenPositions | bin/parse_protocol.py:70-72 | `seq_locs` after opening the chosen positions: all bases at a chosen position, the barcode's own character elsewhere |
| MismatchIndex.Budget | bin/parse_protocol.py:67-68 | the number of positions opened is `n` capped at the barcode's length |
| MismatchIndex.CombinationsMember | bin/parse_protocol.py:69 | `combinations(range(len), m)` holds exactly the strictly increasing lists of `m` positions below `len` |
| MismatchIndex.ProductMember | bin/parse_protocol.py:73-74 | the joined product holds exactly the strings with one character from each choice, position by position |
| MismatchIndex.ProductChoices | bin/parse_protocol.py:70-74 | the product of `seq_locs` holds exactly the strings that agree with the barcode off the opened positions and hold a base on them |
| MismatchIndex.MismatchSetClosedForm | bin/parse_protocol.py:57-58 | membership in the result is equivalent to the closed form `IsMismatch` |
| MismatchIndex.MismatchSetIsMismatch | bin/parse_protocol.py:57-58 | the same equivalence, for every string at once |
| MismatchIndex.MismatchSetBounds | bin/parse_protocol.py:57-58 | every variant has the barcode's length, is at Hamming distance at most `n` and at most `len`, and holds a base wherever it differs |
| MismatchIndex.MismatchSetHasSelf | bin/parse_protocol.py:69-74 | a barcode written only in bases is its own variant |
| MismatchIndex.OneSubstitution | bin/parse_protocol.py:69-74 | in a barcode made only of bases, replacing one base by another base gives a variant when `n >= 1` |
| MismatchIndex.TwoSubstitutions | bin/parse_protocol.py:57-58 | a string that differs at two positions is not a variant when `n < 2` |
| MismatchIndex.FindAllMismatchExample | bin/parse_protocol.py:60-63 | the one-mismatch variants of `ACG` with bases `ACGTN` are exactly the 13 strings of the doctest |
| MismatchIndex.GetMismatchDict | bin/parse_protocol.py:88-95 | the loop builds the specification dictionary: each entry's variants written in list order |
| MismatchIndex.AddEntry | bin/parse_protocol.py:89-94 | one turn of the outer loop: a blank entry adds nothing, any other one maps each of its variants to its stripped text |
| MismatchIndex.AddVariants | bin/parse_protocol.py:93-94 | the inner loop maps every variant to the entry, over what was there before |
| MismatchIndex.EntryIndexOwns | bin/parse_protocol.py:90-94 | one entry writes exactly the variants of its stripped, non-blank text, each mapped to that text |
| MismatchIndex.MismatchDictKeys | bin/parse_protocol.py:88-95 | the keys are exactly the variants some non-blank entry owns |
| MismatchIndex.MismatchDictValues | bin/parse_protocol.py:88-95 | every value is a stripped, non-empty entry of the list, and its key is one of that value's variants |
| MismatchIndex.MismatchDictLastWins | bin/parse_protocol.py:93-94 | a variant maps to the stripped text of the last entry that owns it |
| MismatchIndex.MismatchDictAppend | bin/parse_protocol.py:88-95 | the index of a concatenated list is the first list's index updated with the second's |
| MismatchIndex.OverlayLastWins | bin/parse_protocol.py:93-94 | repeated `dict` writes: a key is present when some write has it, and holds the value of its last write |
| MismatchIndex.GetMismatchDictExample | bin/parse_protocol.py:83-86 | for `["AACGTGAT", "AAACATCG"]`, `AACGTGAA` maps to `AACGTGAT` |
| Text.Strip | bin/utils.py:34 | `strip()` leaves the infix that remains after removing only white space (Python's `isspace` set, Unicode spaces included) from both ends, and that infix neither starts nor ends with white space |
| Text.Split | bin/split_fastq.py:39 | `split(sep)` gives at least one piece, and no piece holds the separator |
| Text.JoinEnds | bin/split_fastq.py:27 | `'_'.join(columns)` starts with the first column name and ends with the last |
| Text.JoinSeparators | bin/split_fastq.py:27 | when no part holds the separator, a join holds one separator fewer than there are parts |
| Text.JoinSplit | bin/split_fastq.py:39 | joining the pieces of `split(sep)` gives back the string |
| Text.SplitJoin | bin/split_fastq.py:39 | splitting a join gives back the parts when no part holds the separator |
| Text.SplitCount | bin/split_fastq.py:42-43 | a split has one more piece than the string has separators |
| Text.StripIdempotent | bin/parse_protocol.py:90 | stripping an already stripped whitelist line changes nothing |
| Text.ParseIntDecimal | bin/split_fastq.py:46-49 | `int(str(n)) == n` |
| Text.ParseIntDigits | bin/split_fastq.py:46-49 | `int` of a run of digits is the number they denote |
| Text.DecimalInjective | bin/split_fastq.py:67 | distinct numbers have distinct numerals |
| WellRouting.SplitInfToDict | bin/split_fastq.py:19-56 | the method with its loops computes `SplitInf`: the checks in the code's order, the row loop, and the duplicate check |
| WellRouting.SplitInfOk | bin/split_fastq.py:26-56 | on success the header joins to `raw_sample_well_sub_sample`, and the result has one entry per row of the sample, in table order, holding the row's subsample and its expanded wells; subsample names are distinct, and no well is repeated within an entry or across entries |
| WellRouting.SplitInfStandard | bin/split_fastq.py:29-33 | with the standard header, the result is `UnknownSample` exactly when the sample has no row, and `DuplicateSubsample` exactly when its rows repeat a subsample; past those checks it is the row expansion, rejected when a well repeats |
| WellRouting.SplitInfWrongHeader | bin/split_fastq.py:27-28 | the result is `WrongHeader` exactly when the columns joined with `_` are not the expected header |
| WellRouting.ColumnIndex | bin/split_fastq.py:29-33 | a column lookup fails exactly when the name is absent, and otherwise finds its first occurrence |
| WellRouting.SampleRows | bin/split_fastq.py:31 | the selected rows are rows of the table whose `raw_sample` cell is the sample, and none is selected exactly when no row has it |
| WellRouting.SampleRowsIndices | bin/split_fastq.py:31 | the selected rows are exactly the table's rows whose `raw_sample` cell is the sample, at increasing positions, so each once and in table order |
| WellRouting.ValueSetSize | bin/split_fastq.py:32 | the number of distinct values equals the number of rows exactly when no value repeats |
| WellRouting.ExpandAll | bin/split_fastq.py:35-50 | the row loop computes the expansion of the rows, stopping at the first failing row |
| WellRouting.ExpandRowsOk | bin/split_fastq.py:36-50 | the row loop succeeds exactly when every row's `well` cell expands, and then gives one entry per row in row order |
| WellRouting.ExpandRowsFirstError | bin/split_fastq.py:36-50 | a failing row loop reports the error of the first rejected row, and that error is a well-token error |
| WellRouting.ExpandWells | bin/split_fastq.py:39-49 | the token loop of one cell computes `ExpandSpec`: the comma-separated tokens expanded in order, the first failing token deciding the error |
| WellRouting.ExpandWellToken | bin/split_fastq.py:41-49 | one token's body computes `ExpandToken` |
| WellRouting.AppendRange | bin/split_fastq.py:46-47 | the range loop builds `a, a+1, ..., b` |
| WellRouting.WellRange | bin/split_fastq.py:46 | `range(a, b + 1)` has `b - a + 1` increasing elements starting at `a`, and none when `a > b` |
| WellRouting.ExpandRangeToken | bin/split_fastq.py:41-47 | the token `a-b` expands to the wells `a..b` inclusive |
| WellRouting.ExpandRangeAt | bin/split_fastq.py:41-47 | a token with one dash and numbers on both sides expands to the range between them |
| WellRouting.ExpandNumeral | bin/split_fastq.py:48-49 | a single numeral token expands to its own well |
| WellRouting.ExpandTooManyDashes | bin/split_fastq.py:42-44 | a token with two dashes or more is rejected with `TooManyDashes` |
| WellRouting.ExpandSpecJoin | bin/split_fastq.py:39-49 | a comma-joined list of tokens expands token by token |
| WellRouting.CollectOk | bin/split_fastq.py:40-49 | the tokens of a cell expand exactly when every token does |
| WellRouting.ExpandErrKind | bin/split_fastq.py:41-49 | a rejected cell reports only `TooManyDashes` or `InvalidNumber` |
| WellRouting.ExpandSpecExampleA | bin/split_fastq.py:21-24 | `1-9,10,11` expands to the wells 1 to 11 in order |
| WellRouting.ExpandSpecExampleB | bin/split_fastq.py:21-24 | `56,64,85,21,12` keeps its wells in the order written |
| WellRouting.ExpandSpecExampleC | bin/split_fastq.py:42-44 | `1-2-3` is rejected with `TooManyDashes` |
| WellRouting.CheckDuplicates | bin/split_fastq.py:52-55 | the `Counter` check passes exactly when the well list has no repeat |
| WellRouting.NoDupCounts | bin/split_fastq.py:53-55 | no repeat is equivalent to every count being at most one |
| WellRouting.AssignmentOk | bin/split_fastq.py:35-55 | the expansion of rows with distinct subsamples and no repeated well is their assignment |
| WellRouting.FlattenNoDup | bin/split_fastq.py:52-55 | with no repeat in the flat well list, no well belongs to two subsamples |
| WellRouting.FlattenNoDupWithin | bin/split_fastq.py:52-55 | with no repeat in the flat well list, no subsample lists a well twice |
| WellBarcodes.ReadOneColStripped | bin/utils.py:31-34 | every entry `read_one_col` returns is already stripped |
| WellBarcodes.GetAllBc | bin/split_fastq.py:62-71 | the loop builds, for every subsample and only those, the indexes `IndexOf` of its wells |
| WellBarcodes.BuildIndex | bin/split_fastq.py:65-70 | the inner loop builds `map`, `sample` and `well` of one subsample, its wells taken in order |
| WellBarcodes.AddWell | bin/split_fastq.py:67-70 | one well's barcode written into `map`, its single-barcode index merged into `sample`, and recorded under its name in `well` when split by well |
| WellBarcodes.WellMapKeys | bin/split_fastq.py:67 | `map` holds exactly the barcodes of the subsample's wells |
| WellBarcodes.WellMapValues | bin/split_fastq.py:67 | a barcode in `map` names the last well that has it |
| WellBarcodes.WellMapInverts | bin/split_fastq.py:67 | with distinct whitelist lines, `map` sends `barcodes[j-1]` to `well{j}` |
| WellBarcodes.SampleKeys | bin/split_fastq.py:68 | a key of `sample` is exactly a sequence within one mismatch of some well's non-blank barcode |
| WellBarcodes.SampleStep | bin/split_fastq.py:68 | `sample` after one more well is the old one updated with that well's index |
| WellBarcodes.PerWellKeys | bin/split_fastq.py:69-70 | the `well` dictionary has exactly one entry per well name |
| WellBarcodes.PerWellEntry | bin/split_fastq.py:70 | well `j`'s entry is `get_mismatch_dict([barcodes[j-1]], 1)` |
| WellBarcodes.PerWellInSample | bin/split_fastq.py:68-70 | everything a well's own index holds is also in `sample` |
| WellBarcodes.SampleRouting | bin/split_fastq.py:150-151 | for a barcode in `sample`, `sample` gives the barcode of a well that `map` names, the well's own index holds the barcode, and that well's barcode is within one mismatch of it |
| WellBarcodes.WellName | bin/split_fastq.py:67 | `f'well{j}'` is `well` followed by the numeral of `j`, with no leading zero |
| WellBarcodes.WellNameInjective | bin/split_fastq.py:67 | distinct wells have distinct names |
| WellBarcodes.AssignValue | bin/split_fastq.py:67 | a key written several times into a dict holds its last write |
| WellBarcodes.PyWellBarcode | bin/split_fastq.py:67 | `barcodes[j-1]` as Python evaluates it for `0 <= j <= len`: always some whitelist line, the last one for well 0 |
| WellBarcodes.WellZeroAliasesLast | bin/split_fastq.py:67 | wells 0 and `len(barcodes)` are distinct but read the same barcode |
| WellBarcodes.WellZeroMisroutes | bin/split_fastq.py:66-67 | with Python's indexing, a subsample listing the last well `n` and then well 0 files well `n`'s barcode under `well0`, a name other than `well{n}`; listed the other way round, it stays with `well{n}` |
| Demultiplex.Configure | bin/split_fastq.py:76-103 | fails with `UnbalancedInputs` exactly when the lists differ in length; on success the files are the two splits, of equal length, the barcode is the layout's only C span, and the whitelist is the branch's, non-empty and without a space |
| Demultiplex.SplitFastqInit | bin/split_fastq.py:74-103 | the constructor's statements compute `Configure` |
| Demultiplex.ConfigureCustomized | bin/split_fastq.py:84-87 | for `customized`, succeeds exactly when the pattern is valid, has exactly one C token and the whitelist is non-empty without a space; the barcode is then that token's span |
| Demultiplex.ConfigureAccuraCode | bin/split_fastq.py:91-95 | for AccuraCode-V1 the whitelist is the `well96` path with `--well 96` and the `well384` path otherwise |
| Demultiplex.ConfigureOtherProtocol | bin/split_fastq.py:88-100 | another built-in protocol never sets the whitelist, so the constructor fails |
| Demultiplex.PatternOfParsed | bin/split_fastq.py:86 | what `ParsePattern` promises determines its result |
| Demultiplex.LayoutHasKind | bin/split_fastq.py:98 | a letter is a key of the layout exactly when some token has it |
| Demultiplex.FormatRecordLines | bin/split_fastq.py:147-148 | a record written as `@name`, bases, `+`, qualities reads back line by line as those four fields |
| Demultiplex.Zip | bin/split_fastq.py:141 | `zip` pairs records by position and stops at the shorter stream |
| Demultiplex.BarcodeOf | bin/split_fastq.py:144 | the barcode is the C span of read 1 when the read covers it; it is never longer than the span or the read |
| Demultiplex.PySlice | bin/split_fastq.py:144 | Python slicing: in range it is the sub-string, past the end it is cut short, and from past the end it is empty |
| Demultiplex.Outputs.constructor | bin/split_fastq.py:123-135 | every output file is opened empty, for both reads |
| Demultiplex.Outputs.Append | bin/split_fastq.py:147-148 | `write` appends the formatted record of read 1 to file `f` of read 1 and that of read 2 to file `f` of read 2, and changes no other file |
| Demultiplex.Outputs.WriteSubsample | bin/split_fastq.py:146-153 | one subsample's turn appends the pair to exactly its files that `Writes` selects |
| Demultiplex.Outputs.RoutePair | bin/split_fastq.py:144-153 | one pair is appended to exactly the files `Writes` selects, over every subsample, with no `break`, and nothing else changes |
| Demultiplex.Outputs.Route | bin/split_fastq.py:141-153 | after the pairs of one file pair, each file has grown by exactly the records of the pairs routed to it, in order |
| Demultiplex.Outputs.RouteFiles | bin/split_fastq.py:139-153 | after every file pair, each file has grown by the records of all pairs routed to it, file after file |
| Demultiplex.SubsampleTargetsWrites | bin/split_fastq.py:146-153 | one subsample's step writes its own file when `sample` holds the barcode, and with `--split_to_well` also the file of the well `map[sample[barcode]]`; these are exactly its files `Writes` selects |
| Demultiplex.IndexedRoutable | bin/split_fastq.py:150-152 | with the indexes `get_all_bc` builds, `map[sample[barcode]]` never fails and always names an open well file |
| Demultiplex.WritesSubsample | bin/split_fastq.py:145-148 | a pair goes to a subsample exactly when its barcode is within one mismatch of a barcode of one of the subsample's wells; every such subsample gets it |
| Demultiplex.WritesOneWell | bin/split_fastq.py:149-153 | with `--split_to_well`, a pair written to a subsample is also written to an open well file of it, for a well whose barcode is within one mismatch |
| Demultiplex.WellFileUnique | bin/split_fastq.py:150-153 | a pair goes to at most one well file of a subsample |
| Demultiplex.WellFileNeedsSubsample | bin/split_fastq.py:146-153 | a pair is written to a well file only with `--split_to_well` and only along with its subsample's file |
| Demultiplex.UnmatchedNowhere | bin/split_fastq.py:145-146 | a pair whose barcode no subsample's index holds is written nowhere |
| Demultiplex.RoutedMember | bin/split_fastq.py:141-153 | a pair is among a file's pairs exactly when it was read and is written there |
| Demultiplex.RoutedAppend | bin/split_fastq.py:139-141 | routing two streams in turn routes each of them, in order |
| Demultiplex.TextAppend | bin/split_fastq.py:139-141 | a file's text after two streams is its text from the first followed by its text from the second, for both reads |
| Demultiplex.WellsWithinInRange | bin/split_fastq.py:62-67 | checking the flat well list against the whitelist checks every subsample's wells |
| Demultiplex.PlanOf | bin/split_fastq.py:105-138 | a plan exists only when the constructor succeeded and `splitInf_to_dict` succeeded; its whitelist is stripped and every well is a line of it |
| Demultiplex.WellZeroRejected | bin/split_fastq.py:62-67 | a split that lists well 0 is rejected with `WellOutOfRange` instead of reading the last whitelist line |
| Demultiplex.RunPlan | bin/split_fastq.py:111-153 | once every check has passed, the output files are exactly the subsample and well files, and each holds, read 1 and read 2 alike, the records of exactly the pairs routed to it, in the order read |
| Demultiplex.SplitFastq | bin/split_fastq.py:74-153 | `run` fails exactly when the plan does, with the same error; otherwise every output file holds the records of exactly the pairs routed to it, in the order read, and the R1 and R2 files get the same pairs |

## Left out

- `get_protocol_dict` (reading `protocols.json`, joining whitelist paths) is not part of this model: the protocol dictionary is a parameter, one `Protocol` per name, holding an optional decoded layout and its whitelist paths.
- Everything outside bin/parse_protocol.py and bin/split_fastq.py is not part of this model. `read_one_col` is kept only as the stripping of the whitelist's lines, which are a parameter.
- I/O is not modelled:
  - `pd.read_csv` gives a `Table` of string cells;
  - `pysam.FastxFile` gives a sequence of records per path;
  - `xopen` files are the maps of the `Outputs` class;
  - `os.makedirs`, the output path strings, closing files, `write_json`, logging and `argparse` are left out.
- pandas type inference is not modelled. An all-integer `well` column read as numbers (where `.split` raises), a missing cell read as NaN, and pandas renaming duplicate column names are all left out; every cell is a string.
- Header comments are not modelled: `pysam` hands `run` only the name part of a FASTQ header line, so a record has no comment.
- `Text.ParseInt`: `int()` is modelled with an optional leading `+` and ASCII digits only. Python also accepts `_` between digits (`1_0`) and non-ASCII decimal digits; the model rejects those as `InvalidNumber`. A `-` never reaches `int()`, because a token holding one is split at it first.
- `re.findall` is modelled on ASCII: `\d` matches only `0`-`9` and `[A-Z]` only ASCII capitals.
- `SplitInf`: `DuplicateWell` carries no well number, as the code's message names none.
- `SplitFastq`: every input path is required to be in the file map. A missing file is a `FileNotFoundError` in the source and is left out with the rest of I/O.
- The order of keys of the Python dictionaries is not modelled. It decides only the order in which files are written, never their contents.
- A `--whitelist` left out on the command line (None) is written `""`: both are falsy, so both give `WhitelistNotFound`.
- `Demultiplex.PlanOf`: a well beyond the whitelist is an `IndexError` in `get_all_bc`, raised after the output files are opened. The model reports it as `WellOutOfRange` before anything is written, together with the corrected well 0.

## Findings

| source | as written | input that shows it | evidently intended | confidence | as-written member | corrected member |
|---|---|---|---|---|---|---|
| bin/split_fastq.py:67 | `barcodes[j-1]` for every well `j` the split lists; `splitInf_to_dict` accepts 0, from a token such as `0` or `0-3` | a split listing well 0 with `n` whitelist lines: well 0 reads `barcodes[-1]`, the barcode of well `n`, so its reads are indexed under well `n`'s barcode | wells are numbered from 1 and a well outside `1..len(barcodes)` is rejected | not executed | WellBarcodes.WellZeroMisroutes | Demultiplex.WellZeroRejected |
