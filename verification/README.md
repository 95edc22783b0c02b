# scEM_seq read-processing scripts, modelled in Dafny

scEM_seq is a set of Python scripts for single-cell enzymatic methyl-seq data.
This project models the record-level logic of four of them:

- `add_cb_umi_to_fastq.py` tags paired FASTQ reads.
  - The mate-1 pass takes a cell barcode (CB) and a UMI at fixed offsets of each read's sequence.
  - It keeps the reads whose CB is in a whitelist.
  - It rewrites each kept read's name as `@<id>_<CB>_<UMI> 1:N:0:<UMI>`.
  - It indexes the new names by read id and counts reads per CB.
  - The mate-2 pass keeps the reads whose id the index holds, under the indexed name with `1` changed to `2`.
  - The per-CB counts are written sorted by decreasing count.
- `split_bam_by_cb.py` routes each alignment to one SAM file per CB.
  - The CB is the first `_`-field of the query name.
  - A CB's first read writes the SAM header, and later reads append.
- `count_umi_from_bam_folder.py` counts, for each BAM file, the reads per tag.
  - A read's tag is the last `_`-field of its name.
  - It labels each file with a barcode taken from its file name.
  - It writes one summary row per file, in sorted path order.
- `compute_mcpg_consistency.py` summarises each `(chr, pos, status)` methylation call file.
  - It counts the distinct positions, the repeated positions, and the positions whose statuses disagree.
  - It also computes the shares of the last two.

Each script is one Dafny module, over seven helper modules:

- `Text`: Python string operations. Splitting on one character, the last field, replace-all, strip, and code-point ordering.
- `Tallies`: a Python dict used as a counter, keeping insertion order.
- `Sorting`: Python's stable `sorted`.
- `FileLabel`: `os.path.basename`, `os.path.splitext`, and the pattern `<prefix>(.*?).deduplicated` written as an explicit leftmost-shortest search.
- `Outcomes`: `Option` for a `None` return and `Result` for a raised error.
- `Ratios`: the zero-guarded share `part / whole if whole > 0 else 0.0`.
- `PerFile`: a loop over the files a folder search found, one entry per file.

Some things in the scripts become values or parameters in the model:

- Each record-consuming loop of the scripts is a method with a loop.
- Every such method is proved equal to a specification function over the records read so far. Lemmas then state what the script promises about that function.
- The loop that writes the per-CB summary file (`add_cb_umi_to_fastq.py:206-207`) is the function `FastqTagging.SummaryRows`, which returns the rows it writes.
- A read is a value.
- An input file is the sequence of its records.
- An output file is a returned sequence of lines, or a map from path to contents.
- The files found by a folder search are a sequence of paths.
- Reading a file found that way is a function parameter.

## Model

| member | source | states |
|---|---|---|
| `Text.Split` | split_bam_by_cb.py:34 | `split` always returns at least one field |
| `Text.SplitCount` | split_bam_by_cb.py:34-35 | `split("_")` gives one field more than the string has separators, so "fewer than 4 fields" means "fewer than 3 underscores" |
| `Text.SplitFieldsHaveNoSep` | split_bam_by_cb.py:34 | no field of a split contains the separator |
| `Text.JoinSplit` | split_bam_by_cb.py:34 | joining the fields with the separator gives back the string: splitting loses nothing |
| `Text.SplitJoin` | count_umi_from_bam_folder.py:71 | splitting a join of separator-free fields gives back those fields |
| `Text.FirstFieldIsPrefix` | split_bam_by_cb.py:37 | field 0 is the longest separator-free prefix: the string ends there or a separator follows |
| `Text.SplitWithoutSep` | count_umi_from_bam_folder.py:71-72 | a string without the separator splits into itself alone |
| `Text.LastFieldIsSuffix` | count_umi_from_bam_folder.py:71-72 | field `[-1]` is the longest separator-free suffix: the whole string or the text after the last separator |
| `Text.LastFieldAfterSep` | count_umi_from_bam_folder.py:71-72 | the last field of `a + sep + b`, for a separator-free `b`, is `b` |
| `Text.ReplaceAll` | split_bam_by_cb.py:54 | a string in which the pattern occurs nowhere is returned unchanged |
| `Text.ReplaceSkipsHead` | split_bam_by_cb.py:54 | `replace` leaves alone a head that cannot start the pattern |
| `Text.ReplaceAtHead` | split_bam_by_cb.py:54 | `replace` turns a leading occurrence into the replacement and goes on after it |
| `Text.ReplaceNoMatchBefore` | split_bam_by_cb.py:54 | when no occurrence starts before position `n`, `replace` copies the first `n` characters and goes on from `n` |
| `Text.ReplaceDeletes` | split_bam_by_cb.py:54 | replacing by `""` only deletes characters: the result's characters are among the input's |
| `Text.Strip` | add_cb_umi_to_fastq.py:79 | `strip()` removes only leading and trailing whitespace, and the result neither starts nor ends with whitespace |
| `Text.StripEmptyIffAllSpace` | add_cb_umi_to_fastq.py:79-81 | a stripped line is empty exactly when the line is all whitespace |
| `Tallies.TallyOf` | compute_mcpg_consistency.py:99-102 | `Counter(xs)` is well formed, its keys are exactly the elements of `xs`, and each key's count is its number of occurrences in `xs` |
| `Tallies.AddSpec` | add_cb_umi_to_fastq.py:142 | one `get(k, 0) + 1` step adds one to the total, and appends `k` to the key order exactly when `k` is new |
| `Tallies.TallyOfSpec` | count_umi_from_bam_folder.py:74-77 | keys are the elements, each count is the element's number of occurrences, counts sum to the length, and keys are in first-appearance order |
| `Tallies.TallyOfOrder` | count_umi_from_bam_folder.py:79 | the items come out in the order their keys first appear |
| `Tallies.AddKeepsOrder` | count_umi_from_bam_folder.py:74-77 | adding one element to a counter whose keys are in first-seen order keeps them in first-seen order |
| `Tallies.KeyCount` | count_umi_from_bam_folder.py:79-80 | the number of rows is the number of distinct elements |
| `Tallies.SumItems` | count_umi_from_bam_folder.py:81 | the counts of the rows add up to the counter's total |
| `Sorting.Sort` | add_cb_umi_to_fastq.py:204 | `sorted` returns as many elements as it is given |
| `Sorting.SortSpec` | add_cb_umi_to_fastq.py:204 | `sorted` returns a permutation of its input, ordered by the key |
| `Sorting.SortStable` | add_cb_umi_to_fastq.py:204 | `sorted` is stable: elements with equal keys keep their input order |
| `Sorting.SortedUnique` | count_umi_from_bam_folder.py:141 | for an antisymmetric order, two sorted permutations of each other are equal |
| `Sorting.SortDeterminedByElements` | count_umi_from_bam_folder.py:141 | for an antisymmetric order, sorting depends only on which elements are given, not on their order |
| `FileLabel.Basename` | count_umi_from_bam_folder.py:109 | the basename is a suffix of the path and holds no `/`; it is the whole path, or a `/` comes right before it |
| `FileLabel.BasenameOf` | count_umi_from_bam_folder.py:109 | the basename of `dir/name` is `name`, for a name without `/` |
| `FileLabel.LazyFrom` | count_umi_from_bam_folder.py:110 | a lazy group found from length `k` on is at least `k` long and fits in the name |
| `FileLabel.Search` | count_umi_from_bam_folder.py:110 | a match found from start `i` on starts at or after `i` and fits in the name |
| `FileLabel.LazyFromSpec` | count_umi_from_bam_folder.py:110 | the lazy group `(.*?)` is the shortest that makes `<group><any char>deduplicated` match, with no newline in it or in the next character; none is found only when no length matches |
| `FileLabel.SearchSpec` | count_umi_from_bam_folder.py:110 | `re.search` finds the leftmost start where the pattern matches, and the shortest group there; it finds nothing only when the pattern matches nowhere |
| `FileLabel.StripExt` | count_umi_from_bam_folder.py:114 | `splitext(b)[0]` is a prefix of `b`; what it cuts is one extension, a dot with no dot after it and a non-dot before it |
| `FileLabel.StripExtKeep` | count_umi_from_bam_folder.py:114 | when nothing is cut, the name has no dot, or only dots before its last dot |
| `FileLabel.Label` | count_umi_from_bam_folder.py:109-114 | the label is the group of the leftmost and then shortest match in the basename, or the basename without its extension when nothing matches |
| `FileLabel.NameLabelSpec` | count_umi_from_bam_folder.py:110-114 | on a basename, the label is the group of the first match, or the name without its extension when nothing matches |
| `Ratios.Proportion` | compute_mcpg_consistency.py:136-143 | `x / d if d > 0 else 0.0` is non-negative, zero for `d == 0`, `x/d` otherwise, and at most 1 when `x <= d` |
| `Ratios.ProportionMonotone` | compute_mcpg_consistency.py:136-143 | a smaller part of the same whole gives a smaller share |
| `FastqTagging.ReadCellBarcodes` | add_cb_umi_to_fastq.py:74-85 | the whitelist is exactly the set of stripped non-empty lines; it fails with `No barcodes found in <path>` exactly when every line is blank |
| `FastqTagging.EncodeQuality` | add_cb_umi_to_fastq.py:137 | the quality line has one character per score, each printable Phred+33, and `ord(c) - 33` gives the scores back |
| `FastqTagging.DecodeQualityRoundTrip` | add_cb_umi_to_fastq.py:137 | encoding the decoded scores of a Phred+33 line gives the line back |
| `FastqTagging.Header1` | add_cb_umi_to_fastq.py:134 | a mate-1 header built from a space-free id, CB and UMI parses back into them |
| `FastqTagging.ParseHeader1Sound` | add_cb_umi_to_fastq.py:134 | whatever parses as a mate-1 header is exactly the header built from the parsed id, CB and UMI, with CB and UMI of the configured lengths |
| `FastqTagging.HeaderOfParts` | add_cb_umi_to_fastq.py:134 | a line `@<id>_<cb>_<umi>` followed by ` 1:N:0:<umi>` is exactly the mate-1 header built from that id, CB and UMI |
| `FastqTagging.Accepted` | add_cb_umi_to_fastq.py:116-129 | the accepted reads are no more than the reads seen |
| `FastqTagging.ProcessRead1` | add_cb_umi_to_fastq.py:88-144 | the pass writes the tagged accepted reads in order, indexes and counts them, and counts every read once. `total == invalid + sum(cb_count)`, and every counted CB is whitelisted and `cb_len` long |
| `FastqTagging.Read1Conservation` | add_cb_umi_to_fastq.py:116-142 | the reads seen are the rejected reads plus the sum of the CB counts, and every counted CB is whitelisted and `cb_len` long |
| `FastqTagging.Read1Step` | add_cb_umi_to_fastq.py:115-142 | an accepted read extends the output, the index and the count by itself; a rejected read leaves all three as they were |
| `FastqTagging.AcceptedSpec` | add_cb_umi_to_fastq.py:119-129 | a read is accepted exactly when it is long enough for CB and UMI and its CB is whitelisted |
| `FastqTagging.Written1Spec` | add_cb_umi_to_fastq.py:124-139 | output entry `i` is accepted read `i`, tagged |
| `FastqTagging.BarcodesSpec` | add_cb_umi_to_fastq.py:124-142 | one counted CB per accepted read, each whitelisted and `cb_len` long |
| `FastqTagging.TaggedSpec` | add_cb_umi_to_fastq.py:124-139 | a tagged read keeps its sequence and scores; its header parses back into the id, `seq[:cb_len]` and `seq[cb_len:cb_len+umi_len]` |
| `FastqTagging.IndexLastWins` | add_cb_umi_to_fastq.py:141 | an id is indexed exactly when some read with it was accepted, and it maps to the header of the last such read |
| `FastqTagging.IndexKeys` | add_cb_umi_to_fastq.py:141 | an id is a key of the index exactly when some read with that id was accepted |
| `FastqTagging.IndexValue` | add_cb_umi_to_fastq.py:141 | an indexed id maps to the header of the last accepted read with that id |
| `FastqTagging.ProcessRead2` | add_cb_umi_to_fastq.py:147-178 | the mate-2 pass writes the synced reads in input order; `missing_r2` plus the reads written is the number of reads seen |
| `FastqTagging.Written2Spec` | add_cb_umi_to_fastq.py:163-176 | the written mate-2 reads are exactly those whose id is indexed, in order, each under its indexed header with the mate marker swapped |
| `FastqTagging.Mate2Header` | add_cb_umi_to_fastq.py:170-171 | a header in which ` 1:N:0:` does not occur is kept as it is |
| `FastqTagging.MateSwap` | add_cb_umi_to_fastq.py:170-171 | for a space-free id, CB and UMI, replacing ` 1:N:0:` in the mate-1 header gives the mate-2 header |
| `FastqTagging.MateDigitOnly` | add_cb_umi_to_fastq.py:170-171 | the mate-1 and mate-2 headers differ in exactly one character, the mate digit |
| `FastqTagging.PairedHeader` | add_cb_umi_to_fastq.py:163-176 | a mate-2 read kept is written under the mate-2 header of the last accepted mate-1 read with its id, with that read's CB and UMI |
| `FastqTagging.ByCountDescIsPreorder` | add_cb_umi_to_fastq.py:204 | "by count, decreasing" is a total preorder, so `sorted` is well defined on it |
| `FastqTagging.SumCountsSort` | add_cb_umi_to_fastq.py:204 | sorting the rows keeps their sum of counts |
| `FastqTagging.KeptReads` | add_cb_umi_to_fastq.py:189 | `kept_reads` is the sum of the counts of the counter's items |
| `FastqTagging.SummaryRows` | add_cb_umi_to_fastq.py:204-207 | the rows written are the counter's items, a permutation of them, in non-increasing order of count |
| `FastqTagging.SummaryRowsSpec` | add_cb_umi_to_fastq.py:189-207 | rows of equal count keep the counter's first-seen order, and the rows' counts add up to `kept_reads` |
| `FastqTagging.SummaryRatio` | add_cb_umi_to_fastq.py:196 | the ratio line raises exactly when `total_reads` is 0; otherwise the ratio times `total_reads` is `kept_reads` |
| `FastqTagging.EmptyInputRaises` | add_cb_umi_to_fastq.py:196 | the unguarded ratio line raises exactly when the mate-1 input has no read |
| `FastqTagging.GuardedSummaryRatio` | add_cb_umi_to_fastq.py:189-196 | kept reads are at most the reads seen; the guarded share lies in [0, 1], is 0 on an empty input, and agrees with the unguarded line wherever that line does not raise |
| `BamSplit.ExtractCb` | split_bam_by_cb.py:23-40 | a CB found is shorter than the read name |
| `BamSplit.ExtractCbSpec` | split_bam_by_cb.py:23-40 | a CB is extracted exactly when the name has at least three underscores; it is then the text before the first underscore, possibly empty |
| `BamSplit.ExtractCbOfName` | split_bam_by_cb.py:34-38 | for a name `<cb>_<rest>`, the CB is `cb` when `rest` has at least two underscores, and none otherwise |
| `BamSplit.OutputBase` | split_bam_by_cb.py:54 | the base holds no `/`, and its characters are among those of the file name, since `replace(".bam", "")` only deletes |
| `BamSplit.OutputBaseOfBam` | split_bam_by_cb.py:54 | for `<dir>/<stem>.bam`, where no `.bam` starts inside the stem, the output base is the stem; the stem may hold other dots |
| `BamSplit.PartitionPath` | split_bam_by_cb.py:76 | for a base and a CB without `/`, the file is named `<base>_<cb>.sam` |
| `BamSplit.PartitionPathInjective` | split_bam_by_cb.py:76 | two CBs get the same output path exactly when they are equal |
| `BamSplit.SplitStep` | split_bam_by_cb.py:68-87 | a read with a CB adds its line to that CB alone; a read without one adds its name to the skipped names alone |
| `BamSplit.RouteSkip` | split_bam_by_cb.py:71-74 | a skipped read leaves the files and `written_cbs` as they were |
| `BamSplit.RouteFirst` | split_bam_by_cb.py:79-83 | the first read of a CB creates its file with the header and that read's line, and adds the CB to `written_cbs` |
| `BamSplit.RouteAgain` | split_bam_by_cb.py:84-87 | a later read of a CB appends its line to that CB's file only |
| `BamSplit.AgainFile` | split_bam_by_cb.py:84-87 | after a later read of CB `c` is appended, every written CB's file is its header followed by the lines of its reads so far |
| `BamSplit.SplitBam` | split_bam_by_cb.py:66-87 | `written_cbs` ends as the set of routed CBs, there is one file per CB, and each holds the header once followed by its reads' lines in input order; skipped names are reported in order |
| `BamSplit.RoutedOrSkipped` | split_bam_by_cb.py:68-74 | routed reads plus skipped reads are all the reads, and every skipped name has fewer than three underscores |
| `BamSplit.PartitionSizes` | split_bam_by_cb.py:79-87 | a CB's file holds one line per read routed to it |
| `BamSplit.PartitionCounts` | split_bam_by_cb.py:79-87 | a CB has a file exactly when it is routed, and its number of lines is its count among the routed CBs |
| `BamSplit.WrittenGrows` | split_bam_by_cb.py:79-83 | `written_cbs` only grows: the routed CBs after fewer reads are a prefix of those after more |
| `UmiCount.Tag` | count_umi_from_bam_folder.py:71-72 | the tag is the longest suffix without `_`: the text after the last `_`, or the whole name when it has none |
| `UmiCount.TagOfName` | count_umi_from_bam_folder.py:71-72 | a name ending in `_<tag>` has that tag |
| `UmiCount.Tags` | count_umi_from_bam_folder.py:68-72 | one tag per read, in read order |
| `UmiCount.UmiCountBam` | count_umi_from_bam_folder.py:46-83 | the table holds each distinct tag once, in first-seen order, with its number of reads; `umi_count` is the number of distinct tags and `reads_number` the number of reads |
| `UmiCount.TagTable` | count_umi_from_bam_folder.py:74-83 | the table has one row per distinct tag, each with that tag's number of reads, and the counts sum to the number of reads |
| `UmiCount.ThreeTags` | count_umi_from_bam_folder.py:69-72 | names ending `_R1`, `_R1`, `_R2` have tags R1, R1, R2 |
| `UmiCount.CountAAB` | count_umi_from_bam_folder.py:74-77 | counting `a, a, b` with `a != b` gives `{a: 2, b: 1}`, keys in that order |
| `UmiCount.ThreeReadsExample` | count_umi_from_bam_folder.py:65-79 | names ending `_R1`, `_R1`, `_R2` give the table `R1 2`, `R2 1` |
| `UmiCount.BarcodeFromFilename` | count_umi_from_bam_folder.py:86-114 | the label is as `FileLabel.Label` states, for the prefix `_cc3_srtn_` |
| `PerFile.MapFilesAt` | count_umi_from_bam_folder.py:141-155 | entry `k` of a per-file loop is computed from file `k` alone |
| `UmiCount.FolderEntries` | count_umi_from_bam_folder.py:141-155 | summary row `k` is the row of file `k`, from its label and its reads' names; detail table `k` is file `k`'s detail table |
| `UmiCount.DetailPath` | count_umi_from_bam_folder.py:154 | the detail file lies in the working directory (no `/`) and ends in `.reads.info.txt` |
| `UmiCount.DetailPathInjective` | count_umi_from_bam_folder.py:154 | two BAM files get the same detail file exactly when their file names agree |
| `UmiCount.LexLeIsOrder` | count_umi_from_bam_folder.py:141 | code-point string order is total, transitive and antisymmetric |
| `UmiCount.SummarizeFolder` | count_umi_from_bam_folder.py:135-155 | nothing is written when no file is found; otherwise one summary row and one detail table per file, in sorted path order, entry `k` computed from the `k`-th file in that order alone |
| `UmiCount.SummaryOrder` | count_umi_from_bam_folder.py:141 | files are listed in increasing path order, as a permutation of those found, whatever order the folder search returns them in |
| `McpgConsistency.Positions` | compute_mcpg_consistency.py:89 | one position per row, in row order |
| `McpgConsistency.ByChromPosIsPreorder` | compute_mcpg_consistency.py:86 | ordering by chromosome name, then by position, is a total preorder |
| `McpgConsistency.McpgCounts` | compute_mcpg_consistency.py:86-114 | `detect_pos` is the number of covered positions, `count_ge_2` the number covered by at least two rows, and `status_2` the number whose rows carry different statuses, all counted over the rows as read |
| `McpgConsistency.SortedCountsMatch` | compute_mcpg_consistency.py:86-114 | counting on the sorted rows gives the numbers of covered, repeated and inconsistent positions of the rows as given |
| `McpgConsistency.MixedAmongStep` | compute_mcpg_consistency.py:110-114 | visiting one more position adds one to `status_2` exactly when its statuses are not all the same |
| `McpgConsistency.CoveredPositions` | compute_mcpg_consistency.py:89-109 | `set(pos_list)` is the set of positions of the rows |
| `McpgConsistency.StatusesAtSpec` | compute_mcpg_consistency.py:111 | the status list at `pos` holds exactly the statuses of the rows at `pos` |
| `McpgConsistency.AllSameSpec` | compute_mcpg_consistency.py:111-113 | at a covered position, `len(set(status_list)) == 1` holds exactly when no two of its rows have different statuses |
| `McpgConsistency.CounterMatch` | compute_mcpg_consistency.py:99-105 | `Counter(pos_list)` has the covered positions as keys, and its entries of at least 2 are the repeated positions |
| `McpgConsistency.MixedMatch` | compute_mcpg_consistency.py:108-114 | the positions the loop counts are exactly those whose rows disagree |
| `McpgConsistency.CountBounds` | compute_mcpg_consistency.py:99-114 | `status_2 <= count_ge_2 <= detect_pos <= rows`, since disagreeing statuses need two rows |
| `McpgConsistency.PositionsPermutation` | compute_mcpg_consistency.py:86-89 | reordering the rows reorders the position list: the same positions, the same number of times |
| `McpgConsistency.RowOrderIrrelevant` | compute_mcpg_consistency.py:86-114 | the covered, repeated and inconsistent positions do not depend on row order, so the sort does not change the counts |
| `McpgConsistency.PositionIgnoresChromosome` | compute_mcpg_consistency.py:89-102 | a position is `pos` alone: one `pos` on two chromosomes is one position, counted as repeated |
| `McpgConsistency.McpgBarcode` | compute_mcpg_consistency.py:22-47 | the label is as `FileLabel.Label` states, for the prefix `_srtn_` |
| `McpgConsistency.FileRowShares` | compute_mcpg_consistency.py:119-143 | each row has `Ins_pos <= Rep_pos <= Detect_pos <= rows` and `0 <= Ins_pro <= Rep_pro <= 1`, and a row without positions has zero shares |
| `McpgConsistency.TableEntries` | compute_mcpg_consistency.py:74-127 | summary row `k` is the row of file `k` alone |
| `McpgConsistency.EmptyFileRow` | compute_mcpg_consistency.py:91-96 | a file with no row gets `[barcode, 0, 0, 0]` and zero shares |
| `McpgConsistency.SummarizeMcpg` | compute_mcpg_consistency.py:68-143 | nothing is written when no file is found; otherwise one row per file, in sorted path order, row `k` computed from the `k`-th file in that order alone, with counts as `McpgCounts` states |

## Left out

- Reading and writing compressed files and records is not modelled: `gzip.open`, `SeqIO.parse`, `pysam.AlignmentFile`, `pandas.read_csv` and `to_csv`.
  - A FASTQ record is given as its id, sequence and scores.
  - An alignment is given as its query name and its rendered SAM line.
  - The SAM header text is an opaque string.
  - A methylation call file is given as its rows, with integer `pos` and `status`. Other column types and malformed lines are not modelled.
- Command-line handling is not modelled: `argparse`, `sys.argv`, the existence checks, `os.makedirs`, `sys.exit`.
  - This includes `sys.argv[2]` being read when only two arguments are given in `compute_mcpg_consistency.py:51-59`.
- Printing to stdout and stderr is not modelled.
  - The names of the reads `split_bam_by_cb.py` warns about are returned instead, as the skipped names.
- `glob.glob` is not modelled: the paths found are a parameter.
  - Its hidden-file rule and its pattern matching are not modelled.
  - Its return order is irrelevant, as `UmiCount.SummaryOrder` shows.
- Floating point is not modelled.
  - The shares are exact rationals, not doubles.
  - The `:.4f` formatting is not modelled.
- The general regular-expression engine is not modelled. Only the two fixed patterns are, as explicit searches.
- File handles are not modelled.
  - `split_bam_by_cb.py` reopens a file for each read. The model keeps the contents in a map.
  - Files left from earlier runs are not modelled. The result holds only the files this run writes, and a `"w"` open truncates anyway.
  - A CB containing `/` names a missing subdirectory, where the open would fail. This is not modelled.
- `cb_len` and `umi_len` are naturals.
  - Python's slicing with negative bounds is not modelled.
- Phred scores are limited to 0–93, the range a Sanger FASTQ quality character can carry.
- A query name is always a string. An absent (`None`) query name is not modelled.
- `pandas.sort_values` may order rows with equal `(chr, pos)` differently from the stable sort used here.
  - The counts do not depend on row order, as `McpgConsistency.RowOrderIrrelevant` shows.
- The loop over `set(pos_list)` visits positions in an arbitrary order, chosen by `:|`.
- Reading the whitelist text file (`add_cb_umi_to_fastq.py:74-85`) is not modelled: its lines are given as a sequence of strings.
- The plain `open(..., "w")` writes of the summary files are not modelled: the rows are returned instead.
- `McpgConsistency.McpgCounts` builds the position counter after the status loop rather than before it. Both only read the sorted rows, so the three counts are the same.
- `Text.Split`: its own contract only says there is at least one field. What the fields are is stated by `Text.SplitCount`, `Text.FirstFieldIsPrefix`, `Text.LastFieldIsSuffix` and `Text.JoinSplit`.
- `Text.ReplaceAll`: its own contract only covers a string without the pattern. The rest is stated by `Text.ReplaceSkipsHead`, `Text.ReplaceAtHead`, `Text.ReplaceNoMatchBefore` and `Text.ReplaceDeletes`.
- `Sorting.Sort`: its own contract only keeps the length. Order, permutation and stability are stated by `Sorting.SortSpec` and `Sorting.SortStable`.
- `FastqTagging.Mate2Header`: its own contract only covers a header without the mate-1 marker. The swap on a real header is stated by `FastqTagging.MateSwap`.
- `BamSplit.ExtractCb`: its own contract only bounds the CB. When a CB is found and what it is, is stated by `BamSplit.ExtractCbSpec`.
- `BamSplit.PartitionPath`: its own contract only gives the file name. That distinct CBs get distinct paths is stated by `BamSplit.PartitionPathInjective`.
- `FileLabel.LazyFrom`: its own contract only bounds the group it finds. What the group is, is stated by `FileLabel.LazyFromSpec`.
- `FileLabel.Search`: its own contract only bounds the match it finds. What the match is, is stated by `FileLabel.SearchSpec`.
- `FastqTagging.Accepted`: its own contract only bounds its length. Which reads it keeps is stated by `FastqTagging.AcceptedSpec`.

## Findings

| source | as written | input that shows it | evidently intended | confidence | as-written member | corrected member |
|---|---|---|---|---|---|---|
| add_cb_umi_to_fastq.py:196 | `kept_reads / total_reads` with no zero guard | a mate-1 FASTQ file with no read: `total_reads` is 0, so the summary step raises `ZeroDivisionError` after both passes have written their outputs, and the barcode summary file is never written | a share of 0.0 when no read was seen, as `compute_mcpg_consistency.py:136-143` guards its shares | not executed | `FastqTagging.EmptyInputRaises` | `FastqTagging.GuardedSummaryRatio` |
