# basenji data preparation, modelled in Dafny

This project models the data-preparation core of basenji:

- `bin/basenji_data.py` cuts a genome's contigs into fixed-length model windows. It divides the contigs between train, valid and test sets, either by chromosome name or by aiming at nucleotide percentages. It masks the pooled bins of each window that overlap unmappable regions and drops windows that are mostly unmappable. It then plans the coverage-reading jobs and the shard-writing jobs.
- `bin/basenji_test_genes.py`, in `ignore_trained_regions`, drops the test sequences that overlap regions used for training. It renumbers the transcript map so that each kept transcript still points at its own sequence.

The modules follow the program's steps:

- `Genome`: contigs, model windows, split labels, total length.
- `Tiling`: `contig_sequences`, the length filter and the down-sample.
- `ContigOrder`: the descending tuple sort of `divide_contigs_pct`.
- `Splits`: `divide_contigs_chr` and `divide_contigs_pct`.
- `Unmap`: `annotate_unmap` and the unmappability filter in `main`.
- `Sharding`: the label merge, each split's index range, the shard loop and the write-job plan.
- `ReadJobs`: the skip-existing coverage jobs.
- `TrainedRegions`: `ignore_trained_regions`.

Three modules are shared helpers:

- `Masks` holds numpy's `a[mask]` and `mask[:i].sum()`.
- `Arith` holds linear multiplication and Python's floor and ceiling of a quotient.
- `Wrappers` holds `Option` and `Result`.

Loops in the source are `method`s with loop invariants, proved equal to a specification function; the lemmas state what those functions guarantee. `annotate_unmap` fills a numpy matrix in place and is modelled on an `array2<bool>`.

Some inputs become parameters:

- The random draws: the percentage split's choice is a nondeterministic pick among the splits with positive probability, recorded as a ghost sequence of draws. The down-sample keeps any sub-multiset of the right size. The shuffles are not modelled.
- The output of `bedtools`, as a sequence of overlap lines or overlap counts.
- The set of files that already exist on disk.

Two boundary behaviours of the code:

- A contig exactly one window long yields no window, because the loop continues only while `seq_end < ctg_end`. One three windows long yields two (`Tiling.TilingExample`).
- A split of 130 windows with 50 per shard gets the bounds (0,50), (50,100), (100,129), not (100,130). See Findings.

## Model

| member | source | states |
|---|---|---|
| Tiling.ContigSequences | bin/basenji_data.py:372-388 | the loop over contigs and windows returns exactly the tiling `Tile`: each contig's windows in contig order |
| Tiling.WindowsShape | bin/basenji_data.py:376-386 | window k of a contig starts k strides after the contig start and has length `seq_length`; every window ends strictly before the contig end; the next stride would reach it; a contig yields no window iff it is not longer than `seq_length` |
| Tiling.WindowsIncreasing | bin/basenji_data.py:380-386 | the windows of one contig have strictly increasing starts |
| Tiling.TileAppend | bin/basenji_data.py:374-388 | tiling a concatenation of contig lists is the concatenation of their tilings |
| Tiling.TileInside | bin/basenji_data.py:376-386 | every window lies inside some contig at a whole number of strides from its start |
| Tiling.TilingExample | bin/basenji_data.py:380 | a 100000-long contig with 100000-long windows yields none; a 300000-long one yields two |
| Tiling.LengthFilter | bin/basenji_data.py:131 | keeps exactly the contigs at least `seq_length` long |
| Tiling.LengthFilterSelect | bin/basenji_data.py:131 | the filter is the input selected by the mask `len(ctg) >= seq_length`: the long contigs in input order, repeats included |
| Tiling.LengthFilterKeepsWindows | bin/basenji_data.py:131 | the length filter does not change the tiling: dropped contigs yield no window |
| Tiling.Trunc | bin/basenji_data.py:135 | `int()` of a float truncates toward zero |
| Tiling.DownSample | bin/basenji_data.py:134-135 | below a fraction of 1, a sub-multiset of `int(p*N)` contigs; fails exactly when that size is negative; from 1 up, the list unchanged |
| Genome.TotalLengthPermutation | bin/basenji_data.py:397-401 | total nucleotides do not depend on contig order |
| ContigOrder.Insert | bin/basenji_data.py:398 | insertion adds exactly one element to the multiset |
| ContigOrder.KeyLeTotal | bin/basenji_data.py:398 | any two contigs compare under the `(length, chr, start, end)` tuple order |
| ContigOrder.KeyLeTransitive | bin/basenji_data.py:398 | the tuple order is transitive |
| ContigOrder.InsertSorted | bin/basenji_data.py:398 | insertion keeps a list in descending tuple order |
| ContigOrder.SortDescending | bin/basenji_data.py:398 | the sort `SortDescending` is a permutation of its input |
| ContigOrder.SortDescendingCorrect | bin/basenji_data.py:397-398 | the sort returns a permutation of the contigs in descending tuple order, so lengths never increase |
| Splits.ReplayTotals | bin/basenji_data.py:440-448 | each split's running nucleotide count equals the total length of its list |
| Splits.ReplayPartition | bin/basenji_data.py:419-448 | `Replay`, which places each contig in the list its draw names: the three lists together are a permutation of the input, and the three counts sum to the total |
| Splits.DivideContigsChr | bin/basenji_data.py:465-503 | fails exactly when the total is 0 (the division in the report); otherwise the lists and counts produced by placing each contig by its chromosome |
| Splits.ChrDivisionCorrect | bin/basenji_data.py:480-493 | each contig is in the list its chromosome names; each list keeps input order; the lists partition the input; the counts sum to the total; when the test and valid chromosomes are the same, valid is empty |
| Splits.ChrListsSelect | bin/basenji_data.py:480-491 | each list is the input filtered by that split, in input order |
| Splits.ChrPlacement | bin/basenji_data.py:483-491 | each contig lands in the list of its chromosome's split |
| Splits.ChrValidShadowed | bin/basenji_data.py:483-488 | the test check comes first, so when both names are equal no contig is valid |
| Splits.AimsFor | bin/basenji_data.py:404-406 | the three aims sum to the total |
| Splits.GapWeights | bin/basenji_data.py:422-430 | the train weight is at least 1; valid and test are non-negative |
| Splits.DrawableSplits | bin/basenji_data.py:422-436 | train can always be drawn; test (valid) can be drawn iff its count is below its aim and the contig is at most 0.2 of the remaining gap |
| Splits.Probabilities | bin/basenji_data.py:433-436 | the probabilities are non-negative, sum to 1, and are positive exactly where the weights are |
| Splits.Choose | bin/basenji_data.py:439 | the drawn split has positive probability |
| Splits.AdmissibleExtend | bin/basenji_data.py:419-448 | one more drawable step keeps a run admissible and appends the contig to the drawn list |
| Splits.DivideContigsPct | bin/basenji_data.py:392-461 | fails exactly when the total is 0; otherwise the lists and counts from placing the sorted contigs by an admissible sequence of draws |
| Splits.PctDivisionPartition | bin/basenji_data.py:396-448 | the three lists partition the input contigs, the counts sum to the total, and each count is its list's length |
| Splits.DrawnWithinAim | bin/basenji_data.py:422-430 | a contig drawn into test or valid does not take that split past its aim |
| Splits.PctNoOvershoot | bin/basenji_data.py:419-448 | over a whole run, the valid and test counts never exceed their aims |
| Arith.FloorDiv | bin/basenji_data.py:349 | `math.floor(x / pool_width)`: the unique q with q*pw <= x < q*pw + pw |
| Arith.CeilDiv | bin/basenji_data.py:350 | `math.ceil(x / pool_width)`: the unique q with q*pw - pw < x <= q*pw |
| Unmap.IndexWindows | bin/basenji_data.py:321-323 | the loop builds the `(chr, start)` index `KeyIndex` |
| Unmap.KeyIndexLast | bin/basenji_data.py:321-323 | a key is indexed iff some window has it, and maps to the last such window |
| Unmap.LineBins | bin/basenji_data.py:346-363 | the statement-by-statement bin computation equals `BinRange`, the bins the overlap touches less an edge bin covered by under 0.2 of its width |
| Unmap.BinRangeOrdered | bin/basenji_data.py:349-363 | for an overlap, the trimmed bin range is non-negative and not reversed |
| Unmap.BinRangeBounds | bin/basenji_data.py:326-363 | when `pool_width` divides `seq_length`, the range lies within the row |
| Unmap.CoveredBinMarked | bin/basenji_data.py:352-363 | a bin the overlap covers for at least 0.2 of its width is marked |
| Unmap.MarkedBinCovered | bin/basenji_data.py:352-363 | when the overlap spans several bins, every marked bin is covered for at least 0.2 of its width |
| Unmap.ShortOverlapInsideBinMarked | bin/basenji_data.py:352-363 | with 100-bp bins, the 5-bp overlap 40..45 marks bin 0: each trim measures from the far edge of the bin, so an overlap in the middle of one bin is not trimmed |
| Unmap.EdgeOverlapInsideBinTrimmed | bin/basenji_data.py:352-363 | with 100-bp bins, the 5-bp overlaps 90..95 and 0..5 mark nothing. For 90..95, `first_overlap` (from the overlap start to the bin's right edge) is 10 < 20, so the start trim drops the bin. For 0..5, `last_overlap` (from the bin's left edge to the overlap end) is 5 < 20, so the end trim drops it |
| Unmap.CountAssertionHolds | bin/basenji_data.py:365-366 | `LineError`, the failure of the two assertions of one line: when `pool_width` divides `seq_length`, only the chromosome-name assertion can fail, and the slice is the bin range |
| Unmap.CountMismatchUndivided | bin/basenji_data.py:326-366 | with `seq_length` 10 and `pool_width` 4, an overlap reaching the window end fails the count assertion |
| Unmap.MarkedIff | bin/basenji_data.py:365 | a bin is set iff some line for that window's key has it in its slice |
| Unmap.MarkedStep | bin/basenji_data.py:333-366 | processing one more line sets exactly that line's slice in its window's row |
| Unmap.UntouchedRowClear | bin/basenji_data.py:327 | a window no line maps to keeps an all-false row |
| Unmap.CoveredRowFull | bin/basenji_data.py:349-365 | a window lying wholly inside an unmappable region gets a full row |
| Unmap.MarkLine | bin/basenji_data.py:333-366 | one line: returns that line's failure, or sets exactly its slice |
| Unmap.AnnotateUnmap | bin/basenji_data.py:321-368 | fails iff some line fails, with the first failure; otherwise a fresh `len(mseqs) x seq_length//pool_width` matrix whose entries are exactly the bins the lines mark (`AnnotatedAs`); the filter reads its rows through `RowsOf` |
| Unmap.RowsOf | bin/basenji_data.py:190 | the rows of the matrix as sequences, entry for entry |
| Unmap.UntouchedWindowKept | bin/basenji_data.py:186-190 | in the matrix `annotate_unmap` returns, a window no line maps to has mean 0 and is kept iff `unmap_t > 0` |
| Unmap.CoveredWindowDropped | bin/basenji_data.py:186-190 | in that matrix, a window wholly inside an unmappable region has mean 1 and is kept iff `unmap_t > 1` |
| Unmap.UnmapFilterAligned | bin/basenji_data.py:190-193 | the filter `UnmapFilter` keeps exactly the rows with mean below `unmap_t`, in order; windows, labels and rows stay aligned |
| Sharding.MergeAligned | bin/basenji_data.py:177-178 | the merge `MergeSplits` lists train, then valid, then test windows with matching labels, block-ordered |
| Sharding.SelectKeepsBlockOrder | bin/basenji_data.py:190-192 | the unmappability filter keeps the labels block-ordered |
| Sharding.IndexesOfCorrect | bin/basenji_data.py:256 | the index list `IndexesOf` holds exactly the windows with that label, increasing |
| Sharding.SplitBlockContiguous | bin/basenji_data.py:256-258 | with block-ordered labels, a split's windows are exactly its first to its last index |
| Sharding.ShardLoop | bin/basenji_data.py:260-292 | the loop returns the shard bounds as written, `ShardsAsWritten` |
| Sharding.CutAt | bin/basenji_data.py:260-292 | shard k starts k*n after the first index and ends at `min(start+n, cap)` |
| Sharding.CutCount | bin/basenji_data.py:264-292 | the loop makes ceil((last-first+1)/n) shards |
| Sharding.AsWrittenMissesLast | bin/basenji_data.py:262-292 | as written, the last shard ends at the split's last index, so no `[start, end)` range holds that index |
| Sharding.ShardExample130 | bin/basenji_data.py:262-292 | 130 windows, 50 per shard: (0,50), (50,100), (100,129) as written; (100,130) corrected |
| Sharding.ShardExample101 | bin/basenji_data.py:262-292 | 101 windows, 50 per shard: the last shard is the empty (100,100) |
| Sharding.ShardsConsecutive | bin/basenji_data.py:260-292 | corrected: shards abut, each holds n windows except the last, and they cover first..last |
| Sharding.ShardsPartition | bin/basenji_data.py:260-292 | corrected: every index of the split lies in exactly one shard, `(j-first)//n` |
| Sharding.AsWrittenVsIntended | bin/basenji_data.py:262-292 | the written shards equal the corrected ones except that the last ends one index early |
| Sharding.SplitJobsFail | bin/basenji_data.py:256-257 | a split's jobs fail exactly when no window has its label |
| Sharding.PlanWriteJobs | bin/basenji_data.py:255-292 | the loop over train, valid, test returns `WritePlan` |
| Sharding.WritePlanFails | bin/basenji_data.py:255-258 | the plan fails iff a split is absent, naming the first absent one |
| Sharding.WriteJobsWithinSplit | bin/basenji_data.py:255-292 | every window a job's range covers has that job's label |
| ReadJobs.NatToString | bin/basenji_data.py:218 | `'%d'` gives at least one decimal digit, two or more from 10 up |
| ReadJobs.NatToStringInjective | bin/basenji_data.py:218 | different numbers print differently |
| ReadJobs.CovFileInjective | bin/basenji_data.py:218-219 | each target writes its own `.h5` file |
| ReadJobs.PlanReadJobs | bin/basenji_data.py:216-239 | the loop returns `ReadPlan` |
| ReadJobs.ReadPlanSound | bin/basenji_data.py:216-232 | every job is for a target whose output is missing, reading that target's file into that output |
| ReadJobs.ReadPlanComplete | bin/basenji_data.py:221-232 | every target whose output is missing has a job |
| ReadJobs.ReadPlanOrdered | bin/basenji_data.py:216-239 | jobs come in increasing target order, at most one per target |
| ReadJobs.ReadPlanEmpty | bin/basenji_data.py:221-222 | the plan is empty iff every output exists |
| ReadJobs.ReadPlanRerun | bin/basenji_data.py:221-222 | once the planned outputs exist, replanning gives no job |
| TrainedRegions.KeepMask | bin/basenji_test_genes.py:227-231 | the loop keeps a sequence iff its overlap count is 0 |
| TrainedRegions.RenumberTranscripts | bin/basenji_test_genes.py:236-261 | the loop returns the transcript keep flags and the renumbered map `KeptMap` |
| TrainedRegions.IgnoreTrainedRegions | bin/basenji_test_genes.py:227-266 | sequences, map and target rows, each filtered by its mask |
| TrainedRegions.KeptMapSelect | bin/basenji_test_genes.py:239-256 | the new map is the renumbered entries selected by the transcript keep flags |
| TrainedRegions.KeptTranscriptsAligned | bin/basenji_test_genes.py:233-264 | every new entry is a kept transcript with its name and position; its new index points at the same one-hot sequence among the kept ones; the target row beside it is that transcript's |
| TrainedRegions.KeptIffNoOverlap | bin/basenji_test_genes.py:230-256 | a transcript survives iff its sequence overlaps no ignored region |
| TrainedRegions.RenumberMonotone | bin/basenji_test_genes.py:248 | new indices keep the order of the kept sequences and stay below the number kept |
| TrainedRegions.RankExample | bin/basenji_test_genes.py:250-253 | mask false, true, true, false maps sequence 1 to 0 and 2 to 1 |
| TrainedRegions.RenumberExample | bin/basenji_test_genes.py:246-256 | in that example, transcripts on sequences 1 and 2 are renumbered and the one on sequence 3 is dropped |
| Masks.SelectAt | bin/basenji_data.py:191-193 | a kept element lands at its rank in the selection |
| Masks.SelectFrom | bin/basenji_data.py:191-193 | every position of the selection is the rank of a kept index |
| Masks.SelectMembers | bin/basenji_data.py:191-193 | an element is selected iff it sits at a kept position |
| Masks.RankOfKept | bin/basenji_test_genes.py:248 | kept indices get strictly increasing ranks |

## Left out

- Reading the genome, the FASTA and the targets table; writing BED, `.npy` and TFRecord files; running `bedtools`, `basenji_data_read.py` and `basenji_data_write.py`; job execution through `util.exec_par` or `slurm`. Their outputs or the facts they establish are parameters.
- The command strings and job names built for each read and write job. Only the paths and indices they carry are modelled.
- Loading the chromosomes and splitting them at gaps (lines 113-117), turning them into contigs (lines 120-123), and `limit_contigs` (lines 126-127): not part of this model. The contig list is the input.
- The choice between percentage and chromosome mode by parsing `valid_pct_or_chr` and `test_pct_or_chr` as floats (lines 145-159). Both modes are modelled; the choice is the caller's.
- The random number generator and shuffles. The percentage split's draw is any split of positive probability; the shuffles at lines 172-174 are not modelled. The merge takes whatever order each split's list has.
- Splits.DivideContigsPct: `pct_abstain` is the default 0.2, not a parameter. The nucleotide counts are integers, as in the source. The aims, gaps, weights and probabilities are exact reals rather than floats.
- The report prints of both split functions. Only their division by the total, which fails when the total is 0, is kept.
- Tiling.DownSample: the product `sample_pct*len(contigs)` at line 135 is exact here. The source's float product can round down by one: `0.29*100` is `28.999999999999996`, so the source keeps 28 contigs where the model keeps 29.
- Tiling.ContigSequences: the stride step `int(stride*seq_length)` is a positive integer parameter. A step of 0 or less makes the source loop forever on any contig longer than `seq_length`; the model requires a positive step regardless.
- Sharding.ShardLoop: `seqs_per_tfr` is required to be positive, here and in `Sharding.PlanWriteJobs`. With 0 or a negative value and a non-empty split, `tfr_start` never passes `tvt_set_end` (lines 264 and 291), so the source loops forever.
- Unmap.AnnotateUnmap:
  - `pool_width > 0` and `seq_length >= 0` are required.
  - Every `bedtools -wo` line names an indexed window and overlaps it. `bedtools` guarantees this; the model requires it rather than raising `KeyError`.
  - Text parsing of the fields is not modelled.
  - A negative slice start or end is not given numpy's from-the-end meaning; slices are clipped to the row only. No trimmed start below 0 arises for a real overlap (`Unmap.BinRangeOrdered`).
- The floating-point division in `math.floor`/`math.ceil` and in `0.2 * pool_width` is exact arithmetic here (`5 * x < pool_width`). Rounding at very large coordinates is not modelled.
- The mean in the unmappability filter is an exact rational. A window with no bins has a NaN mean and is never kept.
- TrainedRegions.IgnoreTrainedRegions:
  - Writing the mid-region BED (lines 212-221) and running `bedtools intersect -c` are not modelled; the overlap counts are a parameter.
  - Numpy's negative indices are excluded by natural-number sequence indices. Sequence and target counts must match their masks, as numpy's boolean indexing demands.
  - An empty Python list turned into a numpy array is a float array, and indexing with it raises `IndexError`. This happens at line 234 when there are no sequences at all. It happens at line 264 when the transcript map is empty, even with sequences present. The model returns the empty selections in both cases.
- ReadJobs.PlanReadJobs: the existing files are a set of paths. Directory creation is not modelled.

## Findings

| source | as written | input that shows it | evidently intended | confidence | as-written member | corrected member |
|---|---|---|---|---|---|---|
| bin/basenji_data.py:262 | `tfr_end = min(tfr_start+seqs_per_tfr, tvt_set_end)`, also at line 292, where `tvt_set_end` is the split's last index, inclusive. Interior shards abut at `end == next start`, so `end` is exclusive, and the last window of every split falls in no shard | a split of 130 windows at indices 0..129 with `seqs_per_tfr` 50 gives (0,50), (50,100), (100,129), so index 129 is never written. With 101 windows the last shard is the empty (100,100) | `min(tfr_start+seqs_per_tfr, tvt_set_end+1)`, so the shards partition the split's indices | not executed; the write script's reading of `-e` is not part of this model | Sharding.AsWrittenMissesLast | Sharding.ShardsPartition |
