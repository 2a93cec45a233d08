# Verified model of the round-robin storage engine

The engine keeps, for every metric, a list of ring buffers of time buckets ("blocks"), from fine to
coarse. An update goes to the finest block; when a block moves on to a new bucket, its finished
bucket is rolled up into the next block. Queries walk the blocks from newest to oldest. Changed blocks
are written to the metric's file through a journal, and arrays of blocks are cached in memory.

This project models that engine in Dafny and proves what it is for: no sample is lost or counted twice
on its way through the blocks; each bucket is the exact summary of what was offered to it, in the first
two blocks of the raw samples of its period (in the second once the first has moved on), and in the
others too unless a sample was moved to an earlier time by a rollup; queries return those summaries; a crash at any point leaves every file as it
was before or after a flush, in a form that loads; and what is saved, journalled, cached or printed
comes back. Where the code falls short of that, the conditions below are exact.

## Modules

- `Times`, `Tuples`: alignment of timestamps, multiples of a period; the aggregates and their merges.
- `Options`, `Sequences`: an optional value; a sequence of one repeated element.
- `Rollup`: what one block and the cascade of blocks do, on values. The payload of a bucket is a
  parameter, so that the same definitions run on aggregates and on lists of raw samples.
- `History`: the cascade on raw samples: conservation, exact placement, order of the levels in time.
- `Summaries`: the cascade on aggregates stays in step with the one on samples.
- `Origins`: what the coarser blocks hold of the raw samples.
- `Blocks`, `Metrics`: the classes that update ring buffers in place, proved against `Rollup`.
- `Walkers`, `Rows`: the two query walkers, and what a GROUP BY answer guarantees.
- `Queries`, `Statements`, `BucketExtrema`, `RowPeriods`: end to end, from the samples recorded to the
  rows of a SELECT; minimum and maximum, and rows without GROUP BY, in the last two.
- `Files`, `Journals`, `Recovery`, `Disk`: writes into files, the journal's format and operations,
  flushing with crashes, and the layout of a metric's file.
- `Durability`: recovery and that layout together.
- `Lru`, `Caches`: the caches with their accounting.
- `Caching`, `CachedMetrics`: one block, and a whole metric, whose arrays are cached, evicted and
  flushed. As long as each flush keeps all data, none is lost that way and plain answers never change;
  GROUP BY answers are the same unless timestamps of empty slots were lost.
- `ReadBacks`: what queries see of a last block that was written in part.
- `Witnesses`, `Misplaced`: short runs from new metrics that reach the failures listed below.
- `Policies`, `Intervals`, `PolicyTexts`: retention policies, their validation, printer and parser.

The CHECK_AND_THROW conditions of the modelled methods are asserts or preconditions that callers
discharge, so the proofs show that they cannot fire. All of it holds for timestamps that are not
negative: statements parse them as unsigned numbers.

## What the code does that its own promises do not say

For each of these there is a lemma that says exactly when the code meets the property.

- From the third block on, a slot need not hold the samples of its period. A complete shift moves a block to
  any multiple of the first frequency, and a slot is rolled up into the slot that contains its start. What
  block k was offered below a time is exactly the raw samples below it, if and only if no block between the
  first one and block k rolled up a slot that the time lies strictly inside of and that held a sample from
  then or later (`Origins.OfferedIsRawIff`). Four samples in order are enough for a GROUP BY row that counts
  a sample of the next bucket (`Misplaced.SampleMoves`).
- Without GROUP BY a sample can be in two rows, of a finer and a coarser block (`Misplaced.SampleTwice`). The
  periods of the rows are disjoint if and only if no row of another block ends after the start of the row
  above it (`RowPeriods.RowsDisjointIff`).
- A GROUP BY row shows the exact minimum and maximum of its samples if and only if no empty slot of the
  bucket is older than one with data, or the values lie on both sides of 0 or include it
  (`BucketExtrema.RowExtremesOfSamples`). One positive sample on a new metric is enough to see a
  minimum of 0 (`Witnesses.GapSpoilsMinimum`).
- The last block is written up to max_pos only, and max_pos is raised only when the block is written:
  what lies above both max_pos and pos is lost when the block is read back (`Disk.BlockRoundTrip`).
  Late data is lost that way, and also samples in order when the block wraps between two flushes
  (`Witnesses.WrapLosesData`). Data that was written can be hidden as well: a walk over the slots stops at
  one that was not written if the query starts late enough. Every query sees the same data if and only if
  the whole array was written, or what has data behind position 0 was written and is not after timestamp 0
  (`ReadBacks.ShowsAllIff`); two samples in order reach that (`Witnesses.WrittenDataIsHidden`).
- An update that falls into the gap between the oldest slot and get_earliest_ts stamps slots without
  storing anything, and does not mark the block dirty. An eviction before the block is dirtied again
  loses the stamps, and only that and a flush of the last block that does not write them do
  (`Caching.StampsLostIff`, `CachedMetrics.ArraysSameIff`). The data stays, and so do plain answers
  (`CachedMetrics.CachedPlainAnswer`), but GROUP BY lets an empty slot hide the part of a coarser slot
  that it covers: the same SELECT can double its count because of an eviction
  (`Witnesses.EvictionChangesAnswer`).
- Recovery leaves the loaded journal in memory, so begin_file rejects the first dirty metric of the next
  flush and that metric is not saved (`Recovery.BufferFilledIff`, `Recovery.FlushSavesAllIff`,
  `Journals.LoadedIsBusy`, `Journals.BeginAfterRecovery`).
- The journal counts blocks and name bytes in 16 bits (`Journals.JournalRoundTrip`).
- A parsed interval is a 32-bit product that is not checked for overflow (`Intervals.ProductExactIff`).
- A policy with a frequency of zero is not rejected. The validation divides by it, if and only if all
  elements before it pass the checks (`Policies.DividesByZeroIff`, `Policies.ZeroFrequencyDivides`).
- A duration of zero at the end of a policy passes the validation (`Policies.ZeroDurationPassesLast`). It
  gives a block without slots (`Metrics.BlocksHaveSlotsIff`), which can neither be written nor loaded
  (`Disk.NoSlotsRejected`): create_metric fails when it saves the file, with the metric already in the
  map (src/rrdb/rrdb.cpp:562-581).

## Model

| member | source | states |
|---|---|---|
| `Tuples.SingleSummarizes` | src/rrdb/rrdb_metric_tuple.cpp:15-26 | Adding a value to an aggregate is merging the aggregate of that single value, which summarizes it exactly. |
| `Tuples.MergeSummarizes` | src/rrdb/rrdb_metric_tuple.cpp:28-39 | Merging summaries of two groups of values, unless exactly the second is empty, gives the exact count, sum, sum of squares, minimum and maximum of both together. |
| `Tuples.MergeEmptyExact` | src/rrdb/rrdb_metric_tuple.cpp:28-39 | Merging the empty aggregate leaves one with data unchanged if and only if 0 lies between its minimum and maximum. |
| `Tuples.MergeScaledPlausible` | src/rrdb/rrdb_metric_tuple.cpp:41-55 | Scaled merges with a factor that is not negative keep an aggregate that could come from weighted data: its sum lies between count times minimum and maximum and no spread is negative. |
| `Tuples.MergeIsScaledByOne` | src/rrdb/rrdb_metric_tuple.cpp:28-55 | The plain merge is the scaled merge with factor 1. |
| `Tuples.VarianceNonNegative` | src/rrdb/rrdb_metric_tuple.cpp:99-106 | The argument of sqrt is never negative, count times the sum of squares is at least the square of the sum, and the average lies between minimum and maximum. |
| `Tuples.AverageIsMean` | src/rrdb/rrdb_metric_tuple.cpp:99-106 | Of an exact aggregate the average is the mean of the values, and the argument of sqrt their mean squared distance from it. |
| `Times.NormalizedBrackets` | src/rrdb/rrdb_metric_block.h:149-151 | The normalized timestamp is the multiple of the frequency at or before the timestamp, less than a period away. |
| `Rollup.LocateBounds` | src/rrdb/rrdb_metric_block.cpp:101-175 | The bucket each regime of find_tuple selects contains the timestamp; the forward shift is shorter than the ring; where nothing is found the timestamp is older than the oldest slot. |
| `Rollup.LocateIff` | src/rrdb/rrdb_metric_block.h:130-147 | In timestamps alone: the six regimes follow one another without gap or overlap, and the walk that finds nothing is for the two periods before the oldest slot of the ring, from pos_ts - (count + 1) * freq on. |
| `Rollup.TooOldStep` | src/rrdb/rrdb_metric_block.cpp:148-175 | Data older than all slots is not stored and is handed on; it makes all slots set if it is not before pos_ts - (count + 1) * freq, and otherwise changes nothing. |
| `Rollup.RunIsPipeline` | src/rrdb/rrdb_metric.cpp:192-227 | Updating all blocks sample by sample equals feeding each block, once, the whole stream the block before it passed on. |
| `Rollup.RunAt` | src/rrdb/rrdb_metric.cpp:207-227 | After any run each block is the result of feeding a new block the stream that reaches it. |
| `History.TargetIsTheSlot` | src/rrdb/rrdb_metric_block.cpp:148-165 | A timestamp lies in exactly the slot that find_tuple selects, and in no other. |
| `History.FeedTracks` | src/rrdb/rrdb_metric_block.cpp:86-220 | After any stream, in any order, every slot of the window holds exactly the samples offered for its period: none lost, doubled or misplaced. |
| `History.StepConserves` | src/rrdb/rrdb_metric_block.cpp:101-175 | One update neither loses nor doubles a sample between the current slot and what is handed to the next block. |
| `History.RunConserves` | src/rrdb/rrdb_metric.cpp:192-227 | Over every run the current slots of the first k blocks and everything offered to block k are, as a multiset, exactly the samples recorded. |
| `History.RunTracks` | src/rrdb/rrdb_metric.cpp:192-227 | Every slot of every block holds exactly the samples offered to that block for the slot's period; a rolled-up slot is offered at its own timestamp. |
| `History.StepOrdered` | src/rrdb/rrdb_metric_block.cpp:101-175 | pos_ts never decreases, and what a block passes on is strictly older than its current slot. |
| `History.LevelsOrdered` | src/rrdb/rrdb_metric.cpp:206-227 | A later block's pos_ts is smaller than an earlier block's, or both are 0, and everything offered to it is older than the earlier block's current slot. |
| `Summaries.StepMatches` | src/rrdb/rrdb_metric_block.cpp:200-216 | An update on aggregates keeps every slot the exact summary of the slot's samples. |
| `Summaries.FeedTidy` | src/rrdb/rrdb_metric_block.cpp:101-129 | An empty tuple is rolled up only as the first thing a block passes on, so it meets only an empty slot. |
| `Summaries.SlotsAreExact` | src/rrdb/rrdb_metric.cpp:192-227 | In every reachable state each slot's count, sum, sum of squares, minimum and maximum are those of the samples offered to its block for its period, a rolled-up slot at its own timestamp; `Origins.CoarseSlotIsRaw` says when these are the raw samples of the period. |
| `Summaries.StoredVariance` | src/rrdb/rrdb_metric_tuple.cpp:99-106 | No slot ever has a negative variance, and its average lies between its minimum and maximum. |
| `Summaries.BlockAligned` | src/rrdb/rrdb_metric.cpp:204 | In every reachable state each block's pos_ts is a multiple of the first block's frequency, although a complete shift moves it to any timestamp. |
| `Summaries.BucketsNeverStraddle` | src/rrdb/rrdb_metric_block.cpp:110-144 | A bucket of the first block lies in one slot of a coarser block or outside it, never across its edge. |
| `Origins.StraysIff` | src/rrdb/rrdb_metric_block.cpp:101-129 | What a block has passed on has samples that are offered before a time and recorded at or after it, if and only if what it was offered has, or it rolled up a slot across that time. |
| `Origins.OfferedIsRawIff` | src/rrdb/rrdb_metric_block.cpp:101-129 | Below a time that the block before has left behind, block k was offered at least the raw samples, and exactly those if and only if no block between the first one and block k rolled up a slot that the time lies strictly inside of and that held a sample from then or later. |
| `Origins.CoarseSlotIsRaw` | src/rrdb/rrdb_metric.cpp:192-227 | A slot of a coarser block that the block before has left behind has the count, sum, sum of squares, minimum and maximum of the raw samples of its period, if no slot was rolled up across its edges. |
| `Origins.SecondBlockIsRaw` | src/rrdb/rrdb_metric.cpp:192-227 | Every slot of the second block that the first block has left behind is the exact summary of the raw samples of its period, without further condition. |
| `Misplaced.SampleMoves` | src/rrdb/rrdb_metric_block.cpp:101-112 | With the policy 1 for 2, 2 for 4, 4 for 40 and samples at 11, 12, 20 and 30, GROUP BY 4 over [8, 16) counts two samples in [8, 12) and none in [12, 16), where each holds one. |
| `Blocks.MetricBlock.constructor` | src/rrdb/rrdb_metric_block.cpp:20-41 | A new block has as many slots as asked for, also none; with slots it is an all-zero ring that stands for the empty window. |
| `Blocks.MetricBlock.WalkBack` | src/rrdb/rrdb_metric_block.cpp:148-167 | The backward walk stamps the slots it passes, finds the slot that contains the timestamp if there is one, and nothing else changes. |
| `Blocks.MetricBlock.ShiftTo` | src/rrdb/rrdb_metric_block.cpp:116-147 | The forward loop moves the window to the bucket that contains the timestamp in fewer steps than the ring has slots. |
| `Blocks.MetricBlock.FindTuple` | src/rrdb/rrdb_metric_block.cpp:86-176 | All four regimes on the circular array agree with the window model: new window, position, found slot and what is handed on. |
| `Blocks.MetricBlock.Update` | src/rrdb/rrdb_metric_block.cpp:178-220 | An update writes the unique bucket that contains the timestamp, or none; no runtime check fires. Data older than all slots leaves every value of the array alone, and stamps every slot with its own period if and only if it is not before pos_ts - (count + 1) * freq. |
| `Blocks.MetricBlock.Select` | src/rrdb/rrdb_metric_block.cpp:222-259 | The walk with its early break hands over the set slots that overlap the query, and says which never-set slots are reported. |
| `Blocks.ShiftInRange` | src/rrdb/rrdb_metric_block.cpp:131-144 | The forward loop takes at most count-1 steps. |
| `Blocks.OutCtxIsHanded` | src/rrdb/rrdb_metric_block.cpp:101-175 | The update context passed to the next block carries exactly what the window model hands on, and is Stop when that is nothing. |
| `Policies.Validate` | src/parser/retention_policy.cpp:49-62 | Validation accepts exactly the consistent policies; otherwise it stops at the first element that fails a check or has frequency 0, and says which. |
| `Policies.FaultIsFirst` | src/parser/retention_policy.cpp:49-62 | What stops the validation is at the first element that has frequency 0 or is inconsistent; all elements before it have positive frequencies and pass. |
| `Policies.DividesByZeroIff` | src/parser/retention_policy.cpp:52-55 | The validation divides by zero if and only if there is an element with frequency 0 and everything before it passes the checks. |
| `Policies.ZeroFrequencyDivides` | src/parser/retention_policy.cpp:52 | A first element with frequency 0 always makes it divide by zero, whatever follows. |
| `Policies.ZeroDurationPassesLast` | src/parser/retention_policy.cpp:52-60 | A duration of 0 passes the validation at the end of a policy, and nowhere else. |
| `Policies.FrequencyChain` | src/parser/retention_policy.cpp:55-57 | The pairwise check makes every frequency a multiple of every earlier one. |
| `Policies.TwoElements` | src/parser/retention_policy.cpp:58-60 | For a second frequency that is r times the first, and m slots in the first block, the policy is valid if and only if r is at most m. |
| `Policies.MustDivide` | src/parser/retention_policy.cpp:52-57 | In a valid policy every duration is a multiple of its frequency and every frequency one of the frequency before. |
| `Metrics.PolicyGivesPeriods` | src/rrdb/rrdb_metric.cpp:142-153 | A valid policy with positive durations gives every block a positive frequency and count; no duration is cut, and every frequency is a multiple of the first. |
| `Metrics.BlocksHaveSlotsIff` | src/rrdb/rrdb_metric.cpp:146-149 | The blocks of a valid policy all have slots if and only if no duration is 0. |
| `Metrics.Metric.constructor` | src/rrdb/rrdb_metric.cpp:122-161 | A new metric has one block per policy element, with its frequency and number of slots; if all have slots they are empty blocks. |
| `Metrics.Metric.GetPolicy` | src/rrdb/rrdb_metric.cpp:88-103 | The policy is read off the blocks. |
| `Metrics.Metric.Update` | src/rrdb/rrdb_metric.cpp:168-230 | The loop that alternates two contexts over the blocks performs the cascade on the aligned timestamp; last value and timestamp are kept for the newest update. |
| `Metrics.CascadeStep` | src/rrdb/rrdb_metric.cpp:206-227 | One turn of the loop leaves exactly the rest of the cascade to do, and stopping early is right when the context is Stop. |
| `Metrics.Metric.Select` | src/rrdb/rrdb_metric.cpp:238-273 | The loop over the blocks with its early exit hands the walker the selected tuples in order. |
| `Walkers.PlainWalker.Append` | src/rrdb/rrdb.cpp:122-131 | A tuple becomes a row if and only if it has data, lies in the query and is older than every row so far. |
| `Walkers.GroupByWalker.constructor` | src/rrdb/rrdb.cpp:151-176 | The sweep starts at the first grid point at or after the end of the query. |
| `Walkers.GroupByWalker.Append` | src/rrdb/rrdb.cpp:184-226 | Both loops terminate and afterwards the walker stands at the frontier, with rows and current row equal to the per-bucket reference for all tuples so far. |
| `Walkers.GroupByWalker.Split` | src/rrdb/rrdb.cpp:198-225 | A tuple of any width is split over the buckets it reaches by the part of it that lies in each and was not covered before. |
| `Walkers.GroupByWalker.Flush` | src/rrdb/rrdb.cpp:228-234 | The rows written are the reference answer, in which each bucket is computed on its own. |
| `Walkers.OverlapIsPiece` | src/rrdb/rrdb.cpp:200-205 | The overlap computed from clipped bounds is the uncovered part of the tuple in the bucket. |
| `Rows.CountedDisjoint` | src/rrdb/rrdb.cpp:196-220 | The periods counted for two tuples are disjoint and run from newest to oldest: no moment is counted twice. |
| `Rows.BucketsConserve` | src/rrdb/rrdb.cpp:184-226 | Over all buckets, count, sum and sum of squares equal the tuples' fields in proportion to their uncovered parts. |
| `Rows.AnswerConserves` | src/rrdb/rrdb.cpp:151-247 | The rows emitted add up to those proportional shares. |
| `Rows.RowsOnGrid` | src/rrdb/rrdb.cpp:170-176 | Rows have data and strictly decreasing timestamps on the grid of the query. |
| `Rows.RowInAnswer` | src/rrdb/rrdb.cpp:228-247 | A row is in the answer if and only if it is the aggregate of a bucket that has data. |
| `Rows.RowsPlausible` | src/rrdb/rrdb.cpp:208-215 | No GROUP BY row has a negative variance. |
| `Rows.RowExtremesExact` | src/rrdb/rrdb.cpp:208-215 | A row shows the exact minimum and maximum of the data it got if and only if no empty tuple was merged after data or 0 lies between them. |
| `Rows.GapSlotSpoilsMinimum` | src/rrdb/rrdb_metric_tuple.cpp:28-39 | One empty slot before a positive value in the same bucket makes the reported minimum 0. |
| `Queries.SetOverlapsExact` | src/rrdb/rrdb_metric_block.cpp:242-258 | A block hands over exactly its set slots that overlap the query, each once, strictly newest first. |
| `Queries.SelectedExact` | src/rrdb/rrdb_metric_block.cpp:242-258 | If the query starts at or after the block's frequency, never-set slots are not reported. |
| `Queries.SkippedIsEmpty` | src/rrdb/rrdb_metric.cpp:256-266 | A block that select passes over has no set slot in the query. |
| `Queries.SelectStopsSafely` | src/rrdb/rrdb_metric.cpp:258-262 | When select breaks at a block, nothing offered to a later block was as recent as the query. |
| `Queries.SelectionIsGood` | src/rrdb/rrdb_metric.cpp:254-270 | After any run of updates whatever a query selects meets the needs of both walkers. |
| `Queries.StoredIsFaithful` | src/rrdb/rrdb_metric.cpp:204 | Each slot of the first block has exactly the count, sum and sum of squares of the raw samples recorded in its period. |
| `Queries.FrontierReachesBegin` | src/rrdb/rrdb.cpp:196-220 | An aligned query that starts in the live slots of the first block is used up by that block. |
| `Queries.NothingMore` | src/rrdb/rrdb.cpp:196-225 | Once the sweep has reached the start of the query, further tuples change nothing. |
| `Queries.AlignedSelectExact` | src/rrdb/rrdb.cpp:184-247 | For any metric whose first block is exact, an aligned grouped query gives every bucket the fields of its samples. |
| `Queries.GroupedSelectExact` | src/rrdb/rrdb.cpp:288-304 | End to end: after any run of updates every bucket of a grouped query that is aligned and starts in the live slots of the first block has exactly the count, sum and sum of squares of the raw samples in it; coarser blocks add nothing. |
| `Queries.AnswerIsRaw` | src/rrdb/rrdb.cpp:288-304 | The rows of such a query, newest first, are exactly one for each bucket that contains samples, with the count, sum and sum of squares of those samples. |
| `BucketExtrema.RowExtremesOfSamples` | src/rrdb/rrdb.cpp:208-215 | The row of such a bucket shows the minimum and maximum of its raw samples if and only if no set slot of the bucket without data is older than one with data, or the values are not all on one side of 0. |
| `Statements.Create` | src/rrdb/rrdb_metric.cpp:122-161 | A created metric stores what the model stores for no samples. |
| `Statements.Update` | src/rrdb/rrdb_metric.cpp:168-230 | After an update the metric stores what the model stores for all samples so far and the new one. |
| `Statements.Select` | src/rrdb/rrdb.cpp:288-304 | SELECT gives no rows for an empty period, the GROUP BY answer, or, without GROUP BY, non-empty rows in the period in strictly decreasing time. Its grouped rows for an aligned query in the live slots are the raw ones: one for each bucket with samples, with their count, sum and sum of squares. |
| `Statements.RunPlain` | src/rrdb/rrdb.cpp:122-131 | The rows are exactly the tuples that are older than all earlier tuples with data in the query. |
| `Statements.FirstBlockIsShown` | src/rrdb/rrdb.cpp:122-131 | Without GROUP BY every slot of the first block with data that starts in the query is a row, whatever coarser blocks hold. |
| `RowPeriods.CoarseSlotSelected` | src/rrdb/rrdb_metric.cpp:250-268 | Every set slot of any block that overlaps the query is selected, after the tuples of the finer blocks, if no block up to it ends at or before the start of the query. |
| `RowPeriods.StopsAt` | src/rrdb/rrdb_metric.cpp:256-263 | The first block that ends at or before the start of the query ends the selection, whatever later blocks hold. |
| `RowPeriods.CoarseSlotShown` | src/rrdb/rrdb.cpp:122-131 | A slot with data of such a block that starts in the query is a row, unless a row of a finer block starts at or before it. |
| `RowPeriods.PlainRowIsRaw` | src/rrdb/rrdb.cpp:122-131 | Every row is a slot of some block; if that is one of the first block, or one that the block before has left behind and that nothing was rolled up across, the row summarizes the raw samples of its period. |
| `RowPeriods.RowsDisjointIff` | src/rrdb/rrdb.cpp:122-131 | The periods of all rows are disjoint if and only if each row that is of another block than the row above it ends before that row starts. |
| `Misplaced.SampleTwice` | src/rrdb/rrdb.cpp:122-131 | With the policy 1 for 2, 2 for 4 and samples at 10, 11 and 12, the rows over [10, 13) have counts 1, 1 and 2: one sample is in two rows. |
| `Statements.ShowPolicy` | src/rrdb/rrdb.cpp:306-311 | After any updates the text shown parses to the policy the metric was created with. |
| `Files.ApplyAgrees` | src/rrdb/rrdb_journal_file.cpp:99-105 | A cell that agrees in two files, or is overwritten, agrees after the journal is applied to both. |
| `Files.ReapplyRepairs` | src/rrdb/rrdb_journal_file.cpp:99-105 | Whatever part of the writes reached a file, in whole or torn blocks, applying all of them again gives the same file as an uninterrupted apply. |
| `Files.WriteHolds` | src/rrdb/rrdb_journal_file.cpp:99-105 | A block that no later block overlaps is found in the file afterwards. |
| `Files.DirtyWritesSuffice` | src/rrdb/rrdb_metric.cpp:490-502 | Writing the head and the dirty regions onto a file that has the clean ones gives a file that has the head and all regions. |
| `Journals.BytesRoundTrip` | src/rrdb/rrdb_journal_file.cpp:189-206 | A number that fits its field is read back from its little-endian bytes. |
| `Journals.NameRoundTrip` | src/common/utils.cpp:39-75 | A padded string whose padded size fits 16 bits is read back from what was written. |
| `Journals.JournalRoundTrip` | src/rrdb/rrdb_journal_file.cpp:132-214 | Saving over any older journal, longer or shorter, and loading gives the same file name, blocks and data if and only if there are fewer than 65536 blocks and the name is shorter than 65528 bytes. |
| `Journals.LoadsIff` | src/rrdb/rrdb_journal_file.cpp:132-173 | Loading gives a journal if and only if the file has it with all magic numbers, counts and offsets in place. |
| `Journals.HeaderBytes` | src/rrdb/rrdb_journal_file.cpp:189-194 | The file header in bytes. |
| `Journals.BlockHeaderBytes` | src/rrdb/rrdb_journal_file.cpp:85-91 | A block header in bytes: the offset in the metric's file, the one in the journal, and the size. |
| `Journals.NameBytes` | src/common/utils.cpp:57-75 | A name of three bytes as it is written: its size, the padded size, and zeros up to 8 bytes. |
| `Journals.DecodedFits` | src/rrdb/rrdb_journal_file.cpp:142-170 | Whatever is loaded fits the 16-bit counters of the format. |
| `Journals.JournalFile.Clear` | src/rrdb/rrdb_journal_file.cpp:49-55 | The buffer is empty again. |
| `Journals.JournalFile.BeginFile` | src/rrdb/rrdb_journal_file.cpp:58-67 | A file is begun only on a cleared buffer and with a name; otherwise nothing changes. |
| `Journals.JournalFile.Put` | src/rrdb/rrdb_metric.cpp:475-503 | What is written to the journal's stream is appended to its data. |
| `Journals.JournalFile.AddBlock` | src/rrdb/rrdb_journal_file.cpp:77-96 | A block starts in the journal where the block before it ends. |
| `Journals.PutAndAddWellFormed` | src/rrdb/rrdb_journal_file.cpp:77-96 | Writing data and adding a block of its size keeps the blocks contiguous and covering all data. |
| `Journals.JournalFile.Apply` | src/rrdb/rrdb_journal_file.cpp:99-105 | Applying performs the writes of all blocks, in order; which writes these are is said by AppendedWrites and SaveAndRecover. |
| `Journals.AppendedWrites` | src/rrdb/rrdb_journal_file.cpp:77-105 | Some bytes put and a block added for them with an offset are, when applied, one more write of those bytes at that offset. |
| `Journals.RecordAll` | src/rrdb/rrdb_journal_file.cpp:58-97 | Any list of writes that is recorded one by one is what the buffer stands for. |
| `Journals.SaveAndRecover` | src/rrdb/rrdb_journal_file.cpp:99-214 | Any list of writes that is recorded, saved over any older journal, cleared, loaded and applied is made to the file at its own offsets and in its order. |
| `Journals.JournalFile.Save` | src/rrdb/rrdb_journal_file.cpp:175-214 | Saving writes the encoded journal at the start of the file without truncating it. |
| `Journals.JournalFile.Load` | src/rrdb/rrdb_journal_file.cpp:132-173 | Loading succeeds exactly on a clear buffer and a well-formed file and restores what the file encodes. |
| `Journals.LoadedIsBusy` | src/rrdb/rrdb_journal_file.cpp:142-173 | A journal that loads leaves blocks in the buffer, so the buffer is not clear. |
| `Journals.BeginAfterRecovery` | src/rrdb/rrdb.cpp:379-390 | After loading and applying a journal begin_file fails; it succeeds once the buffer is cleared. |
| `Recovery.StepIsAtomic` | src/rrdb/rrdb.cpp:483-517 | Every step of flushing, crashing and recovering keeps the invariant, and only saving a journal changes what the files are worth: one file, at once, to its image after the flush. |
| `Recovery.RecoveredIsBeforeOrAfter` | src/rrdb/rrdb.cpp:371-390 | In every reachable state, with any number of crashes, also torn ones and during recovery, each metric file recovers to its image before or after a flush. |
| `Recovery.SettledFilesAreLogical` | src/rrdb/rrdb.cpp:379-390 | When the server is idle or between metrics, the files themselves are those images. |
| `Recovery.BufferFilledIff` | src/rrdb/rrdb.cpp:379-390 | In every run the buffer of an idle server is filled if and only if the server came up through a recovery with a journal and has not flushed a metric since. |
| `Recovery.FlushSaves` | src/rrdb/rrdb.cpp:487-511 | A flush without a crash saves the journals of exactly the dirty metrics, in order, without the first one if the buffer was filled at its start. |
| `Recovery.FlushSavesAllIff` | src/rrdb/rrdb.cpp:487-511 | A flush saves every dirty metric if and only if nothing is dirty or it is not the first one with something to do after such a recovery. |
| `Recovery.JournalFileIff` | src/rrdb/rrdb.cpp:513-515 | While the server is idle there is a journal file if and only if it came up through a recovery with one and no flush has ended since. |
| `Disk.SlotsRoundTrip` | src/rrdb/rrdb_metric_block.cpp:342-367 | Tuples are read back from what was written. |
| `Disk.HeadRoundTrip` | src/rrdb/rrdb_metric.cpp:530-574 | read_header gives back the status without the dirty flag, the number of blocks, the last value, its timestamp and the name that write_header wrote. |
| `Disk.HeadNeedsMagic` | src/rrdb/rrdb_metric.cpp:555-562 | A file is loaded only if it has the magic number and the version of a metric. |
| `Disk.HeaderAcceptedIff` | src/rrdb/rrdb_metric_block.cpp:292-336 | A block header is accepted if and only if its frequency and count are positive, its duration is their product, its positions are consistent, and it lies at its own offset with the right size. |
| `Disk.HeaderExample` | src/rrdb/rrdb_metric_block.h:36-54 | One block header and one tuple, field by field, in the order of the structures. |
| `Disk.DataAccepted` | src/rrdb/rrdb_metric_block.cpp:338-367 | Data is accepted only if the current slot has the timestamp of the header. |
| `Disk.BlockReadBack` | src/rrdb/rrdb_metric_block.cpp:261-367 | A written block passes every check of read_block, and its slots up to max_pos or pos come back, followed by zeros. |
| `Disk.NoSlotsRejected` | src/rrdb/rrdb_metric_block.cpp:263-266 | A block without slots can neither be written nor loaded. |
| `Disk.BlockRoundTrip` | src/rrdb/rrdb_metric_block.cpp:261-367 | A written block passes every check of read_block; its slots come back unchanged if and only if it is not the last block or has nothing above max_pos and pos. |
| `Disk.WrappedSlotIsLost` | src/rrdb/rrdb_metric_block.h:205-207 | Data in the slot before position 0 of the last block, late or from before a wrap, is lost when max_pos is still 0. |
| `Disk.RepeatedIsProduct` | src/rrdb/rrdb_metric_block.cpp:309-311 | The duration read_block expects is the product of frequency and count. |
| `Disk.RegionsDisjoint` | src/rrdb/rrdb_metric.cpp:146-153 | The regions create lays out follow the header and one another, so they are disjoint. |
| `Disk.RegionsInOrder` | src/rrdb/rrdb_metric.cpp:490-502 | Each journal block of a save stays inside its own region. |
| `Disk.SaveDirtyBlocks` | src/rrdb/rrdb_metric.cpp:459-523 | The dirty flag is cleared; the journal gets the metric's header and one block for each dirty block, and no block is dirty afterwards. |
| `Disk.HeadersLoad` | src/rrdb/rrdb_metric.cpp:319-326 | Skipping from header to header finds every block although the last one may be shorter than its region. |
| `Disk.IncrementalSaveSound` | src/rrdb/rrdb_metric.cpp:281-336 | After the dirty blocks are applied load_file, on the file alone, gives the status without the dirty flag, the last value and its timestamp, the name, and exactly the headers of all blocks in memory with max_pos raised to pos; every block's slots come back, for the last block under the exact zero-tail condition. |
| `Disk.SaveKeepsClean` | src/rrdb/rrdb_metric.cpp:490-502 | After a save the file is up to date for every block, so the next incremental save is sound again. |
| `Durability.RecoversToSaved` | src/rrdb/rrdb.cpp:371-390 | In every state of every run in which journals are made by save_dirty_blocks, with any crashes, each metric file recovers to one that load_file reads as the image saved last: the metric's own fields, all block headers, and the slots; the image changes only when a journal is saved. |
| `Durability.SettledFilesLoad` | src/rrdb/rrdb_metric.cpp:281-336 | When the server is idle or between metrics, the files themselves load like that. |
| `Lru.InsertedOrdered` | src/common/lru_cache.h:78-90 | Inserting keeps keys unique and the time order, and leaves all other entries alone. |
| `Lru.TouchedOrdered` | src/common/lru_cache.h:92-116 | Changing an access time keeps both orders, the value and all other entries. |
| `Lru.LookupOther` | src/common/lru_cache.h:118-129 | What is known of any other key does not depend on the entry. |
| `Lru.LatestIsLast` | src/common/lru_cache.h:108-116 | An entry used at the latest time so far is dropped last. |
| `Lru.LruCache.Insert` | src/common/lru_cache.h:78-90 | A new key is inserted behind equal times; a key that is there keeps its value. |
| `Lru.LruCache.Find` | src/common/lru_cache.h:92-106 | A hit gives the value, counts and marks the entry as used; a miss only counts. |
| `Lru.LruCache.Use` | src/common/lru_cache.h:108-116 | The entry, if there, is marked as used; no value changes. |
| `Lru.LruCache.Erase` | src/common/lru_cache.h:118-129 | The entry goes and its value is returned; all others stay in order. |
| `Lru.LruCache.EraseOldest` | src/common/lru_cache.h:144-152 | The entry with the smallest time goes. |
| `Caches.TotalTouched` | src/rrdb/rrdb_metric_tuples_cache.cpp:73-91 | Marking an entry as used does not change the memory in use. |
| `Caches.Limit` | src/rrdb/rrdb_files_cache.cpp:162 | The limit is the product of maximum and threshold, rounded down. |
| `Caches.TuplesCache.NotifyUsed` | src/rrdb/rrdb_metric_tuples_cache.cpp:73-81 | Marking a block as used changes neither what is cached nor the memory in use. |
| `Caches.TuplesCache.Find` | src/rrdb/rrdb_metric_tuples_cache.cpp:83-91 | A look-up gives the cached tuples and leaves the memory in use alone. |
| `Caches.TuplesCache.Insert` | src/rrdb/rrdb_metric_tuples_cache.cpp:93-114 | Used memory is the sum of the sizes afterwards; entries are dropped only when the new one would reach the maximum, and then the newest are kept. |
| `Caches.TuplesCache.Erase` | src/rrdb/rrdb_metric_tuples_cache.cpp:117-127 | Used memory falls by the size of the erased entry; the check never fires. |
| `Caches.TuplesCache.Purge` | src/rrdb/rrdb_metric_tuples_cache.cpp:136-157 | Purging drops the oldest entries until the memory in use and one byte more are within the maximum times the threshold, or nothing is left; without the last one dropped they would not be. It never drops an entry newer than one it keeps. |
| `Caches.TuplesCache.SetMaxUsedMemory` | src/rrdb/rrdb_metric_tuples_cache.cpp:165-174 | Entries are dropped only when the maximum is raised. |
| `Caches.FilesCache.Purge` | src/rrdb/rrdb_files_cache.cpp:153-168 | Purging drops the oldest files until their number and one more are within the maximum times the threshold, or none is left; with one more kept they would not be. |
| `Caches.FilesCache.OpenFile` | src/rrdb/rrdb_files_cache.cpp:187-242 | A known file gives its stream; after a miss the file is in, only the oldest are dropped, and only if the cache was full, and it holds at most max_size entries, whatever it held before. |
| `Caches.FilesCache.DeleteFile` | src/rrdb/rrdb_files_cache.cpp:244-267 | The stream of the file is dropped and no other. |
| `Caches.FilesCache.SetMaxSize` | src/rrdb/rrdb_files_cache.cpp:72-85 | Entries are dropped only when the maximum is raised. |
| `Caching.SameStep` | src/rrdb/rrdb_metric_block.cpp:178-220 | Blocks with the same data take an update in the same way and tell the next block the same. |
| `Caching.ReadsBack` | src/rrdb/rrdb_metric_block.cpp:261-290 | What a flush writes is read back as the same array exactly when nothing above max_pos was set. |
| `Caching.FlushReadsBack` | src/rrdb/rrdb_metric_block.cpp:261-290 | A flush that keeps all data is read back as the array, or, if it is the last block's and leaves out stamps of slots without data, as the array without the slots behind position 0. |
| `Caching.ImageIsSound` | src/rrdb/rrdb_metric_block.cpp:263-275 | A block whose checks hold in memory meets the conditions under which saving and loading is exact. |
| `Caching.MemoryIsDiskSize` | src/rrdb/rrdb_metric_tuples_cache.cpp:93-114 | The memory a tuple is accounted for is the size it has on disk. |
| `Caching.NewStoreExact` | src/rrdb/rrdb_metric_block.cpp:34-40 | A new block, whose array is not on disk, has the array of an empty permanent block, and no stamps that only the cache has. |
| `Caching.ActionAgrees` | src/rrdb/rrdb_metric_block.cpp:48-84 | One update, query, eviction or flush on the modified, cached or stored array does to the data what it does on one permanent array; an update hands on the same and a query gets the same tuples with data. |
| `Caching.CacheKeepsData` | src/rrdb/rrdb_metric_block.cpp:48-84 | Under any interleaving no check fires, every update hands on the same and every query gets the same tuples with data as from one permanent array, if each flush keeps all data. |
| `Caching.ExactStep` | src/rrdb/rrdb_metric_block.cpp:148-167 | One action keeps the array, timestamps of slots without data included, if and only if it is not an eviction of stamps that only the cache has, nor a flush that leaves stamps out which are not cached. Stamps are in the cache only from such a flush, or from an update that stamps slots of a clean block and finds none, until an update stores something. |
| `Caching.StampsLostIff` | src/rrdb/rrdb_metric_block.cpp:193-219 | Over a whole run the array is the permanent one after every action if and only if the block is never evicted while such stamps are pending and no flush leaves out stamps that are not cached. |
| `Caching.CacheIsTransparent` | src/rrdb/rrdb_metric_block.cpp:48-84 | In such a run everything is seen exactly as with one permanent array, empty tuples included. |
| `CachedMetrics.UpdateStoresAgree` | src/rrdb/rrdb_metric.cpp:192-227 | The update loop over cached blocks does to their data what the cascade does on permanent ones. |
| `CachedMetrics.PlainAnswerUnchanged` | src/rrdb/rrdb.cpp:122-131 | Whatever stamps were lost, SELECT without GROUP BY gives the same rows. |
| `CachedMetrics.MetricAgrees` | src/rrdb/rrdb_metric_block.cpp:48-84 | After any run of updates, queries, evictions and flushes every block has the data that the model stores for the samples recorded. |
| `CachedMetrics.CachedPlainAnswer` | src/rrdb/rrdb.cpp:288-304 | After any such run the rows of a plain SELECT are those of a metric that keeps all of its arrays. |
| `CachedMetrics.Projects` | src/rrdb/rrdb_metric.cpp:192-227 | Each block of a metric goes through the states of a block on its own that gets the updates, queries, evictions and flushes that reach it. |
| `CachedMetrics.CachedSelection` | src/rrdb/rrdb_metric.cpp:238-273 | If no block has lost stamps in that sense, every query gets exactly the same tuples, empty ones included. |
| `CachedMetrics.CachedGroupedAnswer` | src/rrdb/rrdb.cpp:288-304 | Then GROUP BY answers are the same too, and aligned ones over live slots are the rows that the raw samples ask for. |
| `CachedMetrics.ArraysSameIff` | src/rrdb/rrdb_metric_block.cpp:193-219 | All blocks have the permanent arrays all along if and only if none of them loses stamps. |
| `ReadBacks.WalkIsSelected` | src/rrdb/rrdb_metric_block.cpp:222-259 | The walk of select over an array, written for any array, gives on a window's array what the window model selects. |
| `ReadBacks.ShowsAllIff` | src/rrdb/rrdb_metric_block.cpp:242-258 | Every query gets the same tuples with data from the array that is read back if and only if the whole array was written, or what has data behind position 0 was written and is not after timestamp 0. |
| `Witnesses.EvictionChangesAnswer` | src/rrdb/rrdb_metric_block.cpp:193-219 | On a new metric with two blocks, samples at 10 and 12, a flush and a sample at 10 that stamps a slot of the clean first block: the row of [10, 12) has count 1 before the eviction of that block and 2 after it, whatever the values are. |
| `Witnesses.GapSpoilsMinimum` | src/rrdb/rrdb.cpp:208-215 | On a new metric one positive sample at the second slot gives a row with minimum 0. |
| `Witnesses.WrapLosesData` | src/rrdb/rrdb_metric_block.cpp:275-283 | Three samples in order fill a last block with three slots and bring it back to position 0; the flush that follows writes the newest one only, and the others are read back as zeros. |
| `Witnesses.WrittenDataIsHidden` | src/rrdb/rrdb_metric_block.cpp:242-258 | Two samples in order, at 1 and 3, with a flush in between: the second flush writes both, but a query for the one at 1 gets nothing from the array read back, because the zeroed slot before it ends the walk. |
| `Intervals.DigitsRoundTrip` | src/parser/interval.cpp:30-58 | The digits written for a number denote it. |
| `Intervals.NoLeadingZero` | src/parser/interval.cpp:30-58 | No digit is superfluous. |
| `Intervals.UnitRoundTrip` | src/parser/interval_grammar.h:36-51 | Of the ordered alternatives the one that was written is the first that matches, whatever follows except an s. |
| `Intervals.InUnitsIsWhole` | src/parser/interval.cpp:34-55 | The unit chosen is the largest that divides the interval, and none of it is lost. |
| `Intervals.IntervalRoundTrip` | src/parser/interval.cpp:15-58 | Parsing what was written gives the interval back, for every 32-bit interval. |
| `Intervals.ProductExactIff` | src/parser/interval_grammar.h:52-56 | A number and a unit parse to their product if and only if it fits 32 bits. |
| `Intervals.SecsMean` | src/parser/interval_grammar.h:36-51 | "v secs" and "v sec" mean v seconds. |
| `Intervals.MinsMean` | src/parser/interval_grammar.h:36-51 | "v mins" and "v min" mean 60 * v seconds, if that fits 32 bits. |
| `Intervals.HoursMean` | src/parser/interval_grammar.h:36-51 | "v hours" and "v hour" mean 60 minutes each. |
| `Intervals.DaysMean` | src/parser/interval_grammar.h:36-51 | "v days" and "v day" mean 24 hours each. |
| `Intervals.WeeksMean` | src/parser/interval_grammar.h:36-51 | "v weeks" and "v week" mean 7 days each. |
| `Intervals.MonthsMean` | src/parser/interval_grammar.h:36-51 | "v months" and "v month" mean 30 days each. |
| `Intervals.YearsMean` | src/parser/interval_grammar.h:36-51 | "v years" and "v year" mean 365 days each. |
| `Intervals.MinsWrap` | src/parser/interval_grammar.h:52-56 | A number of minutes that does not fit 32 bits in seconds loses 2^32 of them. |
| `Intervals.TooLarge` | src/parser/interval_grammar.h:33-35 | A number is a value if and only if it is below 2^32. |
| `Intervals.AnySpelling` | src/parser/interval_grammar.h:33-56 | Blanks before and after the number, or none, and the case of letters do not matter. |
| `Intervals.TextIs` | src/parser/interval.cpp:30-58 | The text written names the largest of year, month, week, day, hour and minute that divides the interval, in seconds, with the plural for more than one. |
| `PolicyTexts.PolicyWrite` | src/parser/retention_policy.cpp:35-47 | The loop writes all elements in order with separators between them. |
| `PolicyTexts.PolicyRoundTrip` | src/parser/retention_policy.cpp:18-47 | Parsing what was written gives the policy back, or the fault that validation finds, or, for the empty policy, a missing value. |
| `PolicyTexts.RoundTripIff` | src/parser/retention_policy.cpp:18-33 | The text gives the policy back if and only if it has an element and is valid. |
| `PolicyTexts.TextOfTwo` | src/parser/retention_policy.cpp:35-47 | Each element is written as "frequency for duration", and elements are separated by a comma and a blank. |
| `PolicyTexts.MinForDay` | src/parser/retention_policy.cpp:18-47 | "1 min for 1 day" is 60 seconds for 86400 seconds, in both directions. |

## Left out

- The servers, thread pool, signals, configuration, logging and the statement grammar: input and output around the engine.
- Text of result rows, CSV and memory sizes: printing without a parser to return through.
- Floating point: values are real numbers, so rounding, overflow and the value of sqrt are not modelled.
- 64-bit overflow of timestamps and offsets, and negative timestamps: timestamps are unbounded integers, and results are for those of at least 0.
- Threads: locked sections are atomic, and a flush is one step for the caching results; a reader between save_dirty_blocks and apply_journal is not modelled.
- A journal torn while it is saved: saving it is one step, since the format has no checksum; so are exceptions of the streams during a flush.
- Metrics dropped during a flush, and save_file with its rename: only incremental saves are modelled.
- Names, directories and the hashing of file names: files are known by name, and a metric's name is opaque data in its header.
- The journal's bytes in Durability: Journals has them, but values are real numbers there is no byte form of, so recovery is put together with the words of Disk and not with the bytes of Journals.
- A padded name size in a metric's file that is not a multiple of 8 bytes, which write_header never produces: it is reported as BadName.
- Padding and unused fields of the structures on disk, except where the journal writes them; a metric's file is a sequence of 8-byte words.
- Caching: GetTuples, update and flush are functions on values with explicit array identities, because a block there changes which array it owns; the in-place update itself is in Blocks.
- Disk: a metric that is saved is a value with a dirty flag per block instead of a class; the class with its arrays is in Blocks.
- Recovery: the step machine is written as a relation over states; the loops that write blocks are in Journals and Disk.
- Caching.CacheKeepsData: not about flushes of a last block that lose or hide data (ReadBacks.ShowsAllIff says which), nor about one that leaves out stamps while slots without data behind them are written.
- Statements.Create: the registry of metrics, its lock and the error for a name that is there are not modelled.
- Statements.Update: the creation of a missing metric with the default policy is not modelled.
- Caches.FilesCache.OpenFile: opening, which may fail, is a parameter, and the lock is not released between the look-up and the insertion, so another thread's insertion in between is not covered.
- Caches.TuplesCache.Purge: the threshold lies between 0 and 1. The configuration also takes a negative one; its product is then converted to an unsigned size, for which C++ defines no result.
- Caches.FilesCache.Purge: the same holds for the threshold of the files cache.
- Metrics.Metric.constructor: takes positive frequencies; with a frequency of 0 the source has divided by it before a block exists.
- Metrics.Metric.Update: like all operations after the creation, it is about blocks with slots; a block of a zero duration is covered by Metrics.BlocksHaveSlotsIff and Disk.NoSlotsRejected only.
- Queries.GroupedSelectExact: minimum and maximum are in BucketExtrema.RowExtremesOfSamples.
- Policies.Validate: a division by zero ends the process, which the model gives as the result DividesByZero.
