# Verified model of the relocation runtime and its benchmark tooling

This Dafny project models the algorithmic core of the repository and proves, for all inputs, what
that code is for. It has four parts.

**The relocation runtime** (`libreloc/`). A bound plan is a list of extents with a source and a
destination stride per axis, and optional pads. `Relocation` gives a plan its meaning as a list of
element moves; `Plan.Image` gives it a second, independent meaning: what index arithmetic says each
element of a packed destination must be. The executors are imperative methods proved against the
moves for any strides, and on packed destinations the moves are proved to produce the image. From
there the project proves that the blocked transpose kernel computes what the generic walker computes;
when exactly threaded execution equals serial execution for every interleaving; when exactly D2H
undoes H2D; that `bind()`'s axis coalescing keeps every move in order and every packed plan canonical;
that both staged pipelines, serialized schedules included, deliver in every run, and that runs end;
and exactly when the pipeline's output is byte-identical to the executor's. The pipelines are state
machines in which copies land one element at a time, at any time.

**Plan construction and admission** (`bench/rtrack/plans.h`, `libreloc/python/PyPrefold.cpp`).
Mixed-radix lemmas show that packed strides, in some axis order, address every element exactly
once. They carry the plan builders, the odometer of the tests and the pre-fold admission check. For
that check, success is proved equivalent to its mathematical conditions, with 64-bit overflow
written out.

**Stateful tooling**: the exclusive-time profiler, the two-slot Torch queue, and the installer with
a failure possible at every step.

**Measurement code**: three interval sweeps against the set of covered instants, percentiles and
gates, crossings, the symbol parser, the process-tree audit and the transfer schedule.

## Layout

| file | about |
|---|---|
| `Common`, `MixedRadix`, `Relocation`, `Plan` | shared vocabulary; positional numbers; moves and what applying them does; plans, pads and the image |
| `Interleaving`, `Threads` | the last write to an element; workers that interleave; threaded H2D |
| `Executor`, `Scatter`, `Transpose`, `Gather`, `Execute`, `Inverse` | the CPU executors in both directions, the fast transpose, windows, whole plans, the round trip |
| `Chunking`, `Staging`, `Pipeline`, `Identical`, `InversePipeline` | chunk schedules, what their windows write, the two staged pipelines, and when the first is byte-identical to H2D |
| `Coalesce`, `Binding`, `Strides`, `Builders`, `Odometer`, `BufferViews` | axis merging, plan assembly, bijective and injective strides, workload plans, the carry odometer, dense views |
| `Int64`, `Prefold` | 64-bit arithmetic and the pre-fold admission check |
| `Sorting`, `Intervals`, `OrderStats`, `Crossing` | sorting, interval measure, percentiles and gates, the first crossing |
| `Phases`, `TorchQueue`, `Installer` | the three stateful protocols |
| `Symbols`, `ProcessTree`, `TransposeSchedule` | the symbol parser, the process audit, the Python mirror of the chunk policy |

## Where the code falls short of a stated property

Each case is a lemma or method with a concrete input, next to the condition, which is exact.

- `prefold_s8` adds 1 to the largest source offset without an overflow check
  (`libreloc/python/PyPrefold.cpp:133`). `Prefold.PrefoldS8` says exactly when that addition
  overflows, and `Prefold.UncheckedAdditionOverflows` gives a two-element plan. The model carries the
  two's-complement wrap of the sum and shows that no such plan is admitted.
- The installer's `previous` link is replaced before the `try` block that rolls it back
  (`build_tools/install_sym.py:219-221`). `Installer.RollbackIsExact` says exactly when a failed
  activation leaves `previous` changed, and `Installer.InterruptedRename` exhibits it.
- If `replace_link` raises after it has renamed `current`, the handler takes the record of the replaced
  environment back although the switch happened. `Installer.RecordIsExact` says exactly when, and
  `Installer.LostRecord` exhibits it.
- `crossing` does not report the first point at which the curve is 1 when its first two samples are
  both exactly 1. `Crossing.CrossingIsFirst` is an equivalence, and `Crossing.LateCrossing` exhibits it.
- The process audit makes ten passes. `ProcessTree.CompleteExactly` says in terms of the table when
  ten are enough, and `ProcessTree.TenPassesMissOne` is a table on which they are not.
- `executeH2DPipelined` is documented to be byte-identical to `executeH2D`
  (`libreloc/include/reloc/Pipeline.h:3-6`). On a plan that leaves gaps in its windows it copies stale
  staging elements into them. `Identical.IdenticalExactly` says exactly when every run is identical, and
  `Identical.StaleElement` is a plan, within what `bind()` may return, for which every schedule fails.
- `executeH2DThreaded` is documented never to race. Its row test can pass on a hand-built padded plan
  with a negative stride, which `bind()` never returns. `Threads.RowsAgreeExactly` says exactly when the
  interleaving does not matter, `Threads.UsualPlansAgree` which plans that covers, and
  `Threads.NegativeStridesCollide` gives a plan and two schedules that end differently.
- D2H does not undo H2D when the last cell to read an element is not the last to write where it goes.
  `Inverse.InvertibleExactly` says exactly when it does, `Inverse.InjectiveWriters` what that means when
  no element is read twice, and `Inverse.SharedDestination` exhibits a failure.
- `fillDst` is documented to fill the whole physical destination
  (`libreloc/include/reloc/Execute.h:39-42`); it fills as many elements as there are physical cells. On a
  gapped destination pad cells can lie beyond those (`Execute.PadCell`, `Execute.GappedPadKept`).
- The products of `prefoldArtifact` are not checked for overflow. `Prefold.PrefoldArtifact` says exactly
  what it accepts if they wrap, and `Prefold.WrappedProductAccepted` is a plan it should refuse.
- The block sweep of `bench/beat_torch/analyze.py` measures the union exactly when no inverted
  interval opens a block (`Intervals.BlockUnion`, `Intervals.InvertedBlockIsNegative`); `union_ns`
  ignores such intervals.

## Model

| member | source | states |
|---|---|---|
| `MixedRadix.UnrankOfOffset` | libreloc/python/PyPrefold.cpp:105-113 | under packed strides an offset determines its multi-index, and lies in [0, product of extents) |
| `MixedRadix.OffsetOfUnrank` | libreloc/python/PyPrefold.cpp:105-113 | under packed strides every number in [0, product of extents) is the offset of a multi-index |
| `MixedRadix.PackedOffsetIsLexicographic` | bench/rtrack/RtrackTest.cpp:36-56 | packed offsets are ordered exactly as multi-indices are lexicographically |
| `MixedRadix.PackedStridesAt` | libreloc/python/PyPrefold.cpp:105-113 | the packed stride of axis k is the product of the extents after k |
| `Relocation.ApplyLands` | libreloc/src/Execute.cpp:116-134 | if no destination is written twice, every move's element ends where it was put |
| `Relocation.ApplyAnyOrder` | libreloc/src/Pipeline.cpp:65-71 | if no destination is written twice, any interleaving of the same moves writes the same buffer |
| `Relocation.MovesByRank` | libreloc/src/Execute.cpp:41-58 | the k-th move of a plan is the one of the multi-index of rank k |
| `Relocation.BoxIsVisited` | libreloc/src/Execute.cpp:41-58 | every multi-index of a plan is moved, at its rank |
| `Relocation.VisitedIsInBox` | libreloc/src/Execute.cpp:41-58 | every move of a plan belongs to a multi-index of the box |
| `Plan.BlockMovesDistinct` | libreloc/include/reloc/Execute.h:60-67 | cells placed in a packed block, pads included, never share a destination |
| `Plan.GatherAt` | libreloc/include/reloc/Execute.h:39-49 | gathering writes the right source element inside the box and nothing outside it |
| `Plan.PadWidthSplits` | libreloc/src/Execute.cpp:107-109 | with at most one pad region per axis, the widths fillDst adds up are the leading plus the trailing pad |
| `Interleaving.LastWriteIs` | libreloc/src/Execute.cpp:54-57 | the last write to an element is a move to it with no later one; there is none exactly if no move goes there |
| `Interleaving.ApplyIsLastWrite` | libreloc/src/Execute.cpp:54-57 | after any moves, an element holds what the last write put there, or its old value |
| `Interleaving.ShuffleLastWrite` | libreloc/src/Execute.cpp:184-215 | what an interleaving leaves at an element, one of the workers left there |
| `Interleaving.ShuffleSame` | libreloc/src/Execute.cpp:157-173 | if workers that write the same element leave the same thing there, every interleaving that keeps each worker's order has the effect of running them in turn |
| `Interleaving.RunWorkers` | libreloc/src/Execute.cpp:184-215 | threads that take steps in any order end as if run one after another |
| `Executor.CopyRun` | libreloc/src/Execute.cpp:31-33 | a contiguous run performs exactly its moves |
| `Executor.StridedRun` | libreloc/src/Execute.cpp:35-37 | the scalar loop performs exactly the moves of its arithmetic progression |
| `Executor.CopyRun1D` | libreloc/src/Execute.cpp:22-39 | both branches perform the same moves of the innermost axis, shifted by its pad |
| `Executor.WalkOneRow` | libreloc/src/Execute.cpp:54-57 | the rows up to i + 1 are the rows up to i followed by one deeper walk |
| `Executor.Walk` | libreloc/src/Execute.cpp:41-58 | the recursive walker performs exactly the plan's moves in row-major order |
| `Executor.LeadingPads` | libreloc/src/Execute.cpp:126-128 | the pad loop computes every axis's leading pad |
| `Scatter.ScatterRun1D` | libreloc/src/Execute.cpp:61-75 | the mirrored innermost run reads the destination and writes the source |
| `Scatter.ScatterWalk` | libreloc/src/Execute.cpp:78-90 | the mirrored walker performs exactly the walker's moves backwards |
| `Scatter.ScatterChunk` | libreloc/src/Execute.cpp:218-229 | the rows [begin, end) are scattered back from a possibly rebased destination |
| `Transpose.PaintCell` | libreloc/src/Transpose.cpp:96-99 | one iteration of the innermost loop completes exactly one cell |
| `Transpose.TransposeBlock` | libreloc/src/Transpose.cpp:93-98 | the two inner loops complete exactly one block |
| `Transpose.Transpose32Scalar` | libreloc/src/Transpose.cpp:87-101 | the blocked kernel transposes the whole window and touches nothing else |
| `Transpose.TransposedAt` | libreloc/src/Transpose.cpp:96-99 | cell (r, c) of the window holds source element c * stride + r |
| `Gather.SingletonTranspose` | libreloc/src/Transpose.cpp:129-133 | a transpose with a singleton dimension is one contiguous run |
| `Gather.TransposedIsApply` | libreloc/src/Transpose.cpp:114-141 | the blocked kernel's result is what the generic moves of the same rows write |
| `Gather.TryGatherTranspose32` | libreloc/src/Transpose.cpp:114-141 | recognises exactly the dense fp32 transposes; then equals the generic moves, else touches nothing |
| `Gather.GatherChunk` | libreloc/src/Execute.cpp:116-134 | fast path or walker, the result is that of the plan's moves of rows [begin, end) |
| `Gather.WindowIsBlock` | libreloc/src/Pipeline.cpp:39-46 | a rebased window of outer rows is a smaller plan in a smaller packed block |
| `Gather.WindowCell` | libreloc/src/Pipeline.cpp:195-207 | after fill and gather, each staged element is the image element at its device offset, whatever the buffer held |
| `Gather.WindowImage` | libreloc/src/Pipeline.cpp:195-207 | a staged window is a slice of the destination image |
| `Execute.WindowFits` | libreloc/include/reloc/Execute.h:43-51 | every access of a staged window of a canonical plan is in bounds |
| `Execute.PhysicalCount` | libreloc/src/Execute.cpp:107-112 | the two loops compute the number of physical elements, pads included |
| `Plan.LowBytesIs` | libreloc/src/Execute.cpp:17-20 | the bytes copied for a pad element are the fill pattern modulo 256^elementSize, so a pattern that fits is kept whole |
| `Execute.FillDst` | libreloc/src/Execute.cpp:94-114 | with pads the first Product(padded extents) elements become the fill pattern modulo 256^elementSize, without them nothing changes |
| `Execute.PadCell` | libreloc/include/reloc/Execute.h:39-42 | a physical cell that no move writes is filled exactly if it lies among those elements or holds the pattern already |
| `Execute.GappedPadKept` | libreloc/src/Execute.cpp:101-113 | on a gapped destination a pad cell can lie beyond them and keep its old value |
| `Execute.WholeImage` | libreloc/src/Execute.cpp:136-143 | fill followed by all moves gives the image |
| `Execute.ExecutedAt` | libreloc/include/reloc/Execute.h:64-67 | each element holds the source element of the last cell that maps to it, else the fill pattern or its old value |
| `Execute.ExecuteH2D` | libreloc/src/Execute.cpp:136-143 | fill, then all moves, for any strides; on a packed destination that is the image |
| `Threads.RangesApart` | libreloc/src/Execute.cpp:157-173 | passing the test keeps any two ranges of rows apart, if no axis of more than one cell runs backwards |
| `Threads.UsualPlansAgree` | libreloc/src/Execute.cpp:157-173 | every plan without pads that stays in bounds, and every plan with pads no axis of which runs backwards, has rows that agree if it passes the test |
| `Threads.RowsAgreeExactly` | libreloc/src/Execute.cpp:157-173 | with a thread per row and distinct source elements, every interleaving ends as executeH2D does exactly if rows that write the same element leave the same thing there |
| `Threads.NegativeStridesCollide` | libreloc/src/Execute.cpp:174-178 | a padded plan within bounds that passes the test, and two schedules of its rows that end differently |
| `Threads.WorkersInTurn` | libreloc/src/Execute.cpp:184-194 | the ranges handed to the workers, one after another, write what all the rows write |
| `Threads.ParallelGather` | libreloc/src/Execute.cpp:157-173 | if rows agree, workers that divide them may interleave in any way |
| `Threads.SumSpan` | libreloc/src/Execute.cpp:174-177 | the loop computes the reach of one row |
| `Threads.ValidRowsDisjointExactly` | libreloc/src/Execute.cpp:174-178 | the test passes exactly if every valid cell of a row lies before the next row's first element |
| `Threads.Dispatch` | libreloc/src/Execute.cpp:186-191 | the ranges handed out divide all rows, also when the loop stops early, and none is more than a fair share, rounded up |
| `Threads.ExecuteH2DThreaded` | libreloc/src/Execute.cpp:145-216 | test, fallback and threads as code: for every plan whose rows agree if it passes the test, exactly what executeH2D makes of the destination |
| `Execute.SwappedMoves` | libreloc/include/reloc/Execute.h:69-77 | swapping the roles of the two stride vectors reverses every move |
| `Execute.ExecuteD2H` | libreloc/src/Execute.cpp:231-234 | performs the role-swapped moves of the whole plan, for any strides |
| `Inverse.ComesBack` | libreloc/include/reloc/Execute.h:69-77 | element by element, what D2H writes from a device that every cell reached |
| `Inverse.InvertibleExactly` | libreloc/include/reloc/Execute.h:69-77 | every element read ends up back in its place exactly if the last cell to read any element is the last to write where it goes |
| `Inverse.InjectiveWriters` | libreloc/include/reloc/Execute.h:69-77 | plans no two cells of which share a destination are such plans, and if no two cells share a source there are no others |
| `Inverse.RoundTrip` | libreloc/include/reloc/Execute.h:69-77 | D2H after H2D restores every element such a plan reads, and a source of distinct elements only for such a plan |
| `Inverse.SharedDestination` | libreloc/include/reloc/Execute.h:69-77 | two cells with one destination: what comes back is not what was sent |
| `Inverse.ImageRoundTrip` | libreloc/include/reloc/Execute.h:69-77 | packed plans restore every element they read from their image |
| `Chunking.RowChunksCover` | bench/rtrack/chunking.h:28-38 | chunks are nonempty, in range, fit staging; row i is in exactly chunk i / rowsPerChunk; staging is at most max(chunkBytes, rowBytes), and one more row would exceed chunkBytes unless a chunk has all rows |
| `Chunking.ByteChunksCover` | bench/rtrack/chunking.h:45-51 | byte chunks tile the buffer; all but the last are chunkBytes long, unless there is only one |
| `Chunking.CutRows` | libreloc/src/ChunkSchedule.cpp:72-87 | the cutting loop yields ceil(rows / per) chunks with the stated row, valid-row and byte ranges |
| `Chunking.PadSummary` | libreloc/src/ChunkSchedule.cpp:17-30 | the pad prologue computes the padded extents and the outer axis's own pads |
| `Chunking.ScheduleFillsTarget` | libreloc/src/ChunkSchedule.cpp:55-90 | chunks are as large as the caller's size, or else the clamped eighth of a buffer's share, allows: one more row would exceed it unless one chunk has all rows |
| `Chunking.PlanChunks` | libreloc/src/ChunkSchedule.cpp:9-90 | one whole chunk exactly if the conservative stride test fails, else the cut of the padded rows, with every offset and size, into chunks that fill the caller's or the clamped target |
| `Chunking.CanonicalDisjoint` | libreloc/src/ChunkSchedule.cpp:32-39 | the outer rows of a canonical plan are disjoint, so it is never serialized |
| `Chunking.ScheduleTiles` | libreloc/src/ChunkSchedule.cpp:72-88 | the chunks contain every physical row and fit maxChunkBytes |
| `Staging.RowsDisjointExactly` | libreloc/src/ChunkSchedule.cpp:32-39 | the stride test passes exactly if every physical cell of a row lies before the next row's first element |
| `Staging.PhysicalTargets` | libreloc/src/ChunkSchedule.cpp:32-39 | passing the test, rows write only inside their own physical rows, pads included |
| `Staging.WindowLastWrite` | libreloc/src/Pipeline.cpp:195-207 | inside a window, the last write of the whole plan is the last write of the staged rows |
| `Staging.StageFits` | libreloc/include/reloc/Execute.h:43-51 | every access of a staged window is in bounds, for packed, gapped and serialized plans |
| `Staging.ScheduleStageable` | libreloc/src/ChunkSchedule.cpp:9-90 | whatever planChunks returns, serialized or not, is what both pipelines assume, and its byte offsets and sizes are what they copy |
| `Chunking.RowChunksTile` | bench/rtrack/chunking.h:28-38 | the benchmark's row chunks tile an unpadded plan |
| `Pipeline.StageIsRight` | libreloc/src/Pipeline.cpp:195-207 | staging any chunk over any stale buffer gives right values for its device offsets |
| `Pipeline.ParallelStage` | libreloc/src/Pipeline.cpp:48-63 | in an unserialized schedule, threads gathering one chunk may interleave in any way |
| `Pipeline.HostKeepsInv` | libreloc/src/Pipeline.cpp:189-225 | staging and submitting a chunk keeps the invariant |
| `Pipeline.LandKeepsInv` | libreloc/src/Pipeline.cpp:214-215 | an element of any pending copy may land at any time |
| `Pipeline.CompleteKeepsInv` | libreloc/src/PinnedBufferPool.cpp:69-79 | completing a copy, which acquire waits for, keeps the invariant |
| `Pipeline.RunKeepsInv` | libreloc/src/Pipeline.cpp:163-232 | the invariant holds after every run |
| `Pipeline.DrainedDelivers` | libreloc/src/Pipeline.cpp:226-231 | in every run, a drained pipeline, serialized or not, has delivered every cell and fill and left the elements outside its windows alone |
| `Identical.IdenticalExactly` | libreloc/include/reloc/Pipeline.h:3-6 | the output is identical to executeH2D's in every run exactly if each element that no cell writes is left alone by both, filled by both, or full already |
| `Identical.DrainedIsExecuted` | libreloc/include/reloc/Pipeline.h:28-36 | under that condition every drained run ends with what executeH2D makes of the same destination |
| `Identical.SomeRunDiffers` | libreloc/src/Pipeline.cpp:24-36 | each element that violates it differs in some drained run |
| `Identical.DenseIsIdentical` | libreloc/test/PipelineTest.cpp:135-143 | destinations dense in some axis order, column-major ones included, meet the condition |
| `Identical.PackedIsImage` | libreloc/test/PipelineTest.cpp:62-77 | on a row-major packed destination, pads or not, every drained run leaves exactly the image |
| `Identical.StaleElement` | libreloc/src/Pipeline.cpp:196-215 | a gapped plan: under every schedule of planChunks some run copies a stale staging element over a destination element that executeH2D leaves alone |
| `Pipeline.TilesAnyOrder` | libreloc/src/Pipeline.cpp:189-225 | coverage does not depend on the submission order |
| `Pipeline.RowChunksValid` | bench/rtrack/chunking.h:28-38 | the benchmark's row chunks, submitted in any order, are a valid transfer |
| `Pipeline.StagedEqualsWalk` | bench/rtrack/RtrackTest.cpp:260-266 | in every drained run, chunked staging through rebased buffers delivers what one whole walk writes |
| `Pipeline.NoDeadlock` | libreloc/src/PinnedBufferPool.cpp:69-89 | until it is drained, some step gets something done |
| `Pipeline.RunsEnd` | libreloc/src/Pipeline.cpp:189-231 | runs whose every step gets something done are bounded, and one that cannot go on is drained |
| `Pipeline.RunToEnd` | libreloc/src/Pipeline.cpp:189-231 | every run can be continued until the pipeline is drained |
| `InversePipeline.WindowScatters` | libreloc/src/Pipeline.cpp:113-126 | scattering a staged chunk is scattering its rows from the device image |
| `InversePipeline.SubmitKeepsInv` | libreloc/src/Pipeline.cpp:128-155 | with at most nBuffers chunks outstanding, a new copy never targets an unscattered buffer |
| `InversePipeline.ScatterKeepsInv` | libreloc/src/Pipeline.cpp:113-126 | scattering the oldest landed chunk extends the restored rows by that chunk's |
| `InversePipeline.RunKeepsInv` | libreloc/src/Pipeline.cpp:91-159 | the invariant of the inverse pipeline holds after every run |
| `InversePipeline.DrainedIsScatter` | libreloc/src/Pipeline.cpp:156-158 | in every run, serialized or not, once all is scattered the source is what synchronous D2H writes |
| `InversePipeline.SentComesBack` | libreloc/src/Pipeline.cpp:91-159 | what was delivered comes back for plans whose last readers win, and other source elements keep their value |
| `InversePipeline.NoDeadlock` | libreloc/src/Pipeline.cpp:128-158 | until all is scattered, some step gets something done |
| `InversePipeline.RunsEnd` | libreloc/src/Pipeline.cpp:128-158 | runs whose every step gets something done are bounded, and one that cannot go on has scattered every chunk |
| `InversePipeline.ScheduleIsConsecutive` | libreloc/src/ChunkSchedule.cpp:72-87 | the runtime's schedule is the sequence of windows the inverse pipeline assumes |
| `InversePipeline.WholeIsConsecutive` | libreloc/src/ChunkSchedule.cpp:41-52 | so is the single chunk of a serialized schedule |
| `InversePipeline.ParallelScatter` | libreloc/src/Pipeline.cpp:65-71 | if source offsets are injective, workers may scatter a chunk in any interleaving |
| `Coalesce.MergePreservesMeaning` | libreloc/src/Bind.cpp:270-288 | merging two contiguous axes keeps every move and their order |
| `Coalesce.CoalesceAxes` | libreloc/src/Bind.cpp:262-288 | the loop ends with no unpadded neighbours contiguous on both sides whose products are representable, unchanged moves and element count, and correct absorbed counts |
| `Coalesce.AbsorbsMerge` | libreloc/src/Bind.cpp:281-285 | a merge adds the two absorbed counts and multiplies the extents |
| `Coalesce.AbsorbedTotal` | libreloc/src/Bind.cpp:289-295 | the absorbed counts add up to the original rank, so the index map is total |
| `Coalesce.MergeKeepsPacked` | libreloc/src/Bind.cpp:270-288 | merging keeps a packed destination packed, over as many elements |
| `Binding.Assemble` | libreloc/src/Bind.cpp:319-337 | fails exactly if the byte count is not a 64-bit integer, naming a real overflow, else assembles the plan of the axes |
| `Binding.AssembledMeans` | libreloc/src/Bind.cpp:319-337 | the assembled plan has the axes' extents, strides, pads, byte count and fill, and makes exactly their moves |
| `Binding.BindAxes` | libreloc/src/Bind.cpp:262-337 | coalescing and assembling fails exactly if the uncoalesced byte count is not a 64-bit integer, and keeps every move; a packed destination gives a canonical plan with the image of the uncoalesced one |
| `Strides.DotPermutes` | bench/rtrack/plans.h:27-81 | an offset does not depend on the order in which axes are listed |
| `Strides.PermutedPackedIsBijective` | bench/rtrack/RtrackTest.cpp:58-70 | strides packed in some axis order hit every offset exactly once |
| `Strides.CollectAxes` | libreloc/src/Pipeline.cpp:72-81 | the gathering loop fails exactly on a non-positive stride, else lists exactly the non-unit axes, by stride and then extent |
| `Strides.ScanAxes` | libreloc/src/Pipeline.cpp:82-88 | the scanning loop accepts exactly when no stride lies within the span of the smaller ones |
| `Strides.ScanImpliesInjective` | libreloc/src/Pipeline.cpp:65-71 | accepted strides give distinct cells distinct source offsets |
| `Strides.SrcRowsWriteDisjoint` | libreloc/src/Pipeline.cpp:72-89 | the answer, exactly, and its promise: true implies injective |
| `Builders.IdentityAdmissible` | bench/rtrack/plans.h:27-36 | packed destination; source and destination are bijections onto [0, n * n); largest source offset n * n - 1 |
| `Builders.TransposeAdmissible` | bench/rtrack/plans.h:40-49 | the same for the transpose |
| `Builders.BlockedAdmissible` | bench/rtrack/plans.h:51-66 | the same for the blocked transpose, every n = 64 m |
| `Builders.NchwAdmissible` | bench/rtrack/plans.h:68-81 | the same for NCHW to NHWC, every n = 64 m |
| `Builders.PermutedPlanAdmissible` | bench/rtrack/plans.h:17-81 | any source strides packed in some axis order make such a plan |
| `Builders.MaxSrcOffset` | bench/rtrack/plans.h:83-90 | the loop computes an offset that is reached and, for non-negative strides, never exceeded |
| `Builders.TransposeOracle` | bench/rtrack/RtrackTest.cpp:82-91 | destination i n + j reads source j n + i |
| `Builders.BlockedOracle` | bench/rtrack/RtrackTest.cpp:93-106 | the (c, d) pair is j / m and j % m of the merged axis |
| `Builders.NchwOracle` | bench/rtrack/RtrackTest.cpp:108-119 | both offsets are the nested NHWC and NCHW index formulas |
| `Builders.BuilderRoundTrip` | bench/rtrack/RtrackTest.cpp:121-135 | relocating and scattering back restores the whole source |
| `Builders.TransposeImageAt` | bench/rtrack/RtrackTest.cpp:82-91 | element i n + j of the transposed image is source element j n + i |
| `Builders.TransposeTwice` | bench/rtrack/plans.h:40-49 | transposing twice is the identity |
| `Builders.BlockedIsCoalescedView` | bench/rtrack/plans.h:51-66 | coalescing the rank-4 view transpose gives exactly the rank-3 plan, with the same moves |
| `Odometer.Advance` | bench/rtrack/RtrackTest.cpp:46-54 | the carry loop adds one to the rank, or reports that the last index was reached |
| `Odometer.CellOffsets` | bench/rtrack/RtrackTest.cpp:40-44 | the offset loop computes both dot products |
| `Odometer.ForEachCell` | bench/rtrack/RtrackTest.cpp:36-56 | terminates after visiting the cell of rank k as its k-th visit, for every k |
| `Odometer.VisitOrder` | bench/rtrack/RtrackTest.cpp:36-56 | visits are in lexicographic order; on packed destinations the offset is the visit number |
| `Odometer.VisitIsMove` | bench/rtrack/RtrackTest.cpp:36-56 | the odometer and the executors make the same moves in the same order |
| `Odometer.EveryCellVisited` | bench/rtrack/RtrackTest.cpp:36-56 | every multi-index is visited, at its rank |
| `Odometer.SortsToRange` | bench/rtrack/RtrackTest.cpp:67-69 | sorted, a list counts up from 0 exactly if it permutes that range |
| `Odometer.ExpectBijective` | bench/rtrack/RtrackTest.cpp:58-70 | collect, sort and compare: passes if and only if the source addressing is a bijection |
| `BufferViews.DenseStrides` | libreloc/examples/RunArtifact.cpp:106-121 | the descending loop computes the row-major strides |
| `BufferViews.DenseViewBijective` | libreloc/examples/RunArtifact.cpp:106-121 | a dense view addresses its elements once each |
| `Int64.MulOk` | libreloc/python/PyPrefold.cpp:76-78 | succeeds exactly if the product is a 64-bit integer, and then returns it |
| `Int64.AddOk` | libreloc/python/PyPrefold.cpp:80-82 | succeeds exactly if the sum is a 64-bit integer, and then returns it |
| `Prefold.CheckPacked` | libreloc/python/PyPrefold.cpp:105-113 | passes exactly if the destination is packed and its element count representable |
| `Prefold.SourceReach` | libreloc/python/PyPrefold.cpp:122-132 | passes exactly if strides are non-negative and the largest offset is representable |
| `Prefold.CheckScales` | libreloc/python/PyPrefold.cpp:139-152 | passes exactly if there is one positive finite scale per outer index |
| `Prefold.PrefoldS8` | libreloc/python/PyPrefold.cpp:84-152 | accepts exactly the admissible requests; every refusal names a defect the request has; says exactly when the unchecked addition overflows |
| `Prefold.FootprintIsExact` | libreloc/python/PyPrefold.cpp:122-138 | the footprint test passes exactly if every cell's four bytes lie inside the source |
| `Prefold.AdmittedIsSafe` | libreloc/python/PyPrefold.cpp:84-152 | an admitted plan reads in bounds, writes a bijection, has one finite positive scale per channel, and no partial offset overflows |
| `Prefold.PrefoldArtifact` | libreloc/src/Prefold.cpp:23-57 | builds exactly the plans that meet its tests with strides and byte count taken modulo 2^64, which where no product wraps are the plans it should build |
| `Prefold.WrappedProductAccepted` | libreloc/src/Prefold.cpp:43-50 | a plan whose wrapped products pass although the true ones do not |
| `Prefold.AdmittedArtifactBuilds` | libreloc/src/Prefold.cpp:23-52 | an admitted request meets every precondition of the builder, null pointers included, and its products do not wrap |
| `Prefold.UncheckedAdditionOverflows` | libreloc/python/PyPrefold.cpp:133 | a plan that passes every earlier check and overflows the addition |
| `Intervals.UnionNs` | bench/analyze_resource_overlap.py:20-27 | equals the number of covered instants, in any order, inverted intervals ignored |
| `Intervals.RunningSweepMeasures` | bench/analyze_resource_overlap.py:22-26 | the running end counts every covered instant once |
| `Intervals.BlockUnion` | bench/beat_torch/analyze.py:22-34 | never more than the number of covered instants, and equal to it exactly if no inverted interval opens a block; so exact on every valid list, in any order |
| `Intervals.BlockSweepMeasures` | bench/beat_torch/analyze.py:25-33 | the sweep counts every covered instant once and then subtracts the inverted blocks |
| `Intervals.InvertedBlockIsNegative` | bench/beat_torch/analyze.py:22-34 | a single inverted interval gives a negative length while nothing is covered |
| `Intervals.Union` | bench/issue221/analyze_trace.py:15-22 | the in-place loop computes the merged blocks |
| `Intervals.BlocksCover` | bench/issue221/analyze_trace.py:15-22 | for every list, inverted intervals included, the blocks are sorted, strictly separated, and cover the same instants |
| `Intervals.BlocksAnyOrder` | bench/issue221/analyze_trace.py:15-22 | the blocks do not depend on the input order |
| `Intervals.BlocksIdempotent` | bench/issue221/analyze_trace.py:15-22 | merging merged blocks changes nothing |
| `Intervals.BlockLengthsMeasure` | bench/issue221/analyze_trace.py:15-22 | the summed block lengths are the number of covered instants, as both other sweeps compute it |
| `Intervals.OverlapIsIntersection` | bench/issue228/trace.py:15-16 | for every two lists, overlap is the number of instants covered by both |
| `Intervals.OverlapSymmetric` | bench/issue228/trace.py:15-16 | for every two lists, overlap is symmetric |
| `Intervals.InclusionExclusion` | bench/issue228/trace.py:15-16 | the two lengths add up to the length of the union plus the overlap |
| `Intervals.ClippedPoints` | bench/beat_torch/analyze.py:37-38 | clipping to a range keeps exactly the instants inside it |
| `Intervals.Attribute` | bench/beat_torch/analyze.py:69-72 | wall and busy times measure their clipped sets; idle counts the instants covered by neither, so it is not negative |
| `OrderStats.PercentileRank` | bench/rtrack/v3_gate.py:72-79 | the percentile is a sample with at least ceil(p n) samples at or below it and fewer strictly below |
| `OrderStats.RankIsCeil` | bench/rtrack/v3_gate.py:77-78 | for p in (0, 1] the clamped rank is ceil(p n) |
| `OrderStats.RankClamped` | bench/rtrack/v3_gate.py:77-78 | for other p it is the first or the last rank |
| `OrderStats.PercentileGate` | bench/rtrack/v3_gate.py:72-79 | the percentile is within a bar exactly if enough samples are |
| `OrderStats.RegretSign` | bench/rtrack/cm5_eval.py:137-141 | regret is the relative excess over the fastest time, never negative, and zero exactly for a fastest method |
| `OrderStats.MisclassGateIsCount` | bench/rtrack/cm5_eval.py:129-135 | the gate passes exactly if at most that share of the cells is wrong |
| `OrderStats.RegretGateIsCount` | bench/rtrack/cm5_eval.py:144-148 | the gate passes exactly if at least ceil(0.9 n) cells are within the bar |
| `OrderStats.FewMistakesNoRegret` | bench/rtrack/cm5_eval.py:129-148 | at most n - ceil(0.9 n) misclassified winners make the p90 regret exactly 0 |
| `OrderStats.TenPercentMisclassNoRegret` | bench/rtrack/cm5_eval.py:129-148 | a passed ten-percent misclassification gate makes the p90 regret exactly 0 |
| `OrderStats.OnTheLine` | bench/protocol.h:39-52 | between ranks k and k + 1 the percentile is on the straight line through both samples |
| `OrderStats.AtTheRank` | bench/protocol.h:39-52 | at the position of a rank it is that sample |
| `OrderStats.PercentileAffine` | bench/protocol.h:39-52 | within one such segment it is affine in p |
| `OrderStats.BetweenNeighbours` | bench/protocol.h:39-52 | the interpolated percentile lies between its neighbouring ranks |
| `OrderStats.PercentileMonotone` | bench/protocol.h:39-52 | it never decreases in p |
| `OrderStats.Summarize` | bench/protocol.h:54-63 | the median is the middle sample or the mean of the two middle ones, the quartiles are interpolated at a quarter and three quarters of the ranks, the IQR is their distance, and sample order is irrelevant |
| `OrderStats.SummaryRtrackIs` | bench/rtrack/rstats.h:35-49 | p95 is interpolated at 95 hundredths of the ranks, the IQR is given in percent of a positive median, and unstable means more than five percent |
| `OrderStats.SummaryAnyOrder` | bench/rtrack/rstats.h:35-49 | neither summary depends on the order of the samples |
| `OrderStats.SummaryOrdered` | bench/rtrack/rstats.h:35-49 | min <= q1 <= median <= q3 <= some sample, median <= p95 <= some sample, IQR >= 0, min is the least sample |
| `OrderStats.AnalyzeReruns` | bench/protocol.h:109-124 | one summary per rerun, and the spread between the least and the greatest median |
| `Sorting.SortedUnique` | bench/protocol.h:54-56 | there is only one sorted arrangement of given elements |
| `Crossing.Find` | bench/rtrack/figure_rstar.py:74-80 | returns the interpolation of the first bracketing segment, or None if there is none |
| `Crossing.NoneIsOneSided` | bench/rtrack/figure_rstar.py:74-80 | None exactly for fewer than two points, or all above, all below, or all at 1 |
| `Crossing.CrossingInBracket` | bench/rtrack/figure_rstar.py:76-79 | the result lies in its bracket and the curve is 1 there |
| `Crossing.UnbracketedMeetsOnlyFlat` | bench/rtrack/figure_rstar.py:75-76 | a segment that does not bracket 1 meets 1 only if it is flat at 1 |
| `Crossing.CrossingIsFirst` | bench/rtrack/figure_rstar.py:74-80 | the result is the leftmost meeting with 1 exactly if the first two samples are not both 1 |
| `Crossing.LateCrossing` | bench/rtrack/figure_rstar.py:74-80 | three samples on which the reported crossing is not the first |
| `Phases.Profiler.Account` | bench/issue219/request_overhead.py:45-47 | charges the elapsed time to the current category only |
| `Phases.Profiler.Wrapper` | bench/issue219/request_overhead.py:58-72 | around any body, raising or not: counts, category restored, each category charged the time its wrapper is innermost |
| `Phases.Profiler.Body` | bench/issue219/request_overhead.py:58-72 | the same for a sequence of wrapped calls up to the first escaping exception |
| `Phases.MonotoneExactly` | bench/issue219/request_overhead.py:45-47 | the hypothesis on the clock: the readings, in running order, never decrease |
| `Phases.OwnedByFirstCall` | bench/issue219/request_overhead.py:58-72 | the innermost-wrapper measure splits at the first call |
| `Phases.Profiler.Request` | bench/issue219/request_overhead.py:110-129 | category times sum to end - start under any clock; under a monotone one each is the time its wrapper is innermost |
| `Phases.Patches.Wrap` | bench/issue219/request_overhead.py:49-75 | wrapping, also of an already wrapped attribute, keeps what undoing will restore |
| `Phases.Patches.Exit` | bench/issue219/request_overhead.py:106-108 | undoing newest first restores every attribute |
| `Phases.Session` | bench/issue219/request_overhead.py:77-108 | any list of wraps followed by exit leaves every attribute as it was |
| `TorchQueue.Handle.Close` | bench/issue223/model_prefetch.py:60-70 | idempotent; otherwise both events are complete and the handle and its bytes leave the queue |
| `TorchQueue.GroupBytesAdd` | bench/issue223/model_prefetch.py:88-93 | the bytes of a group are four per element, over all its members |
| `TorchQueue.Queue.Submit` | bench/issue223/model_prefetch.py:83-100 | refused exactly for an empty group, a member over 64 MiB of scratch, two held handles, or four bytes per element over 128 MiB; an accepted group finds every earlier producer finished and updates bytes and peaks |
| `TorchQueue.Queue.WaitPriors` | bench/issue223/model_prefetch.py:91-92 | afterwards every held producer has finished and nothing else changed |
| `TorchQueue.Queue.Admit` | bench/issue223/model_prefetch.py:95-99 | adding a handle keeps the books balanced |
| `TorchQueue.Queue.Drop` | bench/issue223/model_prefetch.py:69-70 | removing a handle keeps the books balanced |
| `TorchQueue.Queue.Close` | bench/issue223/model_prefetch.py:106-108 | empties the queue, also when some handles were closed before |
| `TorchQueue.Queue.ProducerFinishes` | bench/issue223/model_prefetch.py:42-43 | an event may complete at any time |
| `TorchQueue.PeaksAreMaxima` | bench/issue223/model_prefetch.py:97-99 | the peaks bound every past state, and some state attained them |
| `TorchQueue.SumSizesRemove` | bench/issue223/model_prefetch.py:69-70 | the held bytes do not depend on the order of removal |
| `TorchQueue.Perform` | bench/issue223/model_prefetch.py:35-108 | every client operation and event completion keeps the whole invariant |
| `TorchQueue.Run` | bench/issue223/model_prefetch.py:35-108 | so does every interleaving of them from a new queue |
| `TorchQueue.DeliverOne` | bench/issue223/model_prefetch.py:143-149 | one serial delivery succeeds exactly if an empty queue can hold the group, and leaves it empty |
| `TorchQueue.Serial` | bench/issue223/model_prefetch.py:141-154 | serial delivery stops exactly at the first undeliverable group and never holds two handles |
| `Installer.Prefix.ReplaceLink` | build_tools/install_sym.py:206-215 | for every failure pattern: whether the link was replaced and whether it raised |
| `Installer.Prefix.Activate` | build_tools/install_sym.py:205-229 | for every failure pattern: when it succeeds, both links afterwards, and when rollback restored `previous` |
| `Installer.Prefix.Build` | build_tools/install_sym.py:269-275 | `current` names the candidate only once it holds installation.json |
| `Installer.Prefix.Install` | build_tools/install_sym.py:240-287 | succeeds exactly if nothing refuses the request and no step fails; the whole state on success; what may change for every failure pattern |
| `Installer.InstallThenUpgrade` | build_tools/install_sym.py:240-287 | a first install needs no --upgrade, and an upgrade then leaves both links and both environments as they should be |
| `Installer.RunKeepsLinks` | build_tools/install_sym.py:232-287 | one run keeps both links absent or naming a complete environment |
| `Installer.HistoryKeepsLinks` | build_tools/install_sym.py:232-287 | so does every sequence of runs; environments once linked are never removed or changed |
| `Installer.RunAll` | build_tools/install_sym.py:232-287 | every sequence of runs of the method is such a history |
| `Installer.RollbackIsExact` | build_tools/install_sym.py:217-229 | when the switch did not happen and the handler succeeded, the disk is unchanged exactly outside one window |
| `Installer.InterruptedRename` | build_tools/install_sym.py:219-221 | an exception in that window leaves `previous` changed |
| `Installer.RecordIsExact` | build_tools/install_sym.py:221-229 | once `current` is switched, `previous` records the replaced environment exactly outside one fault pattern |
| `Installer.LostRecord` | build_tools/install_sym.py:221-229 | an exception in that pattern leaves `current` switched and nothing recorded |
| `Symbols.ParseSymbols` | libreloc/examples/RunArtifact.cpp:76-104 | the scan terminates on every string and binds the items in order on top of `out`, whose final value it states on errors too |
| `Symbols.KeptIsPrefix` | libreloc/examples/RunArtifact.cpp:76-104 | on an error exactly the items before the first bad one stay bound |
| `Symbols.SpacesAre` | libreloc/examples/RunArtifact.cpp:89-95 | white space is the C locale's |
| `Symbols.ParseValueExactly` | libreloc/examples/RunArtifact.cpp:89-95 | a value is accepted exactly if, up to the first NUL, it is white space, a sign and digits with nothing left over, or empty; its value is the nearest 64-bit integer |
| `Symbols.ItemExactly` | libreloc/examples/RunArtifact.cpp:84-97 | an item is split at its first '='; which error it gives, and which binding |
| `Symbols.ItemWithoutEquals` | libreloc/examples/RunArtifact.cpp:84-88 | an item without '=' is malformed |
| `Symbols.BoundExactly` | libreloc/examples/RunArtifact.cpp:96-101 | on success `out` keeps what it held and binds each name to its value, and nothing else |
| `Symbols.AcceptedExactly` | libreloc/examples/RunArtifact.cpp:84-101 | accepted exactly if every item is well formed and no name repeats |
| `Symbols.RepeatRejected` | libreloc/examples/RunArtifact.cpp:96-99 | a repeated name is always rejected |
| `Symbols.PrintedInteger` | libreloc/examples/RunArtifact.cpp:89-95 | parsing a printed 64-bit integer gives it back |
| `Symbols.ParseUndoesPrint` | libreloc/examples/RunArtifact.cpp:76-104 | parsing printed bindings gives exactly the printed map |
| `ProcessTree.OnePass` | bench/issue227/run.py:18-19 | the loop computes a pass that sees the pids added earlier in it |
| `ProcessTree.PassFixpoint` | bench/issue227/run.py:18-19 | a pass adds nothing exactly if the set is closed under children |
| `ProcessTree.PassesStable` | bench/issue227/run.py:18-19 | a pass that adds nothing makes all later passes no-ops |
| `ProcessTree.PassesReach` | bench/issue227/run.py:18-19 | n passes reach every descendant within n generations, in any row order |
| `ProcessTree.PassesDescend` | bench/issue227/run.py:18-19 | passes add only descendants |
| `ProcessTree.PassesByChains` | bench/issue227/run.py:18-19 | n passes find exactly the allowed pids and those at the end of a parent chain that steps up the listing fewer than n times |
| `ProcessTree.CompleteExactly` | bench/issue227/run.py:18-19 | n passes find all descendants exactly if every descendant has such a chain |
| `ProcessTree.ReversedChainGrowsSlowly` | bench/issue227/run.py:18-19 | on a reversed chain each pass adds one generation only |
| `ProcessTree.TenPassesMissOne` | bench/issue227/run.py:14-23 | on eleven nested builds listed youngest first, the youngest descends, is missed, and is reported |
| `ProcessTree.Audit` | bench/issue227/run.py:14-23 | ten passes, then the running builders and the GPU processes outside the grown set, in listing order |
| `ProcessTree.BuilderReportConcat` | bench/issue227/run.py:20-21 | the report lists exactly the rows that are builders, neither stopped nor zombie, and not in the set, in order |
| `ProcessTree.GpuReportConcat` | bench/issue227/run.py:22-23 | and then the GPU processes not in the set, in order |
| `ProcessTree.ReportedExactly` | bench/issue227/run.py:20-21 | a running builder is reported exactly if it is outside the grown set; never a descendant within ten generations, always a non-descendant |
| `TransposeSchedule.ScheduleConserves` | bench/transfer_resource_reuse.py:72-85 | the chunks sum to rows * cols * 4 bytes, each positive and at most max(target, row bytes) |
| `TransposeSchedule.EnoughChunks` | bench/transfer_resource_reuse.py:72-85 | large transposes get at least eight chunks per buffer |
| `TransposeSchedule.MirrorsRuntime` | bench/transfer_resource_reuse.py:72-85 | the Python schedule lists exactly the runtime's chunk sizes |
| `TransposeSchedule.PlanTranspose` | libreloc/src/ChunkSchedule.cpp:9-90 | the runtime's planChunks, run on that plan, gives the mirrored schedule |

## Left out

- The AVX2 tiles of `libreloc/src/Transpose.cpp`: the scalar blocked kernel stands for both.
- Buffers hold opaque elements (bit patterns), so byte order and alignment are not modelled; the
  source of an executor is an immutable sequence, so overlapping source and destination buffers are
  not modelled.
- Executor.Walk: offsets are unbounded integers; 64-bit overflow is modelled in the pre-fold check
  and in axis merging, not in the executors or `planChunks`.
- Execute.ExecuteH2D: pad regions name each axis at most once and in order, as `bind()` produces them, and
  share one fill pattern, as the executors assert.
- Threads.ExecuteH2DThreaded: threads are modelled as every interleaving of their element writes; a
  thread that cannot be created, and the pool and its barrier, are not modelled.
- Pipeline.DrainedDelivers: states what completed runs deliver; backend failures, error returns,
  queues, the capacity checks of `executeH2DPrepared` and buffer ownership are not modelled.
- InversePipeline.DrainedIsScatter: the oldest chunk may be scattered as soon as it has landed, which
  includes the original's policy of waiting until the ring is full.
- Binding.BindAxes: the alignment-axis remap, symbol evaluation, pad resolution, strategy choice and
  the cost model of `bind()` are not modelled, and all pads share one fill pattern.
- Typed and indexed plans, plan decoding, quantization kernels and the dispatcher.
- Prefold.PrefoldArtifact: signed overflow, which C++ leaves undefined, is two's-complement wrap-around;
  the model ends where the quantization kernels start; the life cycle of the owned
  artifact and its memory is not modelled.
- Intervals.Attribute: instants are integers, as the traces record them; the DMA gaps, the per-kernel
  totals, the byte counts, the timeline and the burst grouping are not modelled.
- OrderStats.PercentileSorted: samples and percentiles are real numbers, so floating-point rounding
  is not modelled; the same holds for regrets and crossings.
- Crossing.Find: the base-2 logarithm is any strictly increasing coordinate.
- Sorting.SortedUnique: the library sorts are modelled by one function; any other sort gives the
  same list.
- `merge_points`, `eval_winner_cells`, `eval_rstar` and `rstar_gate` of `bench/rtrack/cm5_eval.py`:
  bookkeeping around the gates that are modelled.
- Installer.Prefix.Install: locking, downloads, hashing, the virtual environment and the platform
  probe are steps that succeed or raise; removing a directory either happens or does not, and
  temporary links left behind by a failed unlink are not modelled.
- TorchQueue.Handle.Close: CUDA streams and events are reduced to not recorded, recorded and
  completed; the prefetch window of the overlapped delivery is not part of this model.
- Phases.Patches.Wrap: attributes are a flat map, so an attribute inherited from a base class is not
  modelled; NVTX ranges are not modelled.
- ProcessTree.Audit: the text of `ps` and `nvidia-smi` is already parsed into rows.
- Symbols.ParseSymbols: characters are those of the C locale.
- Report generation, plotting, evidence packaging and workload harnesses.
