# A verified model of the KVM's protocol and vision cores

The repository is the software of a network KVM: it types on a host's keyboard through USB HID, watches the host's
screen through a capture card, reads the text on that screen on an NPU, and serves all of it behind a login. This
project models the parts of it whose correctness is not plain from reading one function, and proves what they promise.
`dafny verify dfyconfig.toml` checks everything.

**Keyboard macros** (`MacroLane`, `MacroInvariant`, `MacroSafety`, `MacroProgress`, `MacroKeys`, `MacroOutcomes`,
`TypedRuns`). Macros are spawned tasks that queue for a FIFO lane. Two epoch counters and a published token cancel
them; the token is published between two epoch checks. Every load, store, critical section, report and await is one
atomic action of a transition system with any number of macro tasks, cancellers and channel closers, USB HID that may
be missing or fail at any report, and live key reports that bypass the lane and may fall between any two steps.
`MacroInvariant.Inv` is the inductive invariant; its `TokenInv` is the reason for the second check.

**NPU job queue** (`JobQueue`, `JobProgress`). The critical sections are methods of a class; pushers, workers, the
condition variable (with spurious wake-ups) and shutdown are a transition system over the same functions.

**OCR** (`DbBoxes`, `Merging`, `LineGroups`, `Tiling`, `HalfFloat`, `Ctc`, `SplitLine`). Flood fill against
4-connected components, merging against trees of joins and a scan order, tiles by rounded division, CTC decoding in
two number formats, and the cutting of long lines into recognizer inputs.

**Screen signatures** (`Fingerprint`, `FingerprintLimits`, `FingerprintCounting`, `FingerprintFew`, `LumaGrid`). A
64-bit rolling hash of bijective steps, what it always shows and how far it can be trusted, and a sampled mean-luma
grid.

**Timed state machines** (`RateLimit`, `RateLimitRuns`, `Relock`, `RelockRuns`). The login rate limiter and the relock
watch are classes proved against functions on values; the run modules prove what those functions guarantee over every
history in time order. The clock is a parameter.

**Typing** (`HidRpc`, `Typing`, `TypedRuns`). Text to macro steps to wire bytes, back to steps, through the lane and
on to a host that types a character for each newly pressed key.

## Where the code and its comments disagree

- `cancel_macro` is said to return once the running macro has released its keys
  (app/src/hidrpc/dispatcher.rs:224-225). It need not: a cancellation seen by the check before a step returns without
  an all-up report. `MacroKeys.CancelMayLeaveKeyDown` builds the interleaving for every macro of two steps or more and
  every step of it but the last, and `MacroKeys.ReleasesIff` says for exactly which macros the comment holds.
- `fingerprint` is said to be equal only for equal pictures (crates/rkvm-vision/src/signature.rs:49-51). A 64-bit hash
  cannot keep that. By the number of visible bytes (`FingerprintFew.TellsApartByCount`): it holds for up to three,
  fails for nine or more, and with a full 8-byte group among them holds exactly if they are eight. Four to eight bytes
  with no full group are not settled. `FingerprintLimits.TwinExists` gives every picture with a full group and another
  byte a twin; `Fingerprint.PixelShows` is the part that always holds, "down to one pixel".
- `plan_tiles` is said to overlap its tiles by at least `overlap` (crates/rkvm-vision/src/det.rs:142-143). That holds
  exactly for `overlap < tile` (`Tiling.TilesCoverIff`), which `choose_shape` establishes
  (`Tiling.ChosenShapeServes`).
- Halves are said to order like their bits because softmax outputs are never negative
  (crates/rkvm-vision/src/rec.rs:17-19). Not being negative is not enough: the NaNs with a clear sign bit, 0x7c01 to
  0x7fff, break the order as the negative halves do. `Ctc.BitsOrderIff` says for which halves bits and values compare
  alike.

## What a reader might not expect

- Cleaning up never changes who is admitted (`RateLimit.CleanupKeepsVerdicts`), but it can forget the longer window an
  address has earned. `RateLimitRuns.LapseEscalatesIff` says exactly when; `RateLimitRuns.AskingEscalates` and
  `RateLimitRuns.StayingAwayForgets` are histories for both outcomes: asking once while locked out doubles the next
  window, and staying away until the lock has passed does not.
- `merge_boxes` joins whatever it meets first, and joining is not confluent: `Merging.OrderMatters` gives three boxes
  whose grouping depends on their order. For banded boxes, none inside out and any two that share most of their height
  sharing all of it, order does not matter: `LineGroups.GroupsAreComponents` shows that the groups are then the
  connected components of being on one line, and `LineGroups.OrderIndependent` that the same boxes come out in whatever
  order they go in.

## Model

| member | source | states |
|---|---|---|
| `MacroInvariant.InvStep` | app/src/hidrpc/dispatcher.rs:144-227 | every atomic action of every task, canceller and closer keeps the invariant: one lane holder, `running_macro` names it, a signalled call leaves no stale macro armed with a live token, a canceller that got the lane leaves no stale macro past the first check |
| `MacroInvariant.RunInv` | app/src/hidrpc/dispatcher.rs:144-227 | the invariant holds in every state of every interleaving |
| `MacroSafety.CancelSilences` | app/src/hidrpc/dispatcher.rs:219-227 | once `cancel_macro` has returned, no macro whose epochs were captured before its bump ever reports again, in any continuation, and whatever still holds or awaits the lane arrived behind the canceller |
| `MacroSafety.SignalBounds` | app/src/hidrpc/dispatcher.rs:40-47 | once a cancel has signalled or a channel close has returned, a macro it makes stale sends at most the one step report it was already committed to, and at most one all-up in its whole life, however bump and publication interleave |
| `MacroSafety.CancelHasCulprit` | app/src/hidrpc/dispatcher.rs:149-167 | a cancelled macro was touched by some call: its token was cancelled by it, or it bumped an epoch the macro watches after the macro captured it |
| `MacroSafety.ReturnedCallSpares` | app/src/hidrpc/dispatcher.rs:149-153 | a cancel or close that had returned before a macro was requested never touches it, in any later state |
| `MacroSafety.CloseSparesOthers` | app/src/hidrpc/dispatcher.rs:40-47 | closing the data channel never touches a macro started with `from_channel = false` |
| `MacroSafety.CancelledForCause` | app/src/hidrpc/dispatcher.rs:149-167 | in every run, a cancelled macro was touched by a call that had not returned when it was requested, an explicit cancel unless the channel started it |
| `MacroSafety.WireHoldsLog` | app/src/hidrpc/dispatcher.rs:82-101 | however live reports fall between them, the macro reports among all the host receives are the macro log, in order |
| `MacroSafety.LogIsBlocks` | app/src/hidrpc/dispatcher.rs:156-178 | the report log is one contiguous block per macro in lane order, no macro twice, each block a prefix of the macro's steps and at most one all-zero report |
| `MacroSafety.OwnReports` | app/src/hidrpc/dispatcher.rs:196-217 | the reports tagged with a macro, picked out of the whole log, are exactly the prefix it has typed |
| `MacroSafety.RunningHoldsLane` | app/src/hidrpc/dispatcher.rs:161-174 | `running_macro` is empty or names the macro holding the lane |
| `MacroSafety.OkMeansAllReported` | app/src/hidrpc/dispatcher.rs:175-190 | `play_macro` returns Ok only if every step was reported, back to back, with nothing else reported for that macro |
| `MacroSafety.LaneSerialises` | app/src/hidrpc/dispatcher.rs:144-190 | all of the above in every state of every interleaving |
| `MacroProgress.WorkDrops` | app/src/hidrpc/dispatcher.rs:156-227 | every step of a task or call uses up work |
| `MacroProgress.NeverStuck` | app/src/hidrpc/dispatcher.rs:156-227 | no deadlock between the lane and the dispatcher mutex: while anything is unfinished some task or call can move |
| `MacroProgress.RunsSettle` | app/src/hidrpc/dispatcher.rs:144-227 | with no new requests every run is finite, and where it ends every macro is done and every cancel has returned |
| `MacroOutcomes.DoneForCause` | app/src/hidrpc/dispatcher.rs:144-217 | in every run, a macro that is done replied and reported every step, or a cancel or close touched it, or USB HID was missing or refused one of its steps; wherever it came from |
| `MacroOutcomes.LeftAloneCompletes` | app/src/hidrpc/dispatcher.rs:196-217 | with HID working and no new requests, where a run ends every macro that no cancel or close touched has replied and reported every step |
| `MacroKeys.CancelMayLeaveKeyDown` | app/src/hidrpc/dispatcher.rs:199-202 | for every macro and every step of it but the last there is an interleaving, with HID working, where the cancel has returned and the log ends with that step, whatever keys it holds |
| `MacroKeys.UpStepsRelease` | app/src/hidrpc/dispatcher.rs:208-214 | if all steps but the last are all-up, every cancelled macro ends with no key down, in every run with HID working |
| `MacroKeys.ReleasesIff` | app/src/hidrpc/dispatcher.rs:219-227 | a macro is sure to release its keys on cancellation exactly when every step but its last is all-up |
| `MacroOutcomes.PauseCancelReleases` | app/src/hidrpc/dispatcher.rs:208-214 | a cancellation that wins the select after any step, the last included, leads to an all-up, HID working: the reports are the steps so far and that all-up |
| `MacroOutcomes.CancelMayRelease` | app/src/hidrpc/dispatcher.rs:208-214 | for every macro and every step there is an interleaving in which that happens and the cancel returns |
| `TypedRuns.PlayedTextIsTyped` | app/src/hidrpc/dispatcher.rs:183-217 | in every interleaving, a text whose macro returned Ok reached the host as all its steps in order with no other macro's report between; if also no live report fell between and no key was held before, the host typed exactly the text there |
| `TypedRuns.HeldKeySwallows` | app/src/hidrpc/dispatcher.rs:199-202 | a key left held swallows the next stroke of that key, so the condition is needed |
| `JobQueue.Queue.constructor` | crates/rkvm-vision/src/npu.rs:119-124 | the queue starts open and empty |
| `JobQueue.Queue.Push` | crates/rkvm-vision/src/npu.rs:127-136 | an open queue gains the job at its back; a closed one refuses it and is unchanged |
| `JobQueue.Queue.TakeOrWait` | crates/rkvm-vision/src/npu.rs:139-151 | one pass of `take`: None once closed, else the oldest job this worker can run leaves the queue and the rest keep their order, else it must wait |
| `JobQueue.Queue.Close` | crates/rkvm-vision/src/npu.rs:153-158 | the queue is closed and keeps its jobs |
| `JobQueue.FirstRunnable` | crates/rkvm-vision/src/npu.rs:145 | the found job is runnable and none before it is |
| `JobQueue.TakesOldestOfKind` | crates/rkvm-vision/src/npu.rs:145-148 | among the jobs of each kind, the one removed is the first and the others stay as they are |
| `JobQueue.RunInv` | crates/rkvm-vision/src/npu.rs:119-159 | wake-up, order and hand-out invariants hold in every state of every interleaving |
| `JobQueue.EachJobOnce` | crates/rkvm-vision/src/npu.rs:127-151 | accepted jobs are exactly the handed-out and the queued ones, none in both or handed out twice, and no recognition-only worker got a detection job |
| `JobQueue.HandedOutInOrder` | crates/rkvm-vision/src/npu.rs:138-151 | per kind, the jobs handed out are a prefix of the jobs pushed |
| `JobQueue.ClosedStandsStill` | crates/rkvm-vision/src/npu.rs:139-158 | once closed, the queue stays closed, accepts no job and hands none out, whatever it holds |
| `JobQueue.NoLostWakeup` | crates/rkvm-vision/src/npu.rs:133-158 | a worker sleeping un-notified over a runnable job or a closed queue implies a push or close about to notify |
| `JobProgress.IdleMeansDrained` | crates/rkvm-vision/src/npu.rs:244-256 | when no step is owed, a closed queue has stopped every worker and an open one holds nothing any worker can run |
| `JobProgress.OwedDrops` | crates/rkvm-vision/src/npu.rs:127-158 | every pass, service and notification uses up work, though a notification may wake every worker |
| `JobProgress.QueueSettles` | crates/rkvm-vision/src/npu.rs:622-627 | with no new push, spawn, close or spurious wake-up the owed steps are finite, and end with the queue drained: after a close every worker has stopped, so joining them returns |
| `DbBoxes.Visit` | crates/rkvm-vision/src/det.rs:105-110 | exactly an unseen pixel above the threshold is marked and pushed |
| `DbBoxes.VisitNeighbours` | crates/rkvm-vision/src/det.rs:111-122 | marks and pushes, once each, exactly the unmarked pixels of ink sharing an edge with this one |
| `DbBoxes.FringeIsAdjacent` | crates/rkvm-vision/src/det.rs:111-122 | the four guarded index offsets are exactly the edge neighbours inside the picture |
| `DbBoxes.PopAndVisit` | crates/rkvm-vision/src/det.rs:97-122 | one turn pops a pixel of the component not popped before and keeps the fill invariant |
| `DbBoxes.Fill` | crates/rkvm-vision/src/det.rs:93-123 | one fill terminates, pops each pixel of the start's 4-connected component once and no other, and measures its tight bounds, total and size |
| `DbBoxes.Sweep` | crates/rkvm-vision/src/det.rs:89-137 | one turn of the outer loop handles the component led by this pixel, or nothing if it leads none |
| `DbBoxes.FindBoxes` | crates/rkvm-vision/src/det.rs:81-140 | the boxes are those of the components passing the filters, in row-major order of first pixel; every pixel above the threshold is popped exactly once; a short map gives none |
| `DbBoxes.BoxGrows` | crates/rkvm-vision/src/det.rs:124-137 | a box exists exactly if both sides and the mean reach their minimum; it keeps centre and mean, and grows equally on all sides by area times ratio over perimeter |
| `Merging.HullEncloses` | crates/rkvm-vision/src/det.rs:46-54 | a merged box is the exact hull of its pieces, with their best score |
| `Merging.SameLineSymmetric` | crates/rkvm-vision/src/det.rs:60-68 | being on one line does not depend on who is asked |
| `Merging.SameLineMeans` | crates/rkvm-vision/src/det.rs:60-68 | two boxes are on one line exactly if both have a height, they share rows to three fifths of one of their heights, and they come within a tenth of both heights of each other |
| `Merging.MergeInto` | crates/rkvm-vision/src/det.rs:174-183 | one row of comparisons keeps the grouping, shrinks the list if it merged, and otherwise found no partner |
| `Merging.Pass` | crates/rkvm-vision/src/det.rs:170-188 | a pass without a merge leaves pairwise separate boxes; separate boxes are never merged |
| `Merging.MergeBoxes` | crates/rkvm-vision/src/det.rs:169-190 | terminates; outputs are hulls of groups that partition the input, every join being of two boxes on one line; no two outputs are on one line; separate input comes back unchanged, hence idempotent; groups and order are those of scanning from the front |
| `Merging.OrderMatters` | crates/rkvm-vision/src/det.rs:169-190 | the same three boxes in another order come out as different boxes |
| `LineGroups.Up` | crates/rkvm-vision/src/det.rs:60-68 | among banded boxes, two on one line put whatever they were merged into on one line |
| `LineGroups.Down` | crates/rkvm-vision/src/det.rs:60-68 | among banded boxes, two merged boxes on one line have two pieces on one line |
| `LineGroups.GroupsAreComponents` | crates/rkvm-vision/src/det.rs:168-190 | however banded boxes were merged, two are in one group exactly if a chain of boxes, each on the line of the one before, leads from one to the other |
| `LineGroups.OrderIndependent` | crates/rkvm-vision/src/det.rs:168-190 | banded boxes given in two orders come out as the same boxes |
| `Tiling.TilesCover` | crates/rkvm-vision/src/det.rs:150-166 | for `overlap < tile < len` the rounded positions start at 0, end at `len - tile`, strictly increase and overlap enough |
| `Tiling.TilesCoverIff` | crates/rkvm-vision/src/det.rs:142-166 | the overlap promise holds if and only if the tile exceeds it |
| `Tiling.TilesMinimal` | crates/rkvm-vision/src/det.rs:157-158 | no cover with that overlap has fewer tiles |
| `Tiling.PositionNearest` | crates/rkvm-vision/src/det.rs:160-164 | positions are equal shares of the span, rounded to the nearest pixel |
| `Tiling.StretchInOneTile` | crates/rkvm-vision/src/det.rs:150-166 | every stretch up to the overlap plus one pixel lies inside one tile |
| `Tiling.SmallTextInOneTile` | crates/rkvm-vision/src/det.rs:142-148 | every rectangle up to the overlap plus one pixel on either side lies inside one tile |
| `Tiling.TilesInside` | crates/rkvm-vision/src/det.rs:144-148 | no tile leaves the area or exceeds the tile size |
| `Tiling.ProductSize` | crates/rkvm-vision/src/det.rs:144-148 | there are as many tiles as columns times rows |
| `Tiling.ProductAt` | crates/rkvm-vision/src/det.rs:144-148 | row by row: the tile in column `i` of row `j` comes at place `j * columns + i` |
| `Tiling.FirstLeast` | crates/rkvm-vision/src/det.rs:228-237 | `filter` and `min_by_key`: the earliest least eligible key, None exactly if none is eligible |
| `Tiling.CostIsTime` | crates/rkvm-vision/src/det.rs:228-237 | a shape costs as many rounds as its tiles need at `cores` at a time, none to spare, each of its area and 50000 pixels more; then the number of tiles |
| `Tiling.ChosenShapeServes` | crates/rkvm-vision/src/det.rs:221-238 | the chosen shape exceeds the overlap, takes the least time of all that do, has the fewest tiles among those and comes first among those again, and its tiles cut no small text; None exactly if no shape exceeds the overlap on both axes |
| `HalfFloat.ConversionExact` | crates/rkvm-vision/src/rec.rs:61-76 | for all 65536 halves the single has the same sign and exactly the same value; infinities and NaNs stay such (section 3.4 of IEEE 754-2019) |
| `Ctc.ValueWorth` | crates/rkvm-vision/src/rec.rs:61-76 | a single is NaN, an infinity, or exactly its sign and units, by its fields (section 3.4 of IEEE 754-2019) |
| `Ctc.MagnitudeExact` | crates/rkvm-vision/src/rec.rs:61-76 | a unit is exactly 2^-149 |
| `HalfFloat.HalvesOrderLikeBits` | crates/rkvm-vision/src/rec.rs:17-19 | non-negative finite halves increase strictly with their bits |
| `Ctc.BestIsFirstMax` | crates/rkvm-vision/src/rec.rs:40-44 | the `reduce` yields the first class that none beats, passing over NaNs, and class 0 if that is a NaN |
| `Ctc.RowCountIff` | crates/rkvm-vision/src/rec.rs:39 | as many time steps are read as asked for, as far as whole ones are there |
| `Ctc.RowAt` | crates/rkvm-vision/src/rec.rs:39 | class `k` of time step `t` is entry `t * classes + k` from the front |
| `Ctc.PeakMeaning` | crates/rkvm-vision/src/rec.rs:39-44 | on the flat list alone: each time step, in order, yields the first of its classes that none beats, with that probability |
| `Ctc.DecodingOrders` | crates/rkvm-vision/src/rec.rs:13-27 | both comparisons decoding is used with are strict weak orders, of all numbers and of all half bits |
| `Ctc.KeptStep` | crates/rkvm-vision/src/rec.rs:45-54 | comparing with the previous class only is collapsing repeats and then dropping blanks |
| `Ctc.TrimMeaning` | crates/rkvm-vision/src/rec.rs:57 | trimming removes white space at both ends and nothing else |
| `Ctc.WrittenReads` | crates/rkvm-vision/src/rec.rs:46-50 | any classes of the model, repeats included, can be written with blanks between, and decode to their labels in order: the dictionary for 1 on, a space for the class after it |
| `Ctc.SumMeaning` | crates/rkvm-vision/src/rec.rs:51 | the order of the additions decides nothing: the sum is the total of finite values, else the one sign of infinity among them, else no number |
| `Ctc.MeanMeaning` | crates/rkvm-vision/src/rec.rs:56 | the score is the one number that, taken once for each kept step, makes up their total; 0 if none is kept |
| `Ctc.Absorb` | crates/rkvm-vision/src/rec.rs:39-55 | one time step keeps text, sum, count and previous class those of the steps so far |
| `Ctc.Decode` | crates/rkvm-vision/src/rec.rs:29-58 | text and score are those of the time steps in order: first maximum of each, collapse repeats, drop blanks, map through the dictionary, trim, and mean |
| `Ctc.HalfValueOrder` | crates/rkvm-vision/src/rec.rs:17-19 | from zero through infinity, bits compare exactly as the converted values do |
| `Ctc.HalfDecodesLikeSingle` | crates/rkvm-vision/src/rec.rs:17-27 | decoding half bits up to 0x7c00 equals converting everything first and decoding singles |
| `Ctc.DecodeHalf` | crates/rkvm-vision/src/rec.rs:20-27 | `ctc_decode_f16` decodes by bits whatever the halves, infinities and NaNs included, and like singles if all bits are up to 0x7c00 |
| `Ctc.BitsOrderIff` | crates/rkvm-vision/src/rec.rs:17-19 | for all halves, the bits of two compare as their values do, either way round, exactly if they are the same half or both lie from zero through infinity |
| `Ctc.BeyondNeverGreater` | crates/rkvm-vision/src/rec.rs:17-19 | no half with bits above those of infinity, NaN or negative, has a greater value than a half with smaller bits |
| `Ctc.NegativeHalvesMisorder` | crates/rkvm-vision/src/rec.rs:17-19 | every negative finite half but minus zero has larger bits and a smaller value than every finite half of zero or more |
| `SplitLine.FindGap` | crates/rkvm-vision/src/rec.rs:108 | the last blank column from half width through the limit, or none |
| `SplitLine.Cut` | crates/rkvm-vision/src/rec.rs:106-128 | one cut: at a whole gap touching the second half if there is one, at the limit only if all of it is ink; the next word space is decided by the gap's width |
| `SplitLine.SplitLine` | crates/rkvm-vision/src/rec.rs:90-130 | terminates; segments are non-empty, in order, at most `max_width` wide and start with ink, gaps between them are blank, ink is cut only where no gap would do, `space_before` holds exactly for real gaps of `space_min` or more |
| `SplitLine.InkInOneSegment` | crates/rkvm-vision/src/rec.rs:87-130 | every inked column is in exactly one segment |
| `SplitLine.SegmentsOrdered` | crates/rkvm-vision/src/rec.rs:90-130 | segments are disjoint and increasing |
| `SplitLine.SegmentsFew` | crates/rkvm-vision/src/rec.rs:106-128 | there are at most `1 + n / (max_width / 2 + 1)` segments |
| `SplitLine.NeededIff` | crates/rkvm-vision/src/npu.rs:602 | the columns asked for are the fewest, at least 8, that hold the whole segment at the model's height |
| `SplitLine.CutWidthIff` | crates/rkvm-vision/src/npu.rs:597 | the cut width is the largest that scales into the widest model, one column in any case |
| `SplitLine.PicksNarrowest` | crates/rkvm-vision/src/rec.rs:132-136 | with ascending widths, the narrowest model that holds the columns whenever one does, and the widest when none does |
| `SplitLine.SegmentScales` | crates/rkvm-vision/src/npu.rs:596-602 | a segment as wide as the cut allows or narrower scales into the widest model if and only if that model is at least 8 wide and takes one crop column |
| `SplitLine.QueuePieces` | crates/rkvm-vision/src/npu.rs:600-617 | one piece per segment in order, each asking for the fewest columns that hold it and put in the narrowest model that has them, or the widest if none has |
| `SplitLine.SubmitLine` | crates/rkvm-vision/src/npu.rs:592-619 | the pieces are exactly the segments of the split, and `needed.min(width)` never squeezes exactly when the widest model is roomy |
| `Fingerprint.MixInjective` | crates/rkvm-vision/src/signature.rs:65 | xor, odd multiplication modulo 2^64 and rotation can be undone |
| `Fingerprint.OneWordShows` | crates/rkvm-vision/src/signature.rs:59-70 | changing one absorbed word always changes the result |
| `Fingerprint.HashRow` | crates/rkvm-vision/src/signature.rs:60-69 | the two loops absorb the row's 8-byte groups and then its leftover bytes |
| `Fingerprint.FingerprintOf` | crates/rkvm-vision/src/signature.rs:52-72 | the hash is the fold of the words of the rectangle's rows |
| `Fingerprint.OutsideIgnored` | crates/rkvm-vision/src/signature.rs:59-60 | planes equal inside the rectangle share a fingerprint, for any stride, length and rectangle |
| `Fingerprint.RectsTold` | crates/rkvm-vision/src/signature.rs:55-58 | the same bytes seen through two different rectangles of 16-bit fields never share a fingerprint |
| `Fingerprint.GroupChangeShows` | crates/rkvm-vision/src/signature.rs:49-72 | a difference confined to one 8-byte group or leftover byte always changes the fingerprint |
| `Fingerprint.FaithfulWithinGroup` | crates/rkvm-vision/src/signature.rs:49-72 | for planes that agree outside one group, fingerprints are equal exactly when the visible rows are |
| `Fingerprint.PixelShows` | crates/rkvm-vision/src/signature.rs:49-51 | changing any single visible pixel to any other value changes the fingerprint |
| `FingerprintLimits.GroupDecides` | crates/rkvm-vision/src/signature.rs:59-70 | eight bytes of a full group can be chosen to give any fingerprint whatever, the rest of the picture being fixed |
| `FingerprintLimits.TwinExists` | crates/rkvm-vision/src/signature.rs:49-72 | where a full group and any other byte are visible, every picture has a different one with the same fingerprint |
| `FingerprintLimits.TellsApartIff` | crates/rkvm-vision/src/signature.rs:49-51 | where a full group is visible, equal fingerprints mean equal pictures if and only if nothing else is visible |
| `FingerprintCounting.ManyCollide` | crates/rkvm-vision/src/signature.rs:49-51 | wherever nine or more bytes are visible, in groups or not, two pictures that look different share a fingerprint |
| `FingerprintFew.FewWords` | crates/rkvm-vision/src/signature.rs:67-69 | from any seed, up to three leftover bytes are told apart by the hash |
| `FingerprintFew.FewFaithful` | crates/rkvm-vision/src/signature.rs:49-72 | wherever at most three bytes are visible, equal fingerprints mean equal pictures |
| `FingerprintFew.TellsApartByCount` | crates/rkvm-vision/src/signature.rs:49-51 | for every stride, length and rectangle: up to three visible bytes are told apart, nine or more are not, and with a full group exactly eight are |
| `LumaGrid.CellsPartition` | crates/rkvm-vision/src/signature.rs:26-29 | the cells along an axis are non-empty and every pixel lies in exactly one |
| `LumaGrid.CellsEven` | crates/rkvm-vision/src/signature.rs:26-29 | each cell is `len / n` pixels or one more, and begins at its share of the axis rounded down |
| `LumaGrid.CellPlace` | crates/rkvm-vision/src/signature.rs:26-29 | cell `c` of row `r` lies at its shares of both axes |
| `LumaGrid.AcceptedIff` | crates/rkvm-vision/src/signature.rs:15-23 | a geometry is accepted exactly if the pixels are all there and every cell has some |
| `LumaGrid.Sample` | crates/rkvm-vision/src/signature.rs:30-37 | sum and count of every fourth pixel of every fourth row, all reads in bounds |
| `LumaGrid.OneSampleMoves` | crates/rkvm-vision/src/signature.rs:30-37 | changing one pixel changes a cell's sum by as much if it is on a fourth row and column of the cell, and not at all otherwise |
| `LumaGrid.BlackSum` | crates/rkvm-vision/src/signature.rs:30-37 | a black cell sums to 0, which with the row above fixes every sum |
| `LumaGrid.CountCeil` | crates/rkvm-vision/src/signature.rs:30-37 | the samples number the cell's width over four, rounded up, times its height likewise |
| `LumaGrid.MeanRoundsDown` | crates/rkvm-vision/src/signature.rs:38 | a mean is the sum over the count, rounded down; the count is never 0 |
| `LumaGrid.GridOf` | crates/rkvm-vision/src/signature.rs:7-41 | the mean of every cell in row order for an accepted geometry, nothing otherwise |
| `LumaGrid.MeansAt` | crates/rkvm-vision/src/signature.rs:25-40 | cell `c` of grid row `r` is entry `r * cols + c` |
| `LumaGrid.MeanIsByte` | crates/rkvm-vision/src/signature.rs:38 | the narrowing cast loses nothing |
| `LumaGrid.MeanRises` | crates/rkvm-vision/src/signature.rs:30-38 | if every sample rises by at least d, so does the truncated mean |
| `LumaGrid.SmallChangesIgnored` | crates/rkvm-vision/src/signature.rs:43-47 | if no sample moves by more than t, no change is reported with threshold t |
| `LumaGrid.UnchangedIff` | crates/rkvm-vision/src/signature.rs:43-47 | of two pictures of one shape, no change is reported if and only if no cell's mean moved by more than t, up or down |
| `LumaGrid.LargeChangeShows` | crates/rkvm-vision/src/signature.rs:43-47 | if all samples of one cell brighten by more than t, or all darken by more than t, a change is reported |
| `RateLimit.RateLimiter.constructor` | app/src/web/ratelimit.rs:39-41 | starts with no entries and no clean-up |
| `RateLimit.RateLimiter.MaybeCleanup` | app/src/web/ratelimit.rs:43-57 | at most every five minutes, drops exactly the entries neither locked nor in their window |
| `RateLimit.RateLimiter.IsAllowed` | app/src/web/ratelimit.rs:59-81 | refuses exactly a locked address, with the seconds left rounded up past the lock |
| `RateLimit.RateLimiter.RecordFailure` | app/src/web/ratelimit.rs:83-111 | counts in the window, locks from the fifth attempt, and opens a window with the next backoff level after a lapse |
| `RateLimit.RateLimiter.RecordSuccess` | app/src/web/ratelimit.rs:113-116 | forgets that address and nothing else |
| `RateLimit.CleanupKeepsVerdicts` | app/src/web/ratelimit.rs:43-66 | a clean-up changes no verdict for any address, then or later |
| `RateLimit.EscalatesIff` | app/src/web/ratelimit.rs:43-100 | for every state, an address whose window lapsed after it earned a longer one gets the next level, at most 3, exactly if no clean-up is due or it is still locked, and starts at level 0 otherwise |
| `RateLimit.RetryTight` | app/src/web/ratelimit.rs:68-73 | after the announced wait the address is admitted, and more than a second before that it is still refused |
| `RateLimitRuns.WindowFormula` | app/src/web/ratelimit.rs:33-36 | the window at level `n` is `2^min(n, 3)` times 15 minutes |
| `RateLimitRuns.CleanSlate` | app/src/web/ratelimit.rs:83-116 | in every history, an address with no failure since the start or its latest success is admitted, and a failure now is the first of a 15-minute window |
| `RateLimitRuns.CountsOnIff` | app/src/web/ratelimit.rs:83-105 | in every history, a failure counts on in the window of the one before it until that has lapsed, and from then on is the first of a new one |
| `RateLimitRuns.LocksFromFifth` | app/src/web/ratelimit.rs:106-110 | in every history, a failure leaves the address locked, for its whole window from then, exactly from the fifth of the window on |
| `RateLimitRuns.RefusedIff` | app/src/web/ratelimit.rs:59-81 | in every history, an address is refused exactly if its latest failure, no success since, was the fifth or later of its window and is less than that window back |
| `RateLimitRuns.ConsecutiveLinked` | app/src/web/ratelimit.rs:59-111 | two successive failures count on in one window or open a new one after the old lapsed, and a fifth is followed a whole window later, whatever other addresses and clean-ups do between |
| `RateLimitRuns.NineSpread` | app/src/web/ratelimit.rs:83-111 | nine linked failures span at least the base window |
| `RateLimitRuns.AtMostEight` | app/src/web/ratelimit.rs:33-111 | in every history where each failure follows its own successful check, any half-open 15 minutes hold at most eight failures of an address with no success between |
| `RateLimitRuns.EightHappen` | app/src/web/ratelimit.rs:92-110 | eight such failures within a nanosecond do occur, so the bound is exact |
| `RateLimitRuns.LapseEscalatesIff` | app/src/web/ratelimit.rs:43-100 | in every history, a failure that opens a window after an earned backoff escalates exactly if the address is still locked, or the latest clean-up is under five minutes old and found its entry locked or in its window |
| `RateLimitRuns.AskingEscalates` | app/src/web/ratelimit.rs:43-100 | a history in which one refused check during the last five minutes of the lock leads to the doubled window |
| `RateLimitRuns.StayingAwayForgets` | app/src/web/ratelimit.rs:43-100 | a history in which an address locked out and away until after the lock starts afresh, however long it stays away |
| `RateLimitRuns.WaitingAdmits` | app/src/web/ratelimit.rs:59-81 | an address that waits the announced time without failing again is admitted, whatever else happens |
| `Relock.RelockWatch.constructor` | app/src/hardware/v4l2.rs:307-312 | starts with nothing observed |
| `Relock.RelockWatch.Observe` | app/src/hardware/v4l2.rs:328-353 | the verdict and whole new state are those of the decision function that the run lemmas characterise |
| `RelockRuns.TotalIsWindow` | app/src/hardware/v4l2.rs:328-346 | the total is exactly the events of the last 10 s since the previous replug; quiet exactly below six |
| `RelockRuns.SixPerReplug` | app/src/hardware/v4l2.rs:328-352 | six times the replugs, plus what is still counted, never exceeds the events observed |
| `RelockRuns.BackoffFormula` | app/src/hardware/v4l2.rs:322-326 | the backoff is `min(30 * 2^n, 600)` s for every n |
| `RelockRuns.ReplugsIff` | app/src/hardware/v4l2.rs:328-352 | in every history, an observation replugs if and only if six or more events of the last 10 s came since the latest replug and either no attempt of an unsettled episode came before or the latest, the `k`th, is at least `min(30 * 2^(k - 1), 600)` s back; an episode settles by a quiet observation 300 s after its latest replug |
| `RelockRuns.ReplugsLinked` | app/src/hardware/v4l2.rs:328-352 | each replug is the next attempt after its backoff or the first of an episode after settling |
| `RelockRuns.GapsGrow` | app/src/hardware/v4l2.rs:322-352 | gap k of an episode is at least `min(30 * 2^(k - 1), 600)` s, a gap between episodes at least 300 s |
| `RelockRuns.FiveReplugsSpan` | app/src/hardware/v4l2.rs:307-353 | any five replugs in a row span at least 420 s, across episodes too |
| `RelockRuns.FiveReplugsHappen` | app/src/hardware/v4l2.rs:328-352 | a history whose five replugs span exactly 420 s, so the bound is exact |
| `HidRpc.FramingRoundTrip` | crates/rkvm-proto/src/hidrpc.rs:24-68 | unmarshalling inverts marshalling, and every buffer that parses is its message's encoding |
| `HidRpc.MacroRoundTrip` | crates/rkvm-proto/src/hidrpc.rs:193-223 | steps laid out as big-endian 9-byte records, framed, unframed and parsed come back unchanged |
| `HidRpc.AcceptedIsLayout` | crates/rkvm-proto/src/hidrpc.rs:193-209 | a payload is accepted exactly if its length is `5 + 9n` for its count, and is then the layout of what was read, up to the paste flag |
| `HidRpc.BytesSay` | crates/rkvm-proto/src/hidrpc.rs:193-223 | where each field lies, byte by byte: the count in bytes 1 to 4 and the delays most significant byte first, step `k` from byte `5 + 9k`, behind type byte 7 |
| `HidRpc.KeyboardMacroReportOf` | crates/rkvm-proto/src/hidrpc.rs:193-223 | the loop with its moving offset reads exactly those records |
| `Typing.TextToMacroSteps` | crates/rkvm-proto/src/keymap.rs:315-328 | all strokes of a supported text in order, or the first unsupported character |
| `Typing.SupportedIff` | crates/rkvm-proto/src/keymap.rs:315-328 | printable ASCII, newline, tab and the skipped return are supported, and nothing else |
| `Typing.StepsAlternate` | crates/rkvm-proto/src/keymap.rs:298-328 | each character but returns yields, in order, its key alone and then an all-up, both with the given delay |
| `Typing.KeystrokeTypes` | crates/rkvm-proto/src/keymap.rs:151-196 | every supported character's keystroke types that character on a US layout (Keyboard/Keypad Page, section 10 of HID Usage Tables 1.12) |
| `Typing.TextIsTyped` | crates/rkvm-proto/src/keymap.rs:298-328 | replaying the steps types the text less carriage returns, repeated letters included, and leaves no key held |
| `Typing.TypedOverTheWire` | crates/rkvm-proto/src/keymap.rs:298-328 | the same after a trip over the wire |

## Left out

- The macro lane and the queue protocol are transition systems over atomic steps, not objects: sequential consistency
  is assumed, as `SeqCst` and the mutexes give it; a poisoned mutex and a task dropped half-way are not modelled.
- Epochs, attempt and event counters are unbounded: the wrap of a `u64` or `u32` counter is not modelled.
- The early refusal of `play_macro` when USB HID is missing is not a step of its own; the same check inside the task
  is. Begin and end notices over the data channel are steps with no visible content.
- Finite `f32` values are reals without rounding; infinities and NaN occur only in CTC decoding; the shifts and ors of
  `f16_to_f32` are written as arithmetic on fields.
- Overflow of `u64` in the cost of `choose_shape` and of `usize` in index products is not modelled;
  `DbBoxes.FindBoxes` asks that the picture's size fits a `usize`.
- FingerprintFew.TellsApartByCount: leaves open four to eight visible bytes with no full group among them, where the
  answer may hang on the seed, that is on the rectangle itself.
- Fingerprint.FingerprintOf: which 64-bit value a picture gets is left to the source's constants and byte order; what
  the theorems state is which pictures share one.
- Merging.SameLineMeans: for boxes whose left edge is not right of their right edge.
- Crops of height zero are outside `SplitLine.SubmitLine`, whose only caller keeps crops at least 4 high
  (crates/rkvm-vision/src/npu.rs:551); the blank columns are an input to it, and sampling pixels is not modelled.
- Time is a parameter that never runs backwards between calls; two threads reading the clock in one order and locking
  in the other are not modelled.
- A failure recorded without its own check first (several logins at once from one address) is outside
  `RateLimitRuns.AtMostEight`.
- Not modelled: sorting boxes into reading order, clamping boxes to pixels, loading the dictionary, stitching
  recognized pieces into lines, key combinations and key names, and the parsers of the other HID messages.
- The contents of live key reports are arbitrary; how keypresses add up to a report, and the write queue behind
  `keyboard_report`, are not modelled.
- GStreamer, V4L2 ioctls, the NPU runtime, WebRTC, MQTT, configuration, TLS, authentication and the web interface are
  not part of this model.
