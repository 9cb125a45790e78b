# RustyN64: a verified model of the timing, video, cache and device logic

RustyN64 is a Nintendo 64 emulator written in Rust. This project models the parts of it that have to
agree with something simpler, or that keep a promise over whole runs, and proves that they do:

- **VI scan-out.** The output walk, its bilinear, de-dither, AA-edge and divot filters and its gamma
  table, over a two-layer memo of two source rows. The frame it draws is compared byte for byte with a
  reference that uses no memo, skips no tap and takes no shortcut, and the memo is shown to compute
  every source pixel and every coverage fetch at most once. What the frame shows is stated from the
  registers alone, down to a picture drawn by the RDP coming out as it was drawn.
- **The timeline.** One incremented tick counter, the accurate, period-replay and instruction-paced run
  loops over an arbitrary deterministic machine, the VI half-line counter, the AI sample clock, the COP0
  `Count`/`Compare` edge and the `Random` register, each fast form against its plain one.
- **The caches.** The write-back data cache, 512 direct-mapped lines driven as the pipeline drives them,
  against a flat big-endian memory, over any program of loads, stores and flushes; and both caches
  over one memory, for programs that write stored code back and refresh it before they fetch it.
- **Device and exception state machines.** The AI's two-deep DMA FIFO with its delayed-carry address
  bug, the joybus executor that rewrites its own input, the FlashRAM command machine, and the nesting of
  exceptions and NMIs (NEC VR4300 User's Manual, sections 6.3.7 and 6.4).

## How the model is built

What the source changes in place is a class or an array here, changed in place by methods of the same
shape; each such method is proved equal to a function on values (`Value`, `State`, `View`, `Slots`,
`Flat`), and what the source promises is proved about those functions, for every input and over every
run. Machine widths are explicit: `u32`, `u64` and `byte` are bounded integers whose wrap-around,
truncation and saturation are written out, and bit-vectors are used where the source masks bits.

| files | component |
|---|---|
| `MachineWords`, `BigEndian` | widths, saturating arithmetic, byte order |
| `ViFilters`, `ViSource`, `ViSampling`, `ViScanout` | pixel filters, source pixels, the two-layer memo, the output walk |
| `PixelStore`, `ViPicture` | the RDP's pixel and coverage writes, and what the scan-out shows of them |
| `Scheduler`, `ViTiming`, `Cop0Timer` | the run loops, the VI scan, the timer and `Random` |
| `DataCache`, `CachedMemory` | the data cache, and the pipeline's driving of it |
| `InstructionCache`, `SplitCaches` | the instruction cache, and both caches over one memory, which software has to keep coherent |
| `AudioFifo`, `AudioPlayback`, `AudioLedger`, `AudioInterface`, `AudioBalance`, `AudioFrames` | one sample, runs of transfers, conservation, the device, conservation on the device, what is heard |
| `SaveBlocks`, `JoybusCrc`, `JoybusFrame`, `JoybusExecutor`, `JoybusRequests` | save stores, accessory checksum, parse-then-run reference, in-place executor, what a game's requests get back |
| `FlashMachine`, `FlashRam` | the flash command machine over runs, and the chip |
| `Exceptions`, `ExceptionHandler` | exception, NMI and `ERET`; what a handler finds in the registers |

`dafny verify dfyconfig.toml` checks all of it.

## Where the code and its promises differ

- The AI's delayed carry makes a transfer read a page too far exactly when its back-to-back predecessor
  ended on a page boundary (`AudioPlayback.ChainReadsAsDocumented`). This is the documented hardware bug.
- `timer_edge` reports at most one edge per poll, so polls 2^32 `Count` ticks or more apart miss one
  match for every full turn, for every `Compare` (`Cop0Timer.PollMissesOnePerTurn`,
  `Cop0Timer.PollIsExactIffShort`).
- The idle batch is meant to hand the timer's interrupt back on its own boundary. Its bound counts from
  the last poll, but the batch starts after the instruction that polled, which has already used `Count`
  ticks of it: recognizing the idle loop costs two cycles, one tick (`Scheduler.TwoCyclesMoveCount`). A
  batch that fills the bound therefore ends that many ticks late, one fewer when `Compare` was on the
  value polled (`Cop0Timer.BoundIsOnTimeIff`, `Scheduler.FullBatchEndsOneTickLate`);
  `Scheduler.BatchDelaysTimerIff` says exactly when a batch is late.
- The idle batch is also meant to leave at the first boundary where the RCP has raised an interrupt or a
  halt, and the comment at crates/rustyn64-core/src/scheduler.rs:652-654 says the RCP can raise one only at
  a step the batch makes itself. It tests after each pair but not before its first one, so an interrupt that
  an RCP step raises inside the parked instruction's own span is taken one pair late
  (`Scheduler.EventInsideTheInstructionWaitsAPair`). Every later boundary is honoured, so a batch skips no
  event if and only if nothing was raised when it started (`Scheduler.BatchSkipsNoEventIff`).
- `Vi::reset_scan` is documented as needed because every tick would otherwise be lost until the new run
  caught up. `tick` re-bases itself on every call, so only the first would be
  (`ViTiming.StaleScanLosesOneTick`); what the reset decides is where the scan stands
  (`ViTiming.ResetFollowsTheTimeline`).
- `Hit_Invalidate` and `Index_Store_Tag` are not transparent; the exact condition under which each leaves
  the processor's view of memory unchanged is proved (`CachedMemory.DataPath.HitInvalidate`,
  `CachedMemory.DataPath.StoreTag`), with a tag store that loses a write
  (`CachedMemory.StoreTagLosesAWrite`).
- A store reaches the instruction cache only by way of memory. Code that was stored is fetched correctly
  when the data cache has written it back and the instruction cache has been refreshed since
  (`SplitCaches.SplitCaches.Run`). Nothing weaker will do: a fetch is right in every state software can
  have left behind if and only if its own data line is written back and its instruction line is not stale
  (`SplitCaches.FetchIsAlwaysRightIff`), and a word stored over one that was fetched correctly is missed
  unless it changed nothing (`SplitCaches.FetchMissesStoreIff`).
- A Controller Pak block past the end of the 32 KiB store reads back only if it was all zeros
  (`JoybusFrame.PakRoundTrip`).
- A queued transfer waits for ever exactly when the DMA is disabled and it is non-empty
  (`AudioLedger.RetiresIffCanDrain`).
- An EEPROM block past the end of a 4 kbit part reads back only if it was all zeros
  (`JoybusFrame.EepromRoundTrip`), and a flash page programmed without an erase reads back only if no bit
  had to be set (`FlashMachine.ProgramReadsBack`).

## Model

| member | source | states |
|---|---|---|
| ViScanout.ScanoutScaled | crates/rustyn64-core/src/bus.rs:1309-1466 | for every memory, programming and buffer: a refused frame reports 0x0 and writes nothing; otherwise every byte of the frame is the memo-free reference (four taps, or one sample in the replicate mode), nothing past the frame changes, and no filter chain or coverage fetch is computed twice |
| ViScanout.ResamplePixel | crates/rustyn64-core/src/bus.rs:1445-1455 | skipping the taps of weight zero gives the same pixel as blending all four |
| ViScanout.OutputPixel | crates/rustyn64-core/src/bus.rs:1427-1462 | one output pixel, gamma included, is the reference pixel, through the memo |
| ViScanout.DecodeBounds | crates/rustyn64-core/src/bus.rs:1330-1378 | no register value makes a frame larger than the prescale buffer, and the accumulators' ranges |
| ViScanout.WalkStaysInWindow | crates/rustyn64-core/src/bus.rs:1386-1434 | the window derived before the loop is always granted and holds every column the walk asks for, and no coordinate leaves 32 signed bits |
| ViPicture.FrameIsWhatIsShown | crates/rustyn64-core/src/bus.rs:1336-1381 | the frame is exactly the prescale columns of the active span inside the buffer, less eight on the left and seven on the right except at an end the buffer cut, and the rows of the span inside the buffer |
| ViPicture.ShownLooksAt | crates/rustyn64-core/src/bus.rs:1342-1366 | every drawn column and row looks at the source as many scale steps from the programmed start as it stands from the span's own start, cut off or not |
| ViPicture.RefusedIff | crates/rustyn64-core/src/bus.rs:1314-1388 | a frame is refused if and only if the VI is blanked, no column or row is drawn, or the buffer is too small |
| ViPicture.PictureComesOut | crates/rustyn64-core/src/bus.rs:1309-1466 | over any drawing on the image the registers point at, every column and row of an unscaled, unfiltered frame is its own source pixel in its last colour, in both formats |
| ViPicture.RampIsFollowed | crates/rustyn64-core/src/bus.rs:1417-1455 | where a channel is a ramp across and down the source, a drawn pixel has the ramp's value where it looks, within the weights' resolution and the two roundings |
| ViPicture.FiltersFollowControl | crates/rustyn64-core/src/bus.rs:1316-1334 | which control bits choose the raw pixel, the divot, the edge pull and the de-dither |
| ViPicture.FlatAreaUnchanged | crates/rustyn64-core/src/bus.rs:1507-1526 | inside a covered area of one colour no filter changes a pixel |
| PixelStore.PixelReadsBack | crates/rustyn64-core/src/bus.rs:1600-1626 | a pixel stored with its coverage, packed to 5551 with the hidden bits or whole, is fetched with that colour and that coverage |
| PixelStore.OtherPixelsKeep | crates/rustyn64-rdp/src/lib.rs:2716-2759 | and no other pixel of the image changes |
| PixelStore.HiddenReadsBack | crates/rustyn64-core/src/bus.rs:2542-2565 | a halfword's two hidden bits read back as written, and no other halfword's change |
| PixelStore.LastStrokeStays | crates/rustyn64-rdp/src/lib.rs:2716-2759 | after any drawing each pixel reads back as the last stroke on it |
| ViSampling.ViSampler.constructor | crates/rustyn64-core/src/bus.rs:182-205 | a fresh memo is valid and empty, and an inverted or too wide range gets no cells |
| ViSampling.ViSampler.RowSlot | crates/rustyn64-core/src/bus.rs:217-243 | a resident row is found without disturbing either layer; on a forward walk a row is never asked for again after its eviction |
| ViSampling.ViSampler.Evict | crates/rustyn64-core/src/bus.rs:227-242 | handing a row over clears exactly that row of both layers |
| ViSampling.ViSampler.Sample | crates/rustyn64-core/src/bus.rs:1476-1499 | the outer layer returns what recomputing the pixel would, although its cell was chosen before the nested fetches ran |
| ViSampling.ViSampler.SampleDirect | crates/rustyn64-core/src/bus.rs:1507-1526 | the filter dispatch computes the source pixel and keeps every resident outer cell |
| ViSampling.ViSampler.FetchCovMemo | crates/rustyn64-core/src/bus.rs:1708-1738 | the inner layer returns what recomputing the coverage fetch would |
| ViSampling.ViSampler.Divot | crates/rustyn64-core/src/bus.rs:1749-1771 | the divot is the per-channel median of three filtered neighbours unless all are fully covered |
| ViSampling.ViSampler.Column | crates/rustyn64-core/src/bus.rs:1538-1545 | the vertical blend of one column, its lower tap skipped at weight zero |
| ViSource.FetchCov | crates/rustyn64-core/src/bus.rs:1640-1689 | reading, de-dithering or edge-filtering one source pixel gives the filtered source sample, for both formats |
| ViSource.VideoFilter | crates/rustyn64-core/src/bus.rs:1782-1822 | gathering the covered neighbours and pulling toward the runners-up gives the edge colour |
| ViSource.Restore | crates/rustyn64-core/src/bus.rs:1671-1689 | the accumulated nudges, cast to bytes, are the de-dithered colour: no cast truncates |
| ViSource.MemoryWindow | crates/rustyn64-core/src/bus.rs:2048-2053 | a source read sees the eight megabytes in every 512-megabyte segment, and zero past them |
| ViSource.TapsAreNeighbours | crates/rustyn64-core/src/bus.rs:1649-1660 | the de-dither looks at the eight pixels around the centre, and the edge filter at the six two steps away that are not straight up or down, each once |
| ViSource.DivotTakesTheMiddle | crates/rustyn64-core/src/bus.rs:1749-1771 | the divot passes a pixel between covered neighbours and otherwise takes each channel's middle value |
| ViSource.EachChannelByItself | crates/rustyn64-core/src/bus.rs:1671-1689 | the edge pull, the de-dither and gamma treat each channel by itself |
| ViFilters.LerpChannel | crates/rustyn64-core/src/bus.rs:54-61 | the arithmetic-shift interpolation is the rounded weighted mean of its inputs |
| ViFilters.RoundedMean | crates/rustyn64-core/src/bus.rs:54-61 | every interpolated channel lies between its two inputs, for every weight 0 to 31 |
| ViFilters.BilinearWithinTaps | crates/rustyn64-core/src/bus.rs:1538-1545 | a bilinear channel lies between the least and greatest of its four taps |
| ViFilters.DeditherNeverTruncates | crates/rustyn64-core/src/bus.rs:1671-1689 | eight nudges guided by the top five bits never leave a byte |
| ViFilters.NudgesCount | crates/rustyn64-core/src/bus.rs:1671-1689 | the votes are the neighbours brighter in the top five bits less the darker ones |
| ViFilters.VideoMax | crates/rustyn64-core/src/bus.rs:272-304 | both extremes in one pass: the head where it is the extreme, otherwise the extreme of the rest without its first occurrence |
| ViFilters.FirstBestIsExtreme | crates/rustyn64-core/src/bus.rs:272-304 | the position tracked is the first occurrence of the extreme |
| ViFilters.BestWithoutIsExtreme | crates/rustyn64-core/src/bus.rs:272-304 | the runner-up is the extreme of the list with one position removed |
| ViFilters.RunnerUpBracketsHead | crates/rustyn64-core/src/bus.rs:272-304 | the two results bracket element 0, the centre pixel |
| ViFilters.PullNeverWraps | crates/rustyn64-core/src/bus.rs:1811-1819 | the wrapping unsigned pull equals the signed one and stays between the runners-up, so the byte mask never bites |
| ViFilters.PullIsNearest | crates/rustyn64-core/src/bus.rs:1811-1819 | the centre moves toward the midpoint by the coverage it lacks, to the nearest level |
| ViFilters.FilterChannel | crates/rustyn64-core/src/bus.rs:1808-1820 | one filtered channel is the edge pull of the gathered neighbourhood |
| ViFilters.MedianBranchesIsMedian | crates/rustyn64-core/src/bus.rs:1757-1765 | the divot's branches pick the median |
| ViFilters.IntegerSqrt | crates/rustyn64-core/src/bus.rs:249-265 | the bitwise root of every 32-bit input is its floor square root, without overflow |
| ViFilters.FloorSqrtSquares | crates/rustyn64-core/src/bus.rs:249-265 | what a floor square root means: r*r <= a < (r+1)*(r+1) |
| ViFilters.GammaTable | crates/rustyn64-core/src/bus.rs:310-325 | every gamma entry is twice the root of 64 times its index |
| ViFilters.GammaIsScaledRoot | crates/rustyn64-core/src/bus.rs:310-314 | a gamma entry is sixteen times the square root of its index, cut to an even number |
| ViFilters.GammaCurveMonotone | crates/rustyn64-core/src/bus.rs:310-325 | the gamma curve is monotone and at most 254 |
| Scheduler.System.RunUntil | crates/rustyn64-core/src/scheduler.rs:384-392 | the accurate loop steps exactly the edges of (now, target]; the machine ends where taking every due step of each domain, by tick and the CPU before the RCP, leads |
| Scheduler.System.RunUntilFast | crates/rustyn64-core/src/scheduler.rs:436-531 | the period-replay loop reaches the same trace, state and tick, the due steps taken in the same order; it reports (target - now)/6 blocks and a tail exactly when the remainder is non-zero |
| Scheduler.System.RunUntilExec | crates/rustyn64-core/src/scheduler.rs:574-678 | the machine ends where the log of the run takes it; every instruction starts where the span before it ended or where a halted CPU was let go, every batch covers its own pairs after a parked instruction, the RCP steps are exactly its edges and each instruction and batch finds the RCP exactly as far as its own tick, the report counts the instructions, and the run lands on the target or past it by less than the span of the last instruction issued |
| Scheduler.CpuEndIsLast | crates/rustyn64-core/src/scheduler.rs:586-646 | the CPU's time is spoken for by the last thing it did, so the overshoot is the last instruction's and no other's |
| Scheduler.System.RunIdleBatch | crates/rustyn64-core/src/scheduler.rs:685-717 | idle pairs in bulk never pass the target, stop for want of room, timer bound or an RCP event and for nothing else, end on a pair boundary, step every RCP edge once, stop at the first boundary after their start where an interrupt or a halt is raised, skip no event if and only if none was raised at their start, and delay no timer interrupt if and only if they end no later than the first match counted from the last poll |
| Scheduler.BatchDelaysTimerIff | crates/rustyn64-core/src/scheduler.rs:648-670 | for every batch of every run: the last poll was the instruction's before it, and the interrupt is on time if and only if the batch ends no later than the first match after that poll |
| Scheduler.BatchSkipsNoEventIff | crates/rustyn64-core/src/scheduler.rs:648-714 | for every batch of every run: nothing was raised at any boundary it passed after its start, and it skips no event if and only if nothing was raised at its start |
| Scheduler.EventInsideTheInstructionWaitsAPair | crates/rustyn64-core/src/scheduler.rs:634-670 | an input on which an interrupt raised inside the parked instruction's span waits for a whole pair |
| Scheduler.FullBatchEndsOneTickLate | crates/rustyn64-core/src/scheduler.rs:685-692 | an input on which the batch ends one `Count` tick after the match |
| Cop0Timer.SkippingIsOnTimeIff | crates/rustyn64-cpu/src/cop0.rs:467-491 | skipping polls delays no match if and only if the stretch ends by the first match, counted from the last poll |
| Cop0Timer.BoundIsOnTimeIff | crates/rustyn64-cpu/src/cop0.rs:467-491 | a stretch as long as the bound is on time if and only if it starts at the last poll, or one tick after it with `Compare` on it |
| Scheduler.System.CatchUp | crates/rustyn64-core/src/scheduler.rs:636-645 | the RCP steps every edge of a span once and in order |
| Scheduler.System.NextEdge | crates/rustyn64-core/src/scheduler.rs:323-331 | the next tick at which any domain is due, and none is due before it |
| Scheduler.NextEdgeAfter | crates/rustyn64-core/src/scheduler.rs:312-320 | the least later tick on a domain's edges |
| Scheduler.System.StepDomains | crates/rustyn64-core/src/scheduler.rs:350-362 | with both due the RCP steps the state the CPU's step left, the CPU with the `Count` of the tick; a CPU that is halted beforehand is passed over; alone, each steps alone |
| Scheduler.ReplayTakesInOrder | crates/rustyn64-core/src/scheduler.rs:343-392 | any list of all that is due in a span, each once, by tick and the CPU before the RCP, takes the machine where the replay of the schedule does |
| Scheduler.ScheduleIsExact | crates/rustyn64-core/src/scheduler.rs:307-342 | a schedule holds exactly the due ticks, once each, increasing |
| Scheduler.StepCountsAreCycleDifferences | crates/rustyn64-core/src/scheduler.rs:284-292 | each domain is stepped as often as its derived cycle count advances |
| Scheduler.RunsCompose | crates/rustyn64-core/src/scheduler.rs:384-392 | running to b and then c is running straight to c |
| Scheduler.RcpEdgesAreScheduled | crates/rustyn64-core/src/scheduler.rs:307-342 | the RCP steps of the instruction-paced loop are those of the accurate schedule, tick for tick |
| Scheduler.RcpEdgesAreExact | crates/rustyn64-core/src/scheduler.rs:284-320 | the RCP's edges are in range, increasing, and as many as its derived cycles |
| Scheduler.LogsAppend | crates/rustyn64-core/src/scheduler.rs:574-717 | logs compose: state, RCP ticks and instruction count of a run in two parts |
| Scheduler.PairIsOneCountTick | crates/rustyn64-core/src/scheduler.rs:685-693 | an idle pair is exactly one `Count` tick |
| Scheduler.CountIsHalfTheCpu | crates/rustyn64-core/src/scheduler.rs:284-306 | `Count` ticks once for every two CPU cycles |
| Scheduler.SpanIsItsCycles | crates/rustyn64-core/src/scheduler.rs:618-632 | an instruction ends as many CPU cycles on as it cost, a costless one after one |
| ViTiming.Vi.Tick | crates/rustyn64-core/src/vi.rs:224-281 | the loop with its early-out equals the closed form in position, remainder and interrupt, for every register value |
| ViTiming.LandsIffNearEnough | crates/rustyn64-core/src/vi.rs:224-281 | `VI_V_INTR` is landed on exactly when it exists in the field and is within the half-lines completed |
| ViTiming.TickSlices | crates/rustyn64-core/src/vi.rs:224-281 | stopping on the way gives the same position and remainder and the disjunction of the interrupts |
| ViTiming.AnySlicingIsOneTick | crates/rustyn64-core/src/vi.rs:224-281 | so does any sequence of stops |
| ViTiming.Period | crates/rustyn64-core/src/vi.rs:93-122 | no programming gives a half-line shorter than the skip bound |
| ViTiming.FieldLasts | crates/rustyn64-core/src/vi.rs:190-218 | a field's half-lines, of whole ticks, make one sixtieth of a second, or one fiftieth when the total is PAL's |
| ViTiming.InterruptFollowsRegisters | crates/rustyn64-core/src/vi.rs:220-290 | from a reset on, the interrupt comes with the half-line the low ten bits of `VI_V_INTR` name, if the VI is on and the field has it |
| ViTiming.ResetFollowsTheTimeline | crates/rustyn64-core/src/vi.rs:176-185 | after a reset the scan stands where the new timeline alone puts it, and fires exactly when that many half-lines reach `VI_V_INTR` |
| ViTiming.StaleScanLosesOneTick | crates/rustyn64-core/src/vi.rs:224-227 | a scan that is not reset loses exactly the first tick of the new timeline: nothing moves or fires on it, and the next one counts in full |
| Cop0Timer.Timer.TimerEdge | crates/rustyn64-cpu/src/cop0.rs:415-426 | a poll reports an edge for the matches since the last one, short of the full turns between them |
| Cop0Timer.Timer.PollAll | crates/rustyn64-cpu/src/cop0.rs:371-426 | over any polls less than 2^32 ticks apart, edges reported equal timeline positions where `Count` equals `Compare` |
| Cop0Timer.PollMissesOnePerTurn | crates/rustyn64-cpu/src/cop0.rs:415-426 | matches in a gap are its full turns plus the one edge a poll can see |
| Cop0Timer.PollIsExactIffShort | crates/rustyn64-cpu/src/cop0.rs:415-426 | a poll counts right for every `Compare` if and only if the gap is under 2^32 |
| Cop0Timer.BoundIsFirstFiringGap | crates/rustyn64-cpu/src/cop0.rs:483-491 | the idle bound is the first gap whose poll fires, except when `Count` already equals `Compare` |
| Cop0Timer.Timer.WriteCount | crates/rustyn64-cpu/src/cop0.rs:600-639 | writing `Count` re-bases the derived value and never fires |
| Cop0Timer.Timer.WriteCompare | crates/rustyn64-cpu/src/cop0.rs:600-639 | writing `Compare` acknowledges and never fires |
| Cop0Timer.RandomByIsIteration | crates/rustyn64-cpu/src/cop0.rs:449-465 | the closed form is n single steps, for every six-bit `Wired` and `Random` |
| Cop0Timer.RandomByComposes | crates/rustyn64-cpu/src/cop0.rs:449-465 | advancing by a and then b is advancing by a + b |
| Cop0Timer.RandomNeverWired | crates/rustyn64-cpu/src/cop0.rs:720-728 | from its reload value 31, `Random` never passes below a `Wired` of at most 31, and a larger `Wired` lets it count all the way down |
| Cop0Timer.RandomCounter.TickRandomBy | crates/rustyn64-cpu/src/cop0.rs:449-465 | the register walks as n single ticks would |
| DataCache.Dcache.MissPlan | crates/rustyn64-cpu/src/cache.rs:175-188 | a hit needs nothing; a miss names the write-back of a dirty valid line, at the address it came from |
| DataCache.Dcache.Install | crates/rustyn64-cpu/src/cache.rs:191-199 | installs one clean valid line and touches no other |
| DataCache.Dcache.Read | crates/rustyn64-cpu/src/cache.rs:207-215 | the byte loop assembles the big-endian word |
| DataCache.Dcache.Write | crates/rustyn64-cpu/src/cache.rs:219-227 | the byte loop stores the big-endian bytes and dirties the line |
| DataCache.Dcache.FlushIndex | crates/rustyn64-cpu/src/cache.rs:259-281 | which line is written back, cleaned or dropped, and nothing else |
| DataCache.Dcache.CreateDirtyExclusive | crates/rustyn64-cpu/src/cache.rs:289-303 | claims the line dirty with its old bytes, handing back the evicted one |
| DataCache.AddressParts | crates/rustyn64-cpu/src/cache.rs:147-166 | an address's tag always fits its index, and together they give its line |
| DataCache.ResidentAddrRoundTrip | crates/rustyn64-cpu/src/cache.rs:147-159 | a line's address maps back to its index exactly when the tag's low bit agrees with it |
| DataCache.WriteBackKeeps | crates/rustyn64-cpu/src/cache.rs:259-281 | writing a line back and cleaning it keeps coherence and the logical memory |
| DataCache.DropKeeps | crates/rustyn64-cpu/src/cache.rs:168-199 | dropping a clean line changes nothing |
| DataCache.FillKeeps | crates/rustyn64-cpu/src/cache.rs:168-199 | installing what memory holds changes nothing |
| DataCache.WriteUpdates | crates/rustyn64-cpu/src/cache.rs:219-227 | a write to a resident line is a write to the logical memory |
| DataCache.ReadSees | crates/rustyn64-cpu/src/cache.rs:207-215 | a resident line's bytes are the logical memory's |
| DataCache.TagRoundTrip | crates/rustyn64-cpu/src/cache.rs:89-106 | what `TagLo` can express survives storing and loading a tag |
| DataCache.TagLoNamesTheFrame | crates/rustyn64-cpu/src/cache.rs:89-106 | the word made of an address's frame and `PState` 3 is what a load shows of its line and what a store makes resident; no other state is valid |
| DataCache.PushLine | crates/rustyn64-cpu/src/pipeline.rs:2003-2008 | word stores put a line into memory unchanged |
| DataCache.PullLine | crates/rustyn64-cpu/src/pipeline.rs:2011-2017 | word loads bring a line out unchanged |
| SplitCaches.SplitCaches.Run | crates/rustyn64-cpu/src/pipeline.rs:1841-2116 | both caches over one memory: any program that writes a stored data line back and fills or invalidates its instruction line before fetching from it gets from every load and fetch what one flat memory gives |
| SplitCaches.SplitCaches.Fetch | crates/rustyn64-cpu/src/pipeline.rs:2545-2552 | a fetch whose data line is written back and whose instruction line is not stale returns the word the processor stored, hit or miss |
| SplitCaches.FetchIsAlwaysRightIff | crates/rustyn64-cpu/src/pipeline.rs:2545-2552 | a fetch returns what was stored in every state of a debt if and only if its own data line is written back and its instruction line is not stale |
| SplitCaches.FetchMissesStoreIff | crates/rustyn64-cpu/src/pipeline.rs:2545-2552 | after a store over a word that was fetched correctly the fetch returns the old word, so it is right if and only if the store changed nothing |
| SplitCaches.WindowIsFlat | crates/rustyn64-cpu/src/pipeline.rs:1956-1960 | an instruction line with both its data lines written back reads from memory as the processor sees it |
| SplitCaches.WriteBackSettles | crates/rustyn64-cpu/src/cache.rs:259-281 | after a flush of a data line, whichever way it was addressed, that line is no longer unwritten |
| SplitCaches.EarlyFillOwes | crates/rustyn64-cpu/src/pipeline.rs:1956-1960 | a line filled before its memory is written back is owed another refresh |
| InstructionCache.FetchPath.Run | crates/rustyn64-cpu/src/pipeline.rs:1841-1960 | the instruction cache alone: any program that refreshes a line after a write to it has reached memory, and before fetching from it, fetches exactly what memory holds, whatever is evicted, filled or invalidated in between |
| InstructionCache.FetchPath.Fetch | crates/rustyn64-cpu/src/cache.rs:345-363 | the word is the resident line's whatever memory holds, otherwise memory's; after a miss, or on a line owed no refresh, that is memory's word |
| InstructionCache.FetchPath.Fill | crates/rustyn64-cpu/src/pipeline.rs:1956-1960 | an unconditional fill makes the line hold memory |
| InstructionCache.FetchPath.HitInvalidate | crates/rustyn64-cpu/src/cache.rs:402-406 | drops only a resident line, after which the address can no longer be fetched stale |
| InstructionCache.FetchPath.HitWriteBack | crates/rustyn64-cpu/src/cache.rs:408-424 | puts the line over its memory, which changes nothing unless memory changed underneath |
| InstructionCache.AddressParts | crates/rustyn64-cpu/src/cache.rs:335-350 | tag and index, overlapping in two bits, give back the line |
| InstructionCache.StoreOwes | crates/rustyn64-cpu/src/cache.rs:408-424 | a write that reaches memory makes at most its own line stale |
| InstructionCache.Settles | crates/rustyn64-cpu/src/cache.rs:365-406 | a fill or an invalidation settles it |
| BigEndian.WrittenWordReadsBack | crates/rustyn64-cpu/src/cache.rs:207-227 | a stored word loads back, modulo its width |
| BigEndian.ReadWordSplitsBack | crates/rustyn64-cpu/src/cache.rs:207-227 | a loaded word stores back the same bytes |
| CachedMemory.DataPath.Run | crates/rustyn64-cpu/src/pipeline.rs:1841-2116 | any program of loads, stores and write-back flushes returns what a flat memory would and leaves the flat memory it would |
| CachedMemory.DataPath.Load | crates/rustyn64-cpu/src/pipeline.rs:2054-2059 | a load sees the flat memory and does not change it |
| CachedMemory.DataPath.Store | crates/rustyn64-cpu/src/pipeline.rs:2104-2116 | a store is a flat store |
| CachedMemory.DataPath.Fill | crates/rustyn64-cpu/src/pipeline.rs:1983-1995 | write-back, fetch and install are invisible |
| CachedMemory.DataPath.Flush | crates/rustyn64-cpu/src/pipeline.rs:1841-1927 | a write-back flush is invisible |
| CachedMemory.DataPath.FlushAll | crates/rustyn64-cpu/src/cache.rs:259-281 | flushing every line leaves memory equal to the logical memory |
| CachedMemory.DataPath.HitInvalidate | crates/rustyn64-cpu/src/pipeline.rs:1886-1927 | discarding a line is invisible if and only if it was not resident or held what memory holds, and shows memory there otherwise |
| CachedMemory.DataPath.CreateDirtyExclusive | crates/rustyn64-cpu/src/cache.rs:283-303 | the flat memory changes in that line alone, to the bytes the line held |
| CachedMemory.DataPath.OverwriteLine | crates/rustyn64-cpu/src/cache.rs:283-303 | claimed and then overwritten whole, the stale bytes never show |
| CachedMemory.DataPath.StoreTag | crates/rustyn64-cpu/src/cache.rs:241-247 | three exact conditions, each an if-and-only-if: the cache stays coherent; the processor's view is unchanged; both, which holds when every address that can hit the line, by its old tag or its new one, finds in memory what the line holds |
| CachedMemory.RetagUnseenIff | crates/rustyn64-cpu/src/cache.rs:241-253 | a change of tag or flags shows nowhere if and only if the same addresses hit as before, or memory holds the line behind both tags |
| CachedMemory.FlatLoadAfterStore | crates/rustyn64-cpu/src/cache.rs:207-227 | the flat memory is a memory: stored values load back and other addresses do not notice |
| CachedMemory.StoreTagLosesAWrite | crates/rustyn64-cpu/src/cache.rs:241-247 | a tag stored over a dirty line: nothing is incoherent, and the write is gone |
| DataCache.HitByIff | crates/rustyn64-cpu/src/cache.rs:147-166 | a valid line can be hit by some address if and only if its tag fits its index |
| AudioFifo.AdvanceIsLinear | crates/rustyn64-audio/src/lib.rs:629-655 | with the carry applied a sample late, each sample still reads the position and moves it on by one word, and the carry is owed exactly at a page's end |
| AudioFifo.SampleIsSound | crates/rustyn64-audio/src/lib.rs:629-675 | every sample keeps addresses and lengths word-aligned, so the length never underflows |
| AudioPlayback.TransferPlaysThrough | crates/rustyn64-audio/src/lib.rs:629-675 | a transfer reads exactly base, base+4, ... modulo 2^24 across any pages, then hands over |
| AudioPlayback.ChainReadsAsDocumented | crates/rustyn64-audio/src/lib.rs:422-449 | every chain of back-to-back transfers reads its own words, a successor from one page too far if and only if its predecessor ended on a page boundary |
| AudioPlayback.ChainFromIdle | crates/rustyn64-audio/src/lib.rs:422-449 | a chain begun on an idle queue owes no carry |
| AudioPlayback.AfterComposes | crates/rustyn64-audio/src/lib.rs:629-675 | samples compose, in state and in the words read |
| AudioLedger.LedgerBalances | crates/rustyn64-audio/src/lib.rs:422-469 | over every interleaving of writes and samples, bytes queued are played or remaining, and interrupts are transfers less the one still waiting |
| AudioLedger.TotalsDecideTheQueue | crates/rustyn64-audio/src/lib.rs:422-469 | the totals say whether the queue is empty or full |
| AudioLedger.FrontRetires | crates/rustyn64-audio/src/lib.rs:657-675 | a transfer that can drain leaves at exactly its last sample, and at its first if empty |
| AudioLedger.RetiresIffCanDrain | crates/rustyn64-audio/src/lib.rs:629-675 | samples alone free a slot if and only if the front transfer is empty or the DMA is enabled |
| AudioInterface.Audio.constructor | crates/rustyn64-audio/src/lib.rs:280-308 | power-on is idle and already running at the default rate |
| AudioInterface.Audio.WriteReg | crates/rustyn64-audio/src/lib.rs:422-469 | each register write's whole effect, and the interrupt on start |
| AudioInterface.Audio.Tick | crates/rustyn64-audio/src/lib.rs:543-547 | a step emits exactly the samples due, interrupts included |
| AudioInterface.Audio.TickWithoutBus | crates/rustyn64-audio/src/lib.rs:564-603 | a token comes back exactly when samples are due; otherwise the step is already complete |
| AudioInterface.Audio.TickWithBus | crates/rustyn64-audio/src/lib.rs:619-625 | the loop emits the samples due and advances the schedule past now |
| AudioInterface.Audio.EmitSample | crates/rustyn64-audio/src/lib.rs:629-675 | one sample: a frame that holds the word read, left half high, or a level a sixty-fourth nearer silence; retirement, promotion, underrun |
| AudioInterface.AnySlicingPlaysTheSame | crates/rustyn64-audio/src/lib.rs:537-625 | on an anchored schedule, any rising sequence of ticks is the last of them |
| AudioInterface.OneFramePerSample | crates/rustyn64-audio/src/lib.rs:629-675 | each sample appends one frame and moves the FIFO as its runs say |
| AudioBalance.EmitsAsLedgered | crates/rustyn64-audio/src/lib.rs:619-675 | the samples of a tick leave the FIFO, the words played and the interrupts raised as that many samples of the ledger do |
| AudioBalance.DeviceFollowsLedger | crates/rustyn64-audio/src/lib.rs:422-625 | over any register writes and ticks the device's totals are the ledger's over those writes and the samples found due |
| AudioBalance.DeviceBalances | crates/rustyn64-audio/src/lib.rs:422-625 | over any register writes and ticks, bytes accepted are read or still held, transfers accepted have raised their interrupt or wait, and the totals say whether the queue is empty or full |
| AudioBalance.Drive | crates/rustyn64-audio/src/lib.rs:422-625 | driving the device itself through any writes and ticks leaves it, and the interrupts it raised, where those runs say |
| AudioInterface.DueSplits | crates/rustyn64-audio/src/lib.rs:619-625 | samples due by a later tick are those due earlier plus those due since, saturation included |
| AudioInterface.DacNeverStops | crates/rustyn64-audio/src/lib.rs:473-535 | no divider value stops the DAC in either region |
| AudioInterface.RatesAreExact | crates/rustyn64-audio/src/lib.rs:473-535 | the rate is the video clock over the divider plus one and a sample lasts the master clock over the rate, both in whole units; an unset divider means 44.1 kHz |
| AudioInterface.DividerSetsTheRate | crates/rustyn64-audio/src/lib.rs:422-535 | the rate follows the low 14 bits written to `AI_DACRATE` |
| AudioFrames.TransferIsHeard | crates/rustyn64-audio/src/lib.rs:629-675 | a whole transfer is heard as its words in order: frame i is the word at position + 4 i on the 24-bit bus |
| AudioFrames.WrittenBlockIsHeard | crates/rustyn64-audio/src/lib.rs:422-469 | from the enable, address and length writes on an idle queue to the frames: the block the registers name is what comes out |
| AudioFrames.UnderrunsCountDryQueues | crates/rustyn64-audio/src/lib.rs:657-675 | an underrun is counted exactly when an enabled device plays out its only transfer |
| AudioFrames.AnchorsCountPeriods | crates/rustyn64-audio/src/lib.rs:430-603 | the first tick, or queuing on an idle device, starts the clock: from there one sample falls due with every whole period |
| AudioInterface.DecaySettles | crates/rustyn64-audio/src/lib.rs:650-657 | the truncating decay keeps its sign and reaches silence within as many idle samples as the level |
| JoybusExecutor.Pif.Execute | crates/rustyn64-cart/src/pif.rs:265-318 | for every 64-byte RAM, port setup and save, executing in place equals parsing the frame as sent, answering from it and laying the answers over it; every access is in bounds |
| JoybusExecutor.Pif.Shake | crates/rustyn64-cart/src/pif.rs:284-314 | a handshake answered in place leaves everything still to be parsed as it was sent |
| JoybusExecutor.Pif.RunChannel | crates/rustyn64-cart/src/pif.rs:325-420 | the channel commands compute the reference answer |
| JoybusExecutor.Pif.ReadPak | crates/rustyn64-cart/src/pif.rs:360-373 | the accessory block and its checksum, cut to the reply region, complemented with no pak |
| JoybusExecutor.Pif.WritePak | crates/rustyn64-cart/src/pif.rs:374-385 | the accessory block stored, and its checksum in reply |
| JoybusExecutor.Pif.MarkNoDevice | crates/rustyn64-cart/src/pif.rs:422-435 | sets bit 7 of the RX byte |
| JoybusFrame.ParseInOrder | crates/rustyn64-cart/src/pif.rs:265-318 | handshakes are disjoint, in order, inside the RAM, on ever higher channels |
| JoybusFrame.ParseLooksAhead | crates/rustyn64-cart/src/pif.rs:265-318 | parsing depends only on bytes not yet passed |
| JoybusFrame.ReplyArrives | crates/rustyn64-cart/src/pif.rs:284-420 | every reply byte is delivered and survives the later handshakes |
| JoybusFrame.FlagArrives | crates/rustyn64-cart/src/pif.rs:422-435 | every "no device" flag lands on its own RX byte, and only when raised |
| JoybusFrame.ExecutionFrame | crates/rustyn64-cart/src/pif.rs:265-435 | a byte changes only in a declared reply region, by bit 7 of an RX byte, or by bit 0 of the command byte |
| JoybusFrame.PakRoundTrip | crates/rustyn64-cart/src/pif.rs:360-385 | a block written to a pak and read again comes back with the checksum of the write if and only if what falls past the pak's end was zero |
| JoybusFrame.EepromRoundTrip | crates/rustyn64-cart/src/pif.rs:403-416 | an EEPROM block reads back as written if and only if what lies past the store was zero |
| JoybusRequests.ParseReadsLayout | crates/rustyn64-cart/src/pif.rs:265-315 | a frame laid out from skipped channels, fillers and requests with room for their replies parses into those requests |
| JoybusRequests.PollReadsController | crates/rustyn64-cart/src/pif.rs:353-358 | polling a connected controller: the word read from the reply bytes, most significant first, is its state |
| JoybusRequests.IdentifyReadsController | crates/rustyn64-cart/src/pif.rs:340-352 | identifying one: a standard pad, with a pak or without |
| JoybusRequests.FlagRaisedIff | crates/rustyn64-cart/src/pif.rs:288-424 | the "no device" flag is raised on an empty port and for a request the channel's device does not understand, and never else |
| JoybusRequests.ReadReadsPak | crates/rustyn64-cart/src/pif.rs:360-375 | a pak read delivers the 32 bytes at the aligned address and their checksum, or zeros and its complement without a pak |
| JoybusRequests.WriteStoresInPak | crates/rustyn64-cart/src/pif.rs:376-389 | a pak write stores its block there and is acknowledged with the block's checksum, complemented without a pak |
| JoybusRequests.PakKeepsWhatIsWritten | crates/rustyn64-cart/src/pif.rs:265-389 | what one frame writes to a pak another reads from it, checksum included |
| JoybusRequests.EepromAnswers | crates/rustyn64-cart/src/pif.rs:390-421 | the cartridge identifies its EEPROM by size, reads its blocks eight bytes apart, and acknowledges a write with zero |
| JoybusRequests.EepromStores | crates/rustyn64-cart/src/pif.rs:412-421 | an EEPROM write changes the eight bytes of its block and no others |
| JoybusRequests.SaveIsLeft | crates/rustyn64-cart/src/pif.rs:265-318 | execution leaves the save as its last handshake does |
| JoybusRequests.RequestIsConsumed | crates/rustyn64-cart/src/pif.rs:265-318 | a frame without the request bit is left alone; with it, it loses it |
| JoybusCrc.DetectsOneByte | crates/rustyn64-cart/src/pif.rs:437-454 | no change of a single byte goes unseen by the accessory checksum |
| JoybusCrc.CrcIsRemainder | crates/rustyn64-cart/src/pif.rs:437-454 | the checksum is the remainder of the data on division by x^8 + x^7 + x^2 + 1, so data with its checksum divides exactly and with any other byte does not |
| JoybusCrc.DataCrc | crates/rustyn64-cart/src/pif.rs:441-454 | the shift-and-xor loops compute the checksum |
| SaveBlocks.BlockReadsBack | crates/rustyn64-cart/src/save.rs:239-280 | a block reads back as written if and only if what falls past the store is zero |
| SaveBlocks.OtherBlocksUntouched | crates/rustyn64-cart/src/save.rs:249-280 | a block written leaves every disjoint one as it was |
| SaveBlocks.SaveDevice.ReadBlock | crates/rustyn64-cart/src/save.rs:239-268 | the byte loop reads a block, with zeros past the end or on another device |
| SaveBlocks.SaveDevice.WriteBlock | crates/rustyn64-cart/src/save.rs:249-280 | the byte loop writes a block, dropping what falls past the end |
| FlashRam.FlashRam.WriteCir | crates/rustyn64-cart/src/save.rs:85-138 | each command's whole effect on array, buffer, mode, pending erase and status, with no access out of bounds |
| FlashRam.FlashRam.Read | crates/rustyn64-cart/src/save.rs:141-162 | what each mode reads at every offset |
| FlashRam.FlashRam.Write | crates/rustyn64-cart/src/save.rs:166-170 | a store fills the page buffer while it is loading, and nothing otherwise |
| FlashRam.FlashRam.Drive | crates/rustyn64-cart/src/save.rs:85-170 | any sequence of commands and stores takes the chip where the machine's run goes |
| FlashMachine.BitsOnlyLost | crates/rustyn64-cart/src/save.rs:85-138 | between executed erases no array byte gains a bit |
| FlashMachine.ProgramTouchesOnlyItsPage | crates/rustyn64-cart/src/save.rs:119-135 | a program ANDs its own 128 bytes and no others; past the chip it does nothing but report success |
| FlashMachine.SectorEraseIsExact | crates/rustyn64-cart/src/save.rs:97-118 | a sector set up for erase is erased whole and alone, whatever is loaded or programmed before the erase runs |
| FlashMachine.EraseNeedsSetup | crates/rustyn64-cart/src/save.rs:106-118 | an erase with nothing set up erases nothing and still reports success |
| FlashMachine.ChipEraseIsExact | crates/rustyn64-cart/src/save.rs:93-118 | a chip erase, once set up, clears the whole array at the next erase command, whatever comes in between |
| FlashMachine.StatusReads | crates/rustyn64-cart/src/save.rs:106-160 | an erase reads as done by bit 3 and a program by bit 2, at odd offsets |
| FlashMachine.IdentificationReads | crates/rustyn64-cart/src/save.rs:86-160 | the identification bytes, over and over |
| FlashMachine.BufferReads | crates/rustyn64-cart/src/save.rs:140-170 | while it is being loaded the page buffer reads as what was stored in it |
| FlashMachine.PastTheChipReadsOnes | crates/rustyn64-cart/src/save.rs:140-143 | past the chip the array reads all-ones |
| FlashMachine.RewriteRoundTrip | crates/rustyn64-cart/src/save.rs:85-170 | set up, erase, load, 128 stores, program, read: the page reads back from any prior state, the rest of its sector is all-ones, every other sector is as it was |
| FlashMachine.ProgramReadsBack | crates/rustyn64-cart/src/save.rs:119-135 | without an erase the page reads back if and only if no bit had to be set |
| Exceptions.Cop0.Dispatch | crates/rustyn64-cpu/src/exception.rs:317-439 | an exception's whole effect on the register file, its vector and its stall; from the outer level EPC is the faulting address, or the branch before it |
| Exceptions.Cop0.TakeNmi | crates/rustyn64-cpu/src/exception.rs:282-298 | an NMI's whole effect and its vector |
| Exceptions.Cop0.Eret | crates/rustyn64-cpu/src/exception.rs:455-464 | the return's target and the level it clears |
| Exceptions.Cop0.IsInterruptPending | crates/rustyn64-cpu/src/cop0.rs:520-531 | interrupts are taken only outside EXL and ERL |
| Exceptions.NestKeepsReturnPath | crates/rustyn64-cpu/src/exception.rs:282-439 | after the first exception, no mix of exceptions and NMIs touches EPC, which is its address or the branch before it, or BD, or lets an interrupt in, and ErrorEPC holds the last NMI's pc |
| Exceptions.NestedVectorsAreGeneral | crates/rustyn64-cpu/src/exception.rs:129-147 | inside the nest every exception takes the general vector |
| Exceptions.ReturnsUnwind | crates/rustyn64-cpu/src/exception.rs:455-464 | the returns unwind in order, the last to the first exception's address or the branch before it, and without an NMI restore Status exactly |
| Exceptions.OuterEntry | crates/rustyn64-cpu/src/exception.rs:317-439 | the first exception saves its own address, or the branch's when it sat in a delay slot, and that flag, and raises EXL |
| Exceptions.InnerEntry | crates/rustyn64-cpu/src/exception.rs:317-439 | what an exception taken at an inner level leaves alone |
| ExceptionHandler.ExceptionRaisesExl | crates/rustyn64-cpu/src/exception.rs:432-434 | an exception raises EXL and changes no other bit of Status |
| ExceptionHandler.NmiStatusBits | crates/rustyn64-cpu/src/exception.rs:282-298 | an NMI raises ERL, SR and BEV, drops TS, saves its pc and changes nothing else |
| ExceptionHandler.ReturnBits | crates/rustyn64-cpu/src/exception.rs:455-464 | a return clears ERL and leaves by ErrorEPC, or clears EXL and leaves by EPC |
| ExceptionHandler.InterruptIff | crates/rustyn64-cpu/src/cop0.rs:520-531 | an interrupt is taken exactly when IE is set, EXL and ERL are clear, and some line is pending and enabled |
| ExceptionHandler.CauseReports | crates/rustyn64-cpu/src/exception.rs:151-178 | the code a handler reads stands for the exception that came and no other, and the unit is the coprocessor's or zero |
| ExceptionHandler.CauseKeeps | crates/rustyn64-cpu/src/exception.rs:330-380 | BD is the first exception's, and every bit outside BD, CE and ExcCode is as it was |
| ExceptionHandler.FaultAddressLatched | crates/rustyn64-cpu/src/exception.rs:382-431 | the exceptions with codes 1 to 5, and no others, latch the faulting address into BadVAddr and its page and region into Context, XContext and EntryHi |
| ExceptionHandler.VectorTellsApart | crates/rustyn64-cpu/src/exception.rs:129-213 | the reset address belongs to the NMI, each refill vector to its kind of refill with EXL clear, and the general vector to all the rest |

## Left out

- The instruction cache's tag load and store, which pack and unpack a tag as the data cache's do.
- A stroke of `PixelStore` stores its coverage, as the RDP's sub-pixel path does; the paths that leave another alpha in the pixel are not modelled.
- The CPU, RSP and RDP bodies other than the RDP's pixel and coverage writes, the TLB and the FPU: the run loops drive an arbitrary deterministic machine, an instruction costs any 32-bit number of cycles (zero counts as one, as in the code).
- Equality of the idle batch with executing the same pairs one at a time: it depends on what the parked CPU does; its RCP edges, its bounds, its count and its effect on the timer are stated, the last for a machine that polls the timer first in every instruction.
- Ticks within a few billion of the end of the 64-bit timeline: the run loops require targets below that, and the VI and AI ticks require a tick whose next deadline still fits, so the `checked_add` exit of the instruction-paced loop is not modelled.
- RDRAM during one scan-out is a value, as the scan-out only borrows it; the hidden coverage bits are a function of the address.
- Gamma dither and interlacing (serrate): the scan-out does not read them.
- `AI_STATUS` readback of COUNT, WC and BC, draining the sample sink, and selecting the region from a header byte: phases no source pins down, and tables.
- The AI's two interrupts, on start and on promotion, are the results of a register write and of a tick; the interrupt controller they reach is not modelled.
- COP0 registers other than Count, Compare, Cause, Status, EPC, ErrorEPC, BadVAddr, Context, XContext, EntryHi, Wired and Random, and their read and write masks: a table. The one COP0 register file is split over `Cop0Timer.Timer`, `Cop0Timer.RandomCounter` and `Exceptions.Cop0`, which share no field but the timer's interrupt bit.
- `AI`, `PIF` and cartridge plumbing: PIF boot commands, SRAM, ISViewer, register latches, the MMIO dispatch ladder, save states and the host interface.
- Cop0Timer.Timer.PollAll: requires polls less than 2^32 `Count` ticks apart; `Cop0Timer.PollIsExactIffShort` shows that the claim fails for every `Compare` at any longer gap.
- AudioInterface.AnySlicingPlaysTheSame: requires an anchored schedule; the first tick after power-on only anchors it, so where that tick falls does matter.
- FlashRam.FlashRam.Drive, AudioBalance.Drive, CachedMemory.DataPath.OverwriteLine, CachedMemory.DataPath.FlushAll, CachedMemory.DataPath.Run, InstructionCache.FetchPath.Run and SplitCaches.SplitCaches.Run: short drivers of the modelled operations, not functions of the source.
