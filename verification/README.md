# A verified model of an NVMe device emulator

The repository emulates NVMe solid-state drives in a kernel module. This project models its hardest parts in Dafny
and proves what they are for. Run `dafny verify dfyconfig.toml` in this directory to check it.

## What is modelled

**The page-mapped flash translation layer** (`conv_ftl.c`, `pqueue/pqueue.c`). A partition is a state: forward and
reverse map, page statuses, lines with their counters, free list, full list and victim queue, three open lines (user
writes, hot copies, cold copies) and write credits. `FtlModel` gives it and the driver's steps as values and functions;
`FtlInvariant`, `FtlSteps`, `FtlGc`, `FtlRoutes` and `FtlRuns` prove what every step, every collection and every run
keeps;
`FtlLimit`, `FtlMoves` and `FtlGreedy` how much a partition can hold; `FtlWear` what is learned of wear over a run;
`Geometry`, `GcOrder` and `FtlView` tie the abstract pages to channels, LUNs, pages and table indices. `PQueue`,
`LineMgmt`, `ConvFtl` and `Namespace` are the driver's own structures, updated in place, each method proved to be the
step of the model that it stands for. `VictimScore`, `HotCold`, `WearGap`, `RlAgent` and `RlState` are the scores, the
hot/cold test, the wear statistics and the learning agent that steer collection; `Shipped` is the configuration that
the repository ships.

The main results there:

- No run of host writes over at most (tt_lines - 5) * pgs_per_line LPNs (one more with lines of one or two pages), with
  any victim policy and any hot/cold routing, ever finds the free list empty (`FtlRuns.NeverOutOfLines`). This is the
  exact limit, whatever chooses the victims (`FtlLimit.CapacityIsExact`), and with lines of four pages or more it is that
  of the driver in greedy mode, with the routes that page_is_hot takes (`FtlGreedy.GreedyCapacity`). The shipped
  configuration advertises less (`Shipped.AdvertisedFits`).
- Garbage collection preserves meaning (`FtlGc.CollectKeeps`), and a write command stores exactly its pages whatever is
  collected on the way (`Namespace.ConvNamespace.ConvWrite`).
- The maps are mutual inverses, lines are partitioned, counters are exact and pages are conserved in every state that a
  run reaches, over any number of LPNs (`FtlRuns.MapsAreInverse`, `FtlRuns.LinesArePartitioned`,
  `FtlRuns.PagesAreConserved`).
- `do_gc` collects the best candidate for the mode, by the formulas of the policies on the lines' fields, and routes
  every copy as page_is_hot decides for its LPN (`ConvFtl.ConvFtl.DoGc`, `VictimScore.ScoreOrder`); over every run the
  wear statistics are the present range of erase counts (`FtlWear.WearGapOverRuns`), and in learning mode the agent's
  table stays bounded and its exploration rate is a function of the number of collections (`FtlWear.LearningOverRuns`).

**The I/O work queue** (`io.c`). `QueueProtocol` is the dispatcher and the worker as a state machine of atomic steps;
`WorkQueue` has the chains and the order, `IoWorker` the index arrays, proved to refine the protocol. The main result is
`QueueProtocol.AnyInterleaving`, with `QueueProtocol.StaysInOrder` for the order and `QueueProtocol.SweepReachesAll` for
what a sweep of the worker completes. `PrpTransfer` compares the two ways of copying a command's data, with each other
and with the memory that its entries stand for.

**The channel bandwidth model** (`channel_model.c`). `ChannelModel` proves that the lazily reset ring of credits behaves
like an unbounded timeline; `ChannelRuns` proves over runs of requests that credits are conserved and that no stretch of
time gives out more than its units have (`ChannelRuns.CreditsConserved`, `ChannelRuns.BandwidthLimit`); `ChannelDelay`
works out what a request on a busy channel is told (`ChannelDelay.BusyAnswer`).

**Zoned namespaces** (`zns_mgmt_send.c`, `zns_read_write.c`, `zns_ftl.h`). `ZnsZones` has the commands of the Zoned
Namespace Command Set Specification Revision 1.1a as the driver implements them, and what any sequence of them keeps;
`ZnsLaws` says what each command answers and does, and that zones are written in order (`ZnsLaws.WrittenInOrder`);
`ZnsFtl` does them in place.

**The key-value index** (`kv_ftl.c`, `append_only.c`). `KvIndex` proves that the hash table with coalesced chaining is
a finite map; `KvRuns` says which runs of stores the host reads back as a finite map, and which as the plain map of last
values (`KvRuns.HarmlessExactly`, `KvRuns.PlainExactly`); `KvFtl` is the table and the storage in place.

`Arith` and `Wrappers` hold arithmetic on quotients and an option type.

## Where the code falls short

Each of these is proved, with the exact condition under which the code does what it is meant to do:

- The integer square root divides by zero for 2^64 - 1 and for no other number (`VictimScore.Isqrt`). The driver never
  calls it with more than 2^32.
- `conv_write` admits tt_pgs LPNs in a partition, but beyond (tt_lines - 5) * pgs_per_line of them (one more with lines
  of one or two pages) the free list can run empty, and `get_next_free_line` then returns a null pointer that is
  dereferenced. For every strategy of choosing victims, all runs over n LPNs are safe if and only if n is within that
  limit (`FtlLimit.CapacityIsExact`); there only LPNs and routes are chosen. In greedy mode, with lines of four pages or
  more, the driver's own victims and routes fail as well, where only LPNs and clock readings are chosen
  (`FtlGreedy.GreedyCapacity`). Merely writing each LPN once fails exactly from (tt_lines - 2) * pgs_per_line of them on
  (`FtlLimit.FillingFails`).
- The channel model keeps the time since the last request in 32 bits, so after an idle time of 2^32 units a used slot
  can be seen again (`ChannelModel.MovedExactly`, `ChannelModel.StaleAfterWrap`); and it keeps the time until the
  request in 32 bits, so a request is charged to its own unit if and only if that is fewer than 2^32 units ahead
  (`ChannelModel.OwnUnitExactly`, `ChannelModel.FarRequest`). If the clock goes back by a unit, a unit can give its
  credits twice (`ChannelRuns.ClockBack`).
- The credits of a unit are kept in a byte, while the default delay uses all of max_credits: from 256 credits on, which
  is a bandwidth beyond 8 GB/s, requests wait although the channel is free (`ChannelModel.NoDelayExactly`), and with a
  multiple of 256 no unit has any credits to give. With no credits at all, below 32 MB/s, an admitted request divides by
  zero (`ChannelModel.ChannelModel.Request`).
- A write to a ZRWA that ends at the zone's end within the ZRWA does not give the ZRWA resource back; no other command
  loses one (`ZnsZones.LeakExactly`, with a run that does it in `ZnsZones.LeakHappens`). The assertion against it in
  `zns_read_write.c:32-33` is compiled away.
- With a flush granularity of 0 an explicit flush of the ZRWA and a write that leaves it divide by zero, and no other
  command does (`ZnsZones.DividesExactly`). The configurations in `ssd_config.h:278-282` set the size and the granularity
  of the ZRWA to 0, yet there are nr_zones ZRWA resources (`zns_ftl.c:76-79`), so that opening a zone with a ZRWA and
  writing it is enough (`ZnsZones.DivisionHappens`).
- Storing a value for a stored key overwrites what is there without a check of its length. Runs of stores read back as
  a finite map, whatever the bytes, if and only if no store reaches the value of another key, which the host can tell from
  the keys and lengths it stored (`KvRuns.HarmlessExactly`, with three stores that spoil a key in `KvRuns.Clobbers`). And
  a value of another length is kept whole if and only if it and the one before it are at most 1024 bytes
  (`KvRuns.PlainExactly`).
- The DMA path differs from the plain copy exactly if an entry starts inside a page and the next one is a page further
  on (`PrpTransfer.TransfersAgree`, with such entries in `PrpTransfer.TransfersDiffer`).
- The gap between two lines' page counts in percent goes through a signed 32-bit product, which is exact up to 21474836
  pages (`RlState.SignedPercentIs`, `RlState.SignedPercentWraps`).

Where code and comments disagree the model follows the code: the action space of the agent is 4 alpha levels by 5 delta
levels, 20 actions (the comment at `conv_ftl.c:344` says 12, the comments at `conv_ftl.h:94-95` list fewer levels), and
the threshold in force is gc_thres_lines_high, 15 percent of the TLC lines (the gc_thres_lines of 3 that the comment at
`conv_ftl.c:891` speaks of is set but not used).

## Model

| member | source | states |
|---|---|---|
| `FtlInvariant.NextPageIsFree` | conv_ftl.c:1062-1077 | In every state that keeps the invariant, also in the middle of a collection, the page that any of the three write pointers programs next is PG_FREE, so the assertion of mark_page_valid cannot fire. |
| `FtlInvariant.AppendLists` | conv_ftl.c:811-821 | After any page is programmed, also one that ends a line, lines on the full list have no invalid page and lines of the victim queue have one: the two assertions about ipc at the end of a line cannot fire. |
| `FtlInvariant.AdvancePartition` | conv_ftl.c:783-830 | An advance that finds a line keeps every line in exactly one place (free, full, candidate, under collection, or open for one stream) and counts one more programmed slot in the line that was open, in no other. |
| `FtlInvariant.AppendCounted` | conv_ftl.c:1062-1077 | After a page is programmed, vpc and ipc of every line outside collection still equal its numbers of PG_VALID and PG_INVALID pages, and the programmed slots are exactly a prefix of the line in programming order. |
| `FtlSteps.FullIffAllValid` | conv_ftl.c:1040-1042 | vpc equals pgs_per_line exactly for the lines of the full list: the test by which mark_page_invalid recognises a line that was full never errs. |
| `FtlSteps.InvalidateKeeps` | conv_ftl.c:1451-1456 | A mapped LPN's page is PG_VALID (the assertion of mark_page_invalid); invalidating it keeps the whole invariant, frees no page, and the host loses exactly that LPN. |
| `FtlSteps.AppendKeeps` | conv_ftl.c:1118-1137 | Programming an unmapped LPN through any stream with room never fails, keeps the invariant, uses one free page and adds exactly that LPN and payload to what the host reads. |
| `FtlSteps.HostWriteKeeps` | conv_ftl.c:1451-1494 | Storing one page (first write or overwrite) never fails while the user stream has room, keeps the invariant, uses one free page, and changes what the host reads at that LPN only. |
| `FtlSteps.HostWriteSome` | conv_ftl.c:1451-1494 | It fails exactly when the user stream is at the last page of its line and the free list is empty. |
| `FtlGc.CopyKeeps` | conv_ftl.c:1118-1137 | Copying a live page of the victim leaves what the host reads unchanged, takes one free page of the chosen stream, and turns the old copy into one that stays PG_VALID but is no longer mapped. |
| `FtlGc.EraseKeeps` | conv_ftl.c:1080-1091 | Erasing a block whose live pages have been copied keeps the invariant and what the host reads. |
| `FtlGc.GcRunKeeps` | conv_ftl.c:1237-1268 | After any number of the loops' page visits and block erases that have not failed, the invariant holds with exactly the copied and not yet erased pages excepted, and the host reads what it read before. |
| `FtlGc.GcRunSucceeds` | conv_ftl.c:1237-1268 | With free pages for all of the victim's valid pages and two lines more, no copy runs out of lines, in any order of hot and cold. |
| `FtlGc.CleansProgrammedPages` | conv_ftl.c:1164-1170 | No page that the loops of any collection visit is PG_FREE, so the assertion in clean_one_flashpg cannot fire. |
| `FtlGc.CollectKeeps` | conv_ftl.c:1203-1281 | do_gc on any candidate, with any hot/cold routing, if it does not run out of lines: it keeps the invariant, every mapped LPN and payload, leaves no programmed page and no mapping in the victim, gains exactly the victim's invalid pages, which is what it credits, and copies all the others. |
| `FtlGc.CollectSucceeds` | conv_ftl.c:1203-1281 | With three lines' worth of free pages do_gc never runs out of lines, whatever the candidate and the routing. |
| `FtlGc.RoutingAgrees` | conv_ftl.c:1128 | A collection depends on the hot/cold decision of the pages it has come to only, so deciding page by page is a run with one fixed routing. |
| `FtlRuns.ValidAsManyAsMapped` | conv_ftl.c:181-201 | Between steps there are exactly as many PG_VALID pages as mapped LPNs. |
| `FtlRuns.VictimExists` | conv_ftl.c:1223-1226 | With at most gc_thres_lines_high free lines and fewer than (tt_lines - gc_thres_lines_high - 3) * pgs_per_line LPNs mapped, the victim queue is not empty: by pigeonhole on the injective map, do_gc never takes its early exit. |
| `FtlRuns.RefillSound` | conv_ftl.c:240-251 | When the credits are used up, a refill that does not run out of lines keeps the whole invariant and what the host reads, and leaves write_credits positive. |
| `FtlRuns.RefillKeeps` | conv_ftl.c:240-251 | The refill does not run out of lines, whether it collects a line, finds a spare one or takes the early exit without a candidate, and the free pages still exceed the credits by the reserve: three lines' worth of pages up to Capacity LPNs, which are (tt_lines - 5) * pgs_per_line, one more with lines of one or two pages; gc_thres_lines_high lines and three pages with fewer than (tt_lines - gc_thres_lines_high - 3) * pgs_per_line. |
| `FtlRuns.WriteStepSound` | conv_ftl.c:1442-1506 | One iteration of the write loop that does not run out of lines, with whatever collection it sets off, keeps the whole invariant and makes the host read the new payload at this LPN and the old ones elsewhere. |
| `FtlRuns.WriteStepKeeps` | conv_ftl.c:1442-1506 | With no more LPNs than leave the reserve, the iteration does not run out of lines and keeps the reserve. |
| `FtlRuns.InitSafe` | conv_ftl.c:875-900 | conv_init_ftl leaves a state that keeps the invariant, with nothing mapped. |
| `FtlRuns.RunSound` | conv_ftl.c:1442-1506 | Every run of host writes that has not failed, over any number of LPNs, keeps the whole invariant, and the host reads exactly the last value written to each LPN. |
| `FtlRuns.NeverOutOfLines` | conv_ftl.c:742-754 | For every run of host writes, every victim policy and every routing, over at most Capacity distinct LPNs ((tt_lines - 5) * pgs_per_line, one more with lines of one or two pages): get_next_free_line never fails, and in the end the host reads exactly the last value written to each LPN. |
| `FtlLimit.CapacityIsExact` | conv_ftl.c:742-754 | In every configuration and for every strategy by which victims are chosen: all runs over at most n LPNs with these victims, whatever their routes, find a free line whenever they need one if and only if n is at most Capacity. |
| `FtlLimit.OneTooMany` | conv_ftl.c:742-754 | For one LPN more than Capacity, and whatever the strategy picks, there is a run of admissible writes, chosen by their LPNs and routes only, in which get_next_free_line fails. |
| `FtlLimit.FillingFails` | conv_ftl.c:742-754 | Writing LPNs once each fails exactly from (tt_lines - 2) * pgs_per_line of them on, with any policy and any routing, though conv_write admits tt_pgs. |
| `FtlLimit.Reclaim` | conv_ftl.c:1203-1281 | From a reachable state without candidates, rewriting an LPN of a full line and collecting that line into a fresh collection stream is reachable too, with any strategy: all its other pages move there and one more line is free. |
| `FtlGreedy.GreedyCapacity` | conv_ftl.c:1203-1281 | The limit is that of the driver itself in greedy mode, with at least four pages in a line: victims are candidates with the fewest valid pages, copies are routed by page_is_hot from what was noted of their LPNs and from the clock, which never goes back; all such runs over at most n LPNs find a free line whenever they need one if and only if n is at most Capacity. |
| `FtlGreedy.DriverIsRun` | conv_ftl.c:1442-1506 | Every run of the driver in greedy mode, with its own victims and routes, is a run of the model over the same LPNs. |
| `FtlGreedy.GreedyExists` | conv_ftl.c:265-279 | There is such a choice of victims. |
| `FtlGreedy.OneOfTwo` | conv_ftl.c:82-101 | Of two pages copied one after the other, of which the first in question was written often enough against the average, clock readings that do not go back can make one hot and the other cold. |
| `FtlGreedy.NotesAgree` | conv_ftl.c:1486-1492 | What the runs of the greedy driver note of writes, and so what page_is_hot decides there, is what the driver keeps in place, from the initial average of 16 on. |
| `FtlMoves.CollectMoves` | conv_ftl.c:1203-1281 | After a collection whose copies all go to one stream with room in its line, the LPNs of the victim are on that line and all others are where they were. |
| `FtlMoves.HostMoves` | conv_ftl.c:1451-1494 | After a host write its LPN is at the user's write pointer and all others are where they were. |
| `FtlRuns.ReserveHolds` | conv_ftl.c:1223-1226 | In runs over fewer than (tt_lines - gc_thres_lines_high - 3) * pgs_per_line LPNs the free pages exceed the credits by gc_thres_lines_high lines and three pages, and do_gc always finds a candidate. |
| `FtlRuns.MapsAreInverse` | conv_ftl.c:173-201 | In every state that a run reaches, over any number of LPNs, maptbl and rmap are mutual inverses over live data: mapped LPNs point to in-range PG_VALID pages that point back, every PG_VALID page belongs to one mapped LPN, no two LPNs share a page, and both are equally many. |
| `FtlRuns.LinesArePartitioned` | conv_ftl.c:635-672 | In every state that a run reaches each line is free, full, a candidate or open for exactly one stream; its counters equal its page counts, add up to pgs_per_line once it is closed, and tell full lines from candidates. |
| `FtlRuns.PagesAreConserved` | conv_ftl.c:1228-1273 | In every state that a run reaches host_written_pages + gc_copied_pages = pgs_per_line * (sum of erase_cnt) + programmed pages, and the sum of erase_cnt is gc_count. |
| `FtlRuns.CopiesLessThanALine` | conv_ftl.c:1234-1270 | A collection copies fewer pages than a line has. |
| `FtlRuns.OneGcAtMost` | conv_ftl.c:1504-1505 | One iteration of the write loop collects at most one line. |
| `FtlRuns.FreeListIsQueue` | conv_ftl.c:742-754 | The free list is first in, first out: an iteration opens lines from its front only, and the line that it collects goes to its end. |
| `FtlRuns.ErasesBelowGcCount` | conv_ftl.c:1094-1104 | No line was erased more often than lines were collected. |
| `FtlWear.StepWear` | conv_ftl.c:1504-1505 | In any run an iteration that does not fail either leaves gc_count, copies and erase counts alone, or collects once and copies fewer pages than a line has. |
| `FtlWear.WearGapOverRuns` | conv_ftl.h:169-174 | After every run with a collection in it, the wear gap's sum of changes is the present range of the lines' erase counts minus 1, over one sample fewer than gc_count. |
| `FtlWear.LearningOverRuns` | conv_ftl.c:568-627 | After every run in learning mode, whatever states and actions the collections had: every Q-table entry is in [-39980, 20000], there was one episode for each collection, the rewards sum up to no more than they can, and epsilon is max(50, 300 - gc_count). |
| `Geometry.ClosedForm` | conv_ftl.c:783-830 | The k-th page of a line is channel (k / os) % nchs, LUN (k / (os * nchs)) % luns, page (k / (os * nchs * luns)) * os + k % os. |
| `Geometry.AtSlot` | conv_ftl.c:832-845 | Going from a page of a line to its place in programming order and back is the identity: distinct pages have distinct places. |
| `Geometry.SlotAt` | conv_ftl.c:832-845 | Every place below pgs_per_line is a page on the chip, and that page's place. |
| `Geometry.NextSlot` | conv_ftl.c:783-830 | Each advance of the write pointer moves to exactly the next place, and the line closes exactly at the pgs_per_line-th: it visits each page once. |
| `GcOrder.ScheduleIsGood` | conv_ftl.c:1237-1268 | The three loops of do_gc clean every page of the victim exactly once, erase each block only after all its pages were cleaned, and erase all blocks. |
| `FtlView.PgIdxFormula` | ssd.c:199-208 | The page index is the sum of products that ssd_init_params sets up, over tt_pgs entries. |
| `FtlView.PgIdxInjective` | conv_ftl.c:181-190 | ppa2pgidx stays below tt_pgs (its assertion) and distinct physical pages have distinct indices. |
| `FtlView.RmapViewSet` | conv_ftl.c:197-201 | Writing one rmap entry changes the reverse mapping of that physical page and of no other. |
| `FtlView.HavingSet` | conv_ftl.c:1032-1034 | Setting one page's status changes the set of PG_VALID (or PG_INVALID) pages by that page only. |
| `PQueue.RootIsLeast` | pqueue/pqueue.c:215-227 | In a heap in order no element is smaller than the root. |
| `PQueue.VictimQueue.constructor` | pqueue/pqueue.c:23-56 | An empty heap over the lines' vpc and pos fields. |
| `PQueue.VictimQueue.BubbleUp` | pqueue/pqueue.c:82-99 | From a heap in order but for one node that may undercut its parent: the heap is in order, back-pointers are exact, the elements are the same, and no position outside the heap changes. |
| `PQueue.VictimQueue.SelectChild` | pqueue/pqueue.c:105-118 | 0 exactly for a leaf; otherwise a child of the node that is in the heap, that no child undercuts, and that is the left one unless the right one is strictly smaller. |
| `PQueue.VictimQueue.SiftDown` | pqueue/pqueue.c:126-143 | From a heap in order but for one node that its children may undercut: in order, exact back-pointers, same elements, nothing else moved. |
| `PQueue.VictimQueue.PercolateDown` | pqueue/pqueue.c:126-143 | The same, also from the place just past the last node, where removal of the last node calls it. |
| `PQueue.VictimQueue.Insert` | pqueue/pqueue.c:148-168 | The heap gains exactly this line; it has room for it, so the overflow branch is dead. |
| `PQueue.VictimQueue.ChangePriority` | pqueue/pqueue.c:175-189 | The line's vpc is set, whichever way it changes, and the heap keeps order, back-pointers and elements. |
| `PQueue.VictimQueue.Remove` | pqueue/pqueue.c:195-209 | The heap loses exactly this line, wherever it is, also in the last slot. |
| `PQueue.VictimQueue.Pop` | pqueue/pqueue.c:215-227 | A line of least vpc, which leaves the heap; none exactly from an empty heap. |
| `PQueue.VictimQueue.Peek` | pqueue/pqueue.c:233-246 | A line of least vpc; none exactly from an empty heap. |
| `VictimScore.NewtonAbove` | conv_ftl.c:39-42 | A Newton step from any positive number never falls below the root. |
| `VictimScore.Isqrt` | conv_ftl.c:31-44 | The loop terminates with r * r <= n < (r + 1) * (r + 1) for every 64-bit n but the largest, for which x + 1 wraps and the loop divides by zero: the method reports that case, exactly then. |
| `VictimScore.ApplyAlpha` | conv_ftl.c:114-122 | The age weight to the power 0.5, 1, 1.5 or 2, with integer square roots, characterised without the switch. |
| `VictimScore.ApplyDelta` | conv_ftl.c:125-134 | The same for the erase count and one at five levels, the power cut to 64 bits. |
| `VictimScore.AlphaIs` | conv_ftl.c:113-122 | The alpha levels 0 to 3 are the powers 0.5, 1, 1.5 and 2 of the age weight, and any other level is as the last: a power of it, times its integer square root for the half ones. |
| `VictimScore.DeltaIs` | conv_ftl.c:124-134 | The delta levels 0 to 4 are the powers 0, 0.5, 1, 1.5 and 2 of the erase count and one, in the same sense. |
| `VictimScore.AgeSteps` | conv_ftl.c:58-80 | The age weight is at most 1, 5 and 20 exactly for ages below a tenth of a second, 5 seconds and a minute. |
| `VictimScore.ScoreOrder` | conv_ftl.c:326-335 | The order of scores is that of the powers that the levels stand for; at the levels of cost-benefit it is the order of age * ipc / (vpc + 1), at those of cost-age-times that of age * ipc / ((vpc + 1) * (erase_cnt + 1)), as cross products. |
| `VictimScore.ComputeVictimScore` | conv_ftl.c:137-148 | Numerator and denominator equal the exact ones whenever 10^4 * PPL * (PPL + 1) * (E + 1)^2 < 2^64 for a bound E on erase counts; the denominator is never 0. |
| `VictimScore.CrossFits` | conv_ftl.c:310-314 | Under that bound every cross product of the comparison is a 64-bit number. |
| `VictimScore.BestNext` | conv_ftl.c:310-314 | Under that bound the wrapped comparison of the scan keeps a candidate whose exact rational score no candidate seen exceeds. |
| `HotCold.HotterStaysHot` | conv_ftl.c:82-101 | A page written at least as often and not longer ago is hot whenever the other one is. |
| `HotCold.AverageBetween` | conv_ftl.c:1490-1492 | The running average is fifteen sixteenths of the old one and one degree more, rounded down; it moves towards the latest hot degree and not past it, but for that rounding. |
| `LineMgmt.LineMgmt.InitLines` | conv_ftl.c:635-672 | The lines, lists and write pointers in place represent the initial state: lines 0, 1 and 2 open, the rest free in order. |
| `LineMgmt.LineMgmt.MarkInvalid` | conv_ftl.c:1040-1058 | The line side of an invalidation in place: counters, heap position and the move from the full list to the heap are those of the model, list counters and pos fields stay exact, and the line's last_modified_time, and no other's, is the time given. |
| `LineMgmt.LineMgmt.StepCursor` | conv_ftl.c:789-808 | The nested increments and resets compute the next page of the interleaving, or the end of the line. |
| `LineMgmt.LineMgmt.AdvanceWritePointer` | conv_ftl.c:783-830 | Advancing in place is the model's advance, in the line and at its end, for any stream with room. |
| `LineMgmt.LineMgmt.SelectVictimGreedy` | conv_ftl.c:265-279 | A candidate with the fewest valid pages, which leaves the heap with pos 0 and the count adjusted; with force, none only if there is no candidate, and without it, none exactly if every candidate has more than an eighth of a line valid. |
| `LineMgmt.LineMgmt.SelectVictimScored` | conv_ftl.c:285-323 | A candidate whose score no other candidate's exceeds, under the no-wrap bound: at every alpha and delta level by the powers these stand for; at the levels of CB by age * ipc / (vpc + 1), and at those of CAT by that divided by erase_cnt + 1, as cross products of the lines' fields. It leaves the middle of the heap; none only if there is no candidate. |
| `LineMgmt.LineMgmt.HighestIs` | conv_ftl.c:326-335 | A line scores highest at given levels exactly if it does by those powers; for cost-benefit and cost-age-times exactly if it does by the products of the lines' fields. |
| `LineMgmt.LineMgmt.MarkLineFree` | conv_ftl.c:1094-1104 | The line's counters are cleared, its erase count goes up and it joins the end of the free list. |
| `LineMgmt.UnlinkElements` | conv_ftl.c:1051-1053 | Unlinking a line from a list removes that line and keeps the others, without duplicates. |
| `ConvFtl.ConvFtl.InitFtl` | conv_ftl.c:875-900 | The fresh tables, lists, pointers, counters and credits represent the initial state, and no write is noted of any LPN. |
| `ConvFtl.ConvFtl.SetMaptblEnt` | conv_ftl.c:173-178 | Writing the table entry changes the forward mapping of that LPN only. |
| `ConvFtl.ConvFtl.SetRmapEnt` | conv_ftl.c:197-201 | Writing or clearing the table entry changes the reverse mapping of that page only. |
| `ConvFtl.ConvFtl.MarkPageValid` | conv_ftl.c:1062-1077 | The page becomes PG_VALID and its line's vpc goes up, nothing else changes. |
| `ConvFtl.ConvFtl.MarkPageInvalid` | conv_ftl.c:1023-1059 | The page becomes PG_INVALID and its line is recounted and re-queued as in the model, with the time noted for that line only; the status assertion holds at every call. |
| `ConvFtl.ConvFtl.WritePage` | conv_ftl.c:1451-1494 | The loop body up to the credits, in place, is the model's write of one page; it notes one more write of this LPN and of no other, at the time given, takes the degree into the running average, and notes the time at which the line of a mapped LPN lost a page. |
| `ConvFtl.ConvFtl.GcWritePage` | conv_ftl.c:1118-1137 | Copying one page in place is the model's event for it, through the hot stream exactly if page_is_hot says so, at a reading of the clock, of what is noted of its LPN's writes; nothing noted changes. |
| `ConvFtl.ConvFtl.CountLivePages` | conv_ftl.c:1164-1174 | A count of zero means that no page of the flash page is live, so returning early loses nothing; the PG_FREE assertion holds at every page. |
| `ConvFtl.ConvFtl.CleanOneFlashpg` | conv_ftl.c:1157-1194 | Both loops together do exactly the events of one flash page. |
| `ConvFtl.ConvFtl.MarkBlockFree` | conv_ftl.c:1080-1091 | Every page of the block becomes PG_FREE, and no other page changes. |
| `ConvFtl.ConvFtl.CleanLine` | conv_ftl.c:1237-1268 | The three nested loops do exactly the whole schedule on the victim, every copy routed as page_is_hot decides for its LPN; nothing noted of writes changes. |
| `ConvFtl.ConvFtl.ObserveState` | conv_ftl.c:411-528 | The state index of the partition: that of the six levels of what a scan of the candidates in its heap finds and of the agent's statistics, and below 1728. |
| `ConvFtl.ConvFtl.ChooseRule` | conv_ftl.c:1210-1221 | The fixed rule of the mode, or in learning mode the levels of the action that the agent takes in the state it observes; nothing but the agent changes. |
| `ConvFtl.ConvFtl.DoGc` | conv_ftl.c:1203-1281 | do_gc in place is the model's collection of the best queued line for the mode: the fewest valid pages; in modes CB and CAT the largest age * ipc / (vpc + 1), for CAT divided by erase_cnt + 1, as products of the lines' fields, and in learning mode by the powers of the agent's levels, as long as no product wraps. Every live page of the victim goes to the stream that page_is_hot decides on for its LPN. One sample is taken, the present range of erase counts, and in learning mode one lesson: the entry of the state observed before and of the action taken moves towards the reward for this collection's copies and wear and the best entry of the state observed after; no other entry changes. Without a candidate it only gives up the refill. |
| `FtlRoutes.RunBack` | conv_ftl.c:1118-1137 | Throughout a collection the reverse entries of the victim's pages stay what they were, so every page is routed by the LPN that it had at the start. |
| `FtlRoutes.FitAll` | conv_ftl.c:1237-1268 | If each page that the schedule comes to is routed as page_is_hot decides, all live pages of the victim are. |
| `ConvFtl.ConvFtl.ForegroundGc` | conv_ftl.c:1284-1306 | Nothing while more than gc_thres_lines_high lines are free, otherwise a collection: the model's, with the victim chosen in place. |
| `ConvFtl.ConvFtl.CheckAndRefillWriteCredit` | conv_ftl.c:240-251 | The model's refill, with the victim and the routing chosen in place. |
| `ConvFtl.ConvFtl.CountWrite` | conv_ftl.c:1467-1485 | In learning mode one more write in the window, counted hot exactly if the page was written before and less than TH_HOT ago; at pgs_per_line writes the percentage of hot ones is kept and the window starts again. The partition and the rest of the statistics are left alone. |
| `ConvFtl.ConvFtl.WriteLpn` | conv_ftl.c:1442-1506 | One iteration of the write loop in place, from a safe partition and with at most Capacity LPNs mapped then ((tt_lines - 5) * pgs_per_line, one more with lines of one or two pages): it is a step of the model, stays safe, changes what the host reads at this LPN only, and notes one more write of it, whatever was collected. |
| `ConvFtl.ConvFtl.LearnedSoFar` | conv_ftl.c:568-627 | In learning mode, in every state in which the statistics are consistent, which conv_init_ftl establishes and every write and collection keeps: episodes equal gc_count, epsilon is 300 - gc_count but at least 50, every Q-table entry is in [-39980, 20000], and the current state is below 1728. |
| `ConvFtl.ConvFtl.WearGapSoFar` | conv_ftl.h:169-174 | In every such state after the first collection the accumulated difference is the present range of the lines' erase counts minus 1, the range after the first erase, over one sample fewer than gc_count. |
| `ConvFtl.BlankTables` | conv_ftl.c:850-869 | Tables of UNMAPPED_PPA and INVALID_LPN represent empty maps, and no page is programmed. |
| `Namespace.Striped` | conv_ftl.c:1448-1449 | A host LPN is determined by its partition and its number in it: striping loses nothing. |
| `Namespace.ReadPut` | conv_ftl.c:1448-1449 | Storing a page at one host LPN changes what the host reads there and nowhere else, across partitions. |
| `Namespace.ReadOverwrite` | conv_ftl.c:1442-1506 | Reading after a write command gives the new data inside it and the old data outside it. |
| `Namespace.ConvNamespace.ConvWrite` | conv_ftl.c:1405-1515 | LBA_RANGE exactly if the last LPN is past the partitions' pages, INTERNAL exactly if the buffer is full then, both without effect; otherwise every page of the command is stored, whatever is collected on the way, nothing else changes for the host, and all partitions stay safe. The addresses are any below tt_pgs, as long as the LPNs ever written, over all commands, are at most Capacity in a partition ((tt_lines - 5) * pgs_per_line, one more with lines of one or two pages). |
| `Namespace.ConvInitNamespace` | conv_ftl.c:923-961 | A namespace of fresh, separate, safe partitions in which no LPN has data. |
| `Shipped.AdvertisedFits` | conv_ftl.c:910-917 | With the shipped parameters and any device size whose blocks fit the 16-bit page number, the sectors below the advertised size belong to partition-local LPNs of which there are no more than a partition can hold without ever running out of lines. |
| `WearGap.CollectEraseStats` | conv_ftl.c:353-378 | The largest and the smallest erase count (both 0 without lines), the sum and the sum of squares. |
| `WearGap.Telescopes` | conv_ftl.c:385-403 | After the first collection the accumulated difference is the last range minus the first, over one sample fewer than collections. |
| `WearGap.WearGapStats.Update` | conv_ftl.c:385-403 | One more sample, of the largest minus the smallest erase count; the fields stay what the samples determine. |
| `WearGap.GapIs` | conv_ftl.h:169-174 | With one range taken after each erase, the reported sum is the range of the present erase counts minus 1. |
| `RlAgent.RewardBounds` | conv_ftl.c:580-603 | The reward of a collection that copied fewer pages than a line has lies in [-1999, 1000]. |
| `RlAgent.RewardNear` | conv_ftl.c:580-603 | The reward is, but for less than 4, -W - E / 2 in exact numbers: W is 1000 times the copies over a line's pages, and E, kept within 2000 of 0, 1000 times the growth of the range of erase counts and 250 times the range, over their mean and one. |
| `RlAgent.NextQInRange` | conv_ftl.c:605-614 | The table update, with its two truncating divisions, keeps an entry in [-39980, 20000]. |
| `RlAgent.NextQMoves` | conv_ftl.c:605-614 | The table update moves an entry by a tenth of its distance to the reward plus 0.95 of the best next entry, but for less than 1.1. |
| `RlAgent.EpsilonIs` | conv_ftl.c:616-619 | After k episodes epsilon is exactly max(50, 300 - k). |
| `RlAgent.EncodeIsIndex` | conv_ftl.c:523-527 | The index of six levels is below 1728 and determines them. |
| `RlAgent.DecodeIsState` | conv_ftl.c:523-527 | Every index below 1728 is that of six levels in range. |
| `RlAgent.Agent.constructor` | conv_ftl.c:699-718 | A zero table, epsilon 300, no episodes: the agent's invariant holds. |
| `RlAgent.PercentIs` | conv_ftl.c:505-516 | A percentage computed in 32 bits is at most 100, and exact for parts below 42949673. |
| `RlAgent.Agent.CountWrite` | conv_ftl.c:1474-1484 | The window counters; after pgs_per_line writes the share of hot ones, at most 100 percent, is kept and the window starts again. |
| `RlAgent.Agent.DecodeAction` | conv_ftl.c:531-536 | The two levels in range that make up the action. |
| `RlAgent.Agent.SelectAction` | conv_ftl.c:542-558 | Below epsilon the random action, otherwise the first of the best actions of the state. |
| `RlAgent.Agent.MaxQ` | conv_ftl.c:605-610 | The largest entry of a state, which is in range. |
| `RlAgent.Agent.ComputeReward` | conv_ftl.c:580-603 | The reward computed step by step is -W - lambda * E of the wear statistics. |
| `RlAgent.Agent.Learn` | conv_ftl.c:605-622 | Exactly one table entry changes, that of the current state and action, towards the reward plus the discounted best entry of the next state; everything stays in range. |
| `RlAgent.Agent.Update` | conv_ftl.c:568-627 | The whole update after a collection: reward, table entry, exploration rate, totals and snapshots; the invariant over runs is kept. |
| `RlState.ScanQueue` | conv_ftl.c:430-463 | One scan finds the first candidate of fewest valid pages, the extremes and the sum of erase counts, and, unless a product wraps, the candidates of highest rounded cost-benefit and cost-age-times score. |
| `RlState.GetState` | conv_ftl.c:411-528 | The index of the six levels of what the scan finds, below 1728. |
| `RlState.SignedPercentIs` | conv_ftl.c:465-481 | The gap between two lines' page counts, computed in a signed 32-bit number, is the percentage rounded down, at most 100, for gaps up to 21474836 pages. |
| `RlState.SignedPercentWraps` | conv_ftl.c:465-481 | For a gap of one page more, of a whole line, it is not. |
| `RlState.GapsAre` | conv_ftl.c:465-486 | The first two levels say by how many hundredths of a line, 3, 8 and 18, the choice of cost-benefit has more valid pages than the greedy one, and that of cost-age-times than that of cost-benefit. |
| `RlState.HotLevelsAre` | conv_ftl.c:503-521 | The third says how many hundredths of the window's writes, 10, 30 and 55, were hot, the fourth whether their percentage is more than 8 points below or above the last window's. |
| `RlState.WearLevelsAre` | conv_ftl.c:488-501 | The fifth says whether the last victim had more erases than the candidates on average, and than half as many again, the sixth how many hundredths, 5 and 20, of that average and one their erase counts spread. |
| `RlState.FloorIs` | conv_ftl.c:443-457 | The scan's scores are those of cost-benefit and of cost-age-times, rounded down. |
| `ChannelModel.GreedyIs` | channel_model.c:86-106 | Greedy consumption by its outcome: slots before the last are emptied, the last gives the rest, no other changes, no earlier slot could have been the last, and credits are left over only when the window ends. |
| `ChannelModel.GreedyFull` | channel_model.c:83-106 | From full slots, n credits of m per slot cross exactly (n - 1) / m slots. |
| `ChannelModel.NoDelay` | channel_model.c:114-115 | That many crossings are within the default delay n / m, so they add none. |
| `ChannelModel.NoDelayExactly` | channel_model.h:13-16 | With slots of one byte, and max_credits no multiple of 256, a channel of which nothing is spent makes every request wait no longer than its transfer time if and only if max_credits is at most 255. |
| `ChannelModel.MovedExactly` | channel_model.c:42-57 | Lazy resetting shows the timeline exactly if and only if the clock moved by fewer than 2^32 units or all slots the truncated difference leaves are full. |
| `ChannelModel.StaleAfterWrap` | channel_model.c:43-44 | On the driver's ring, after an idle time of exactly 2^32 units, a used slot is seen again while the timeline has nothing spent. |
| `ChannelModel.GrantShows` | channel_model.c:79-112 | What a request does to the ring is greedy subtraction on the unbounded timeline from its unit on; slots from valid_len on stay full. |
| `ChannelModel.ServeGrants` | channel_model.c:31-112 | A request on a ring that shows the timeline leaves one that does, as long as the lazy reset is exact; admitted, it takes its credits greedily from its first unit on, and gets all it needs unless it comes to the last unit of the window. |
| `ChannelModel.OwnUnitExactly` | channel_model.c:71 | An admitted request's first unit is its own if and only if that is fewer than 2^32 units ahead. |
| `ChannelModel.FreshRequest` | channel_model.c:79-119 | With nothing taken from its first unit on and enough units, a request gets all it needs, crosses (need - 1) / m units, m being the credits of a unit, and with m equal to max_credits is told exactly request_time + xfer_lat * units. |
| `ChannelModel.ChannelModel.constructor` | channel_model.c:16-29 | Whatever the bandwidth, a ring of slots that each hold max_credits cut to a byte stands for a timeline of which nothing is spent. |
| `ChannelModel.ChannelModel.MoveHead` | channel_model.c:42-62 | The memsets, the new head and valid_len turn the window by the truncated difference, cut at valid_len, whatever the clock did. |
| `ChannelModel.ChannelModel.Consume` | channel_model.c:79-106 | The loop terminates and does the greedy consumption, also around the end of the array. |
| `ChannelModel.ChannelModel.Take` | channel_model.c:79-112 | An admitted request consumes its credits greedily from its offset on, and valid_len covers the last slot it used. |
| `ChannelModel.ChannelModel.Request` | channel_model.c:31-120 | The whole request in place, for any clock and any request time: requests from the past or beyond the window take nothing and are told their own time; any other is served as the ring model says and told the end of its transfer, which ChannelDelay.BusyAnswer works out, unless max_credits is 0, when the driver divides by it. |
| `ChannelDelay.BusyAnswer` | channel_model.c:83-119 | On a channel in any state the answer is request_time + xfer_lat * units, in 32 bits, and 4000 ns for each unit crossed beyond need / max_credits: the units crossed are those up to the first with which the credits still free on the timeline cover the need, or up to the last of the window. |
| `ChannelDelay.WaitsBehind` | channel_model.c:83-119 | Behind j units that have given all their credits, and with those after them untouched, a request waits exactly j * 4000 ns longer than its transfer takes, or one unit less if it needs a whole number of units' credits. |
| `ChannelDelay.UnitsHold` | channel_model.c:39 | A transfer of up to 512 GB is charged the least number of 128-byte units that holds it. |
| `ChannelModel.FarRequest` | channel_model.c:71 | A request exactly 2^32 units ahead is taken for one of the current unit. |
| `ChannelRuns.BandwidthLimit` | channel_model.c:86-106 | Over every run of requests whose clock does not go back, however far it jumps, the requests that stay within some k units are granted at most k times the credits of a unit in all. |
| `ChannelRuns.ClockBack` | channel_model.c:43-44 | When the clock goes back by one unit, a unit can give all its credits twice. |
| `ChannelRuns.CreditsConserved` | channel_model.c:86-106 | Over every run of requests, whatever the clock did, the units have given out together exactly what the requests were granted. |
| `ChannelRuns.RunReflects` | channel_model.c:42-57 | Over every run whose clock goes on by fewer than 2^32 units at a time, the ring shows exactly what each unit still has. |
| `WorkQueue.InsertForward` | io.c:276-290 | The writes that link an entry in keep next a chain through the new order. |
| `WorkQueue.InsertBackward` | io.c:276-290 | And prev its mirror image. |
| `WorkQueue.SortedLater` | io.c:625 | Order by max(nsecs_target, latest_nsecs) survives any increase of latest_nsecs. |
| `WorkQueue.InsertSorted` | io.c:248-292 | An entry put where the scan from the tail stops leaves the list in order. |
| `WorkQueue.TailScan` | io.c:264-274 | The scan stops behind every request that is due no later, and before all others: equal targets are first come, first served. |
| `QueueProtocol.EnqueueSorted` | io.c:317-386 | With two free slots or more an enqueued request takes the first free one, with its target time; in a list that is in order it goes behind all that are due no later, and the list stays in order. |
| `QueueProtocol.ReclaimLists` | io.c:388-437 | Exactly the longest prefix of completed, copied and due requests goes behind the free slots; the lists stay a partition of the slots, never-used free slots first. |
| `QueueProtocol.WorkStepHistory` | io.c:622-693 | A worker step posts at most one completion, of a request whose target time has come and that had none. |
| `QueueProtocol.NextUsed` | io.c:628-629 | From a slot once used, in either list, next leads to a slot once used or to the end: the cursor of a worker that was overtaken never reaches a slot that was never allocated. |
| `QueueProtocol.ApplyKeeps` | io.c:248-437 | Every atomic step of dispatcher or worker keeps all of this, and takes nothing back. |
| `QueueProtocol.AnyInterleaving` | io.c:294-437 | Under any interleaving, whatever the worker's clock reads: each request completes at most once and not before its target time, the cursor is on a slot once allocated, and the lists partition the slots with one always free and never-used ones first. |
| `QueueProtocol.StaysInOrder` | io.c:248-292 | Under any interleaving in which the worker's clock does not go back, the in-flight list is in order of max(nsecs_target, latest_nsecs). |
| `QueueProtocol.SweepReachesAll` | io.c:619-690 | A sweep of the worker that the dispatcher leaves alone comes to every request in flight, one step each, and ends: then all of them have been copied, those are completed that were before or were due at the reading taken there, and their completions, no others, were posted in the order of the list. |
| `QueueProtocol.SweepDrains` | io.c:388-437 | When all requests in flight are due, a sweep and a reclaim leave none in flight and every slot free. |
| `QueueProtocol.SweepIsSteps` | io.c:619-690 | A sweep is the worker's start of one and its steps. |
| `IoWorker.IoWorker.constructor` | io.c:738-760 | The arrays represent a queue with all slots free. |
| `IoWorker.IoWorker.BeginSweep` | io.c:619 | The sweep starts at the head of the in-flight list, or ends at once if that is empty. |
| `IoWorker.IoWorker.WorkerStep` | io.c:622-693 | One iteration of the worker's loop on the arrays is the protocol's worker step. |
| `IoWorker.IoWorker.WorkerSweep` | io.c:619-690 | The worker's inner loop on the arrays, left alone by the dispatcher, is the protocol's sweep: it comes to every request in flight and ends. |
| `IoWorker.IoWorker.FindPlace` | io.c:264-274 | The loop along prev stops at the model's place. |
| `IoWorker.IoWorker.InsertReqSorted` | io.c:248-292 | All three cases of linking give the chain with the entry at its place, and the ends of the list. |
| `IoWorker.IoWorker.EnqueueReq` | io.c:294-386 | Allocating, filling and linking an entry is the protocol's enqueue; with one free slot the request is dropped. |
| `IoWorker.IoWorker.LastReclaimable` | io.c:401-416 | The scan from the head finds the longest prefix of completed, copied and due requests. |
| `IoWorker.IoWorker.Splice` | io.c:418-435 | The writes move that prefix behind the free list and keep both chains. |
| `IoWorker.IoWorker.ReclaimCompleted` | io.c:388-437 | Reclaiming on the arrays is the protocol's reclaim. |
| `PrpTransfer.TransfersAgree` | io.c:141-246 | The coalesced DMA transfers pair the same host and storage bytes as the page-at-a-time copy if and only if no entry used starts inside a page and is followed by the entry one page further on. |
| `PrpTransfer.TransfersDiffer` | io.c:214-232 | They do differ for a page of data through an entry in the first half of a page and the entry a page further on: the joined transfer reads on behind the first page where the copy starts the second entry. |
| `PrpTransfer.AlignedEntriesAgree` | io.c:217-223 | In particular whenever all entries after the first are page-aligned, as section 4.3 of NVM Express Base Specification 1.4 demands. |
| `PrpTransfer.PagesInOrder` | io.c:66-125 | The bytes copied page by page are the first ones of the memory that the entries stand for, each from its address to the end of its page, in order, and no more entries are used than that takes. |
| `PrpTransfer.PerformIo` | io.c:66-125 | The loop's copies fill storage contiguously and pair it with the host bytes page by page. |
| `PrpTransfer.CountPrps` | io.c:162-195 | The number of entries that the transfer uses. |
| `PrpTransfer.JoinRun` | io.c:214-232 | One transfer covers a maximal run of entries that follow each other in memory, cut to what remains. |
| `PrpTransfer.PerformIoUsingDma` | io.c:204-243 | The loop fills storage contiguously, pairs it with the host bytes run by run, and never runs out of entries, whatever they are. |
| `ZnsZones.CountersFit` | zns_ftl.h:53-78 | OPEN and ACTIVE counts stay within the totals, are positive whenever a zone holds the resource (so a release never underflows) and below the total whenever one does not. |
| `ZnsZones.ManagementKeeps` | zns_mgmt_send.c:7-175 | Close, finish, open, reset and offline keep the counts exact and every zone's write pointer and flags consistent. |
| `ZnsZones.FlushKeeps` | zns_mgmt_send.c:177-228 | So does an explicit ZRWA flush, also one that fills the zone. |
| `ZnsZones.WriteKeeps` | zns_read_write.c:64-170 | So does a write or append at the write pointer, also one that opens or fills the zone. |
| `ZnsZones.FlushWithin` | zns_read_write.c:315-329 | An implicit flush never reaches past the write that causes it, and reaches the zone's end exactly if the write does so within the ZRWA. |
| `ZnsZones.WriteZrwaKeeps` | zns_read_write.c:225-336 | So does a write to the ZRWA, and it never finds its zone empty: that branch, which would not count the zone as active, is unreachable. |
| `ZnsZones.ZoneOfPage` | zns_ftl.h:89-102 | The zone found by page and the zone found by LBA are the same. |
| `ZnsLaws.ManagementAnswers` | zns_mgmt_send.c:7-175 | Close succeeds exactly for open and closed zones, which are closed then; finish and reset always succeed and leave a full zone, and an empty one with its write pointer at its start; offline is always refused. |
| `ZnsLaws.OpenAnswers` | zns_mgmt_send.c:66-106 | Open is refused for a full zone, and for an empty one if a ZRWA is asked for and none is left; otherwise the zone is explicitly open, with a ZRWA if it was empty and one was asked for. |
| `ZnsLaws.FlushAnswers` | zns_mgmt_send.c:177-228 | An explicit flush succeeds exactly for an active zone with a ZRWA, an LBA in it and a whole number of flush granularities; the write pointer is then behind that LBA, and the zone full exactly if that is its end. |
| `ZnsLaws.WriteAnswers` | zns_read_write.c:64-170 | A write without a ZRWA succeeds exactly if it is buffered, of whole write units, at the write pointer or an append, and fits the zone, which is not full; the write pointer is then behind what was written, and the zone full exactly if that is its end. |
| `ZnsLaws.WriteRefusals` | zns_read_write.c:64-170 | The refusals of such a write and the order in which they are found. |
| `ZnsLaws.ZrwaAnswers` | zns_read_write.c:225-336 | A write to a ZRWA succeeds exactly under the checks' conditions; the write pointer then moves by the least number of flush granularities that leaves the write within the ZRWA, or to the zone's end if it ends there within the ZRWA, or not at all. |
| `ZnsLaws.WrittenInOrder` | zns_read_write.c:17-39 | After any sequence of commands the LBAs of a zone from its start to its write pointer have been written, each once and in order, and no others since its last reset. |
| `ZnsZones.AfterAnyCommands` | zns_mgmt_send.c:230-258 | After any sequence of commands OPEN counts the opened zones and ACTIVE the opened and closed ones, both within the totals; an empty zone has its write pointer at its start and no ZRWA, an active one has it inside; no zone is read-only or offline. |
| `ZnsZones.LeakExactly` | zns_read_write.c:27-35 | The ZRWA count gains a resource that no zone holds exactly when a command is a unit-aligned write to the ZRWA of an active zone, starting at or beyond its write pointer, that finds room in the buffer and ends at the zone's end within the ZRWA; no command gives one back. |
| `ZnsZones.FillsExactly` | zns_read_write.c:17-39 | Of the writes to a ZRWA exactly those fill their zone. |
| `ZnsZones.LeakHappens` | zns_read_write.c:27-35 | A run that leaks one: open a zone with a ZRWA of its size and write all of it. |
| `ZnsZones.DividesExactly` | zns_read_write.c:315-329 | A command divides by zero exactly if the flush granularity is 0, the zone has a ZRWA, and it is an explicit flush of an LBA of the ZRWA or a unit-aligned write of an active zone that stays in the zone and in twice the ZRWA but leaves the ZRWA. |
| `ZnsZones.DivisionHappens` | zns_ftl.c:76-79 | With a ZRWA size and granularity of 0, as shipped, opening a zone with a ZRWA and then flushing or writing it divides by zero. |
| `ZnsFtl.ZnsFtl.constructor` | zns_ftl.c:10-82 | All zones empty and nothing acquired. |
| `ZnsFtl.ZnsFtl.Close` | zns_mgmt_send.c:7-29 | The close command in place, with a release that does not underflow. |
| `ZnsFtl.ZnsFtl.Finish` | zns_mgmt_send.c:31-64 | The finish command in place, with what each state gives up. |
| `ZnsFtl.ZnsFtl.Open` | zns_mgmt_send.c:66-106 | The open command in place, with its fall-throughs and the order of its refusals. |
| `ZnsFtl.ZnsFtl.Reset` | zns_mgmt_send.c:108-156 | The reset command in place. |
| `ZnsFtl.ZnsFtl.TakeOffline` | zns_mgmt_send.c:158-175 | The offline command in place. |
| `ZnsFtl.ZnsFtl.Flush` | zns_mgmt_send.c:177-228 | The explicit flush in place, with its range, granularity and state checks. |
| `ZnsFtl.ZnsFtl.IncreaseWritePtr` | zns_read_write.c:17-39 | The write pointer of an opened zone advances by the number of LBAs given, and the zone becomes full exactly if it comes to its end. |
| `ZnsFtl.ZnsFtl.WriteSequential` | zns_read_write.c:64-170 | The write command in place, with the order of its checks and its fall-through; the write pointer advances by the LBAs written exactly if it succeeds. |
| `ZnsFtl.ZnsFtl.FlushForWrite` | zns_read_write.c:315-336 | The implicit flush in place. |
| `ZnsFtl.ZnsFtl.WriteRandom` | zns_read_write.c:225-336 | The write to the ZRWA in place. |
| `ZnsFtl.ZnsFtl.ZnsWrite` | zns_read_write.c:382-398 | The choice between the two by the zone's ZRWA flag. |
| `ZnsFtl.ZnsFtl.ResetAll` | zns_mgmt_send.c:272-274 | Resetting all zones leaves every zone empty and OPEN and ACTIVE at zero, and always succeeds. |
| `KvIndex.NotStored` | kv_ftl.c:337-360 | A search that comes to the end of the chain or an empty home slot without a match has not missed the key. |
| `KvIndex.PutChained` | kv_ftl.c:159-198 | Linking a free slot behind the end of a chain keeps all chains free of cycles. |
| `KvIndex.PutFindable` | kv_ftl.c:164-232 | Afterwards every stored key, old or new, is still reached from its home slot, though chains coalesce. |
| `KvIndex.PutKeeps` | kv_ftl.c:200-232 | A new key put in its place: the table stays well-formed and stands for the old map with that key added. |
| `KvIndex.ResizeKeeps` | kv_ftl.c:268-318 | Changing a stored key's length changes that key's entry in the map only. |
| `KvRuns.ApplyReads` | kv_ftl.c:505-640 | A store whose bytes are no other key's updates the finite map that the host reads, at its key only, with the driver's rule for lengths. |
| `KvRuns.StoreThenRead` | kv_ftl.c:523-552 | What is read after a store: the value, if the key is new, or the value is as long as the one before, or both are at most 1024 bytes; otherwise as many bytes as before, cut, or with the rest of the old value behind the new one. |
| `KvRuns.IndexIs` | append_only.c:25-38 | After any run of stores, clobbering or not, a key's value starts where its first value went, behind the first values of the keys stored before, and has the length that a finite map would hold. |
| `KvRuns.HarmlessReadsBack` | kv_ftl.c:523-552 | A run of stores none of which reaches another key's value reads back as a finite map after each of them. |
| `KvRuns.HarmlessExactly` | kv_ftl.c:530-540 | For given keys and lengths, all runs of stores read back as a finite map after each store, whatever the bytes, if and only if no store reaches the value of another key; which ones do is told from the keys and lengths stored alone. |
| `KvRuns.PlainExactly` | kv_ftl.c:523-552 | A run of harmless stores reads back as the plain map of last values after each store if and only if every value stored again is as long as the one before it, or both are at most 1024 bytes; so it does when no value is longer. |
| `KvRuns.Clobbers` | kv_ftl.c:530-540 | On an empty device, storing one key, a second one, and the first one again a byte longer makes the second key read wrong. |
| `KvFtl.KvFtl.constructor` | append_only.c:16-23 | An empty table over storage of which nothing is handed out. |
| `KvFtl.KvFtl.Lookup` | kv_ftl.c:320-377 | The walk terminates and finds the slot of the key exactly if the key is stored. |
| `KvFtl.KvFtl.ChainEnd` | kv_ftl.c:169-175 | The walk terminates at the used slot that ends the chain. |
| `KvFtl.KvFtl.NextFree` | kv_ftl.c:181-185 | Probing around the end of the table terminates at the first free slot, if there is one. |
| `KvFtl.KvFtl.NewMappingEntry` | kv_ftl.c:200-232 | A key that is not stored is added to the map, in a table that is not full. |
| `KvFtl.KvFtl.Store` | kv_ftl.c:523-540 | The whole store in place, also one that clobbers another key: index, allocator and storage become what the model of a store says, and the key reads as the value if it is new, or the length is the same, or both lengths are at most 1024. |
| `KvFtl.KvFtl.Retrieve` | kv_ftl.c:541-552 | The stored value up to the length asked for, and not-exist exactly for keys that are not stored. |

## Left out

Contracts that say less than one might look for:

- FtlLimit.CapacityIsExact: the hot/cold routes of a failing run are chosen freely; FtlGreedy.GreedyCapacity has the driver's.
- FtlGreedy.GreedyCapacity: for greedy victims and lines of at least 4 pages; for the scored modes and shorter lines FtlLimit.CapacityIsExact is what is shown.
- Namespace.ConvNamespace.ConvWrite: at most (tt_lines - 5) * pgs_per_line LPNs are ever written in a partition (one more with lines of one or two pages), since with more the driver can fail; the number of collections stays below 2^31 and a line has fewer than 2^31 pages, so erase counts and ranges fit the driver's integers. Sector numbers are unbounded, and the command's data is whatever the copy brings.
- ConvFtl.ConvFtl.WriteLpn: the same bounds, for one partition.
- ConvFtl.ConvFtl.DoGc: that no candidate scores higher is claimed under the bound below which 64-bit products do not wrap; the victim's page count, the invariant and the host's data do not depend on it.
- LineMgmt.LineMgmt.SelectVictimScored: the highest score is claimed under the bound below which 64-bit products do not wrap; beyond it, that the victim is a queued line.
- RlState.GetState: the signed product of a page count's gap and 100 wraps when it overflows, as the kernel's compiler flags have it.
- FtlWear.WearGapOverRuns: erase counts and ranges are numbers without a width; ConvFtl keeps them below 2^31.
- FtlWear.LearningOverRuns: the same, and learning mode from the first write on.
- RlState.GapsAre: for lines of at most 21474836 pages, whose gaps do not wrap.
- RlState.HotLevelsAre: for windows of at most 42949672 hot writes, whose percentage does not wrap.
- RlState.WearLevelsAre: for spreads of at most 42949672 erases, whose percentage does not wrap, and an average of at most 2^31.
- RlAgent.Agent.Update: copies and erase counts come from the caller, as in the driver; ConvFtl supplies them. Random numbers are inputs.
- ChannelModel.ChannelModel.constructor: max_credits and xfer_lat are given; their computation from the bandwidth, which divides by it, is not modelled.
- ChannelModel.ServeGrants: for a clock that does not go back and a difference for which the lazy reset is exact, which ChannelModel.MovedExactly characterises.
- ChannelRuns.BandwidthLimit: for a clock that does not go back, see ChannelRuns.ClockBack.
- ChannelDelay.BusyAnswer: where the ring shows the timeline, as ChannelRuns.RunReflects has it.
- ChannelDelay.WaitsBehind: the same, and max_credits in a byte; ChannelDelay.BusyAnswer has no such bound.
- QueueProtocol.SweepReachesAll: the dispatcher does nothing during the sweep.
- QueueProtocol.AnyInterleaving: one worker, whose step on one entry is atomic; it does not claim that every request completes, since a full queue drops it.
- ZnsZones.AfterAnyCommands: the zone number is in range, which the driver leaves to the host; lbas_per_zrwafg is at most lbas_per_zrwa.
- Shipped.AdvertisedFits: for devices whose blocks have at most 65536 pages, the range of the page number in an address.
- KvFtl.KvFtl.Lookup: keys of one length; the driver compares as many bytes as the key asked for has.
- KvFtl.KvFtl.Retrieve: keys of one length, as for KvFtl.KvFtl.Lookup.
- KvFtl.KvFtl.Store: keys of one length; a value that ends within the storage, and for a new key a table that is not full. The driver checks none of these.
- PrpTransfer.PerformIoUsingDma: the limit of the static list, 513 entries of which the first is not used, is not modelled.

Not modelled:

- Clocks, random numbers and page temperatures: arbitrary inputs or arbitrary choices, so the results hold for all of them.
- Timing of NAND, buffers and PCIe (`ssd_advance_nand`, `ssd_advance_write_buffer`), reads and flushes (`conv_read`, `conv_flush`): they change no state that the properties are about.
- Host data: the emulator keeps it outside the translation layer, so it is a ghost payload per physical page.
- The second set of counters in `struct nand_block`, which repeats the line counters block by block and is read only for statistics.
- Runtime changes of `gc_mode`; wrap-around of 64-bit counters and of the 32-bit counters of writes per page.
- Several I/O workers, interrupts, completion queue entries, memory barriers and races within one step.
- Reading PRP lists from host memory and mapping their pages.
- Zone buffers and NAND timing: whether a buffer has room is an input, and the assertion that a buffer can be allocated when a closed or empty zone is written (`zns_read_write.c:288`) is not modelled. Set-zone-descriptor and zone management receive; select-all as a loop for reset only, the others being sequences of commands.
- Key-value delete, batches, iterators, variable-length keys, and the bitmap allocator. The hash function is arbitrary.
- PCI, admin commands, module parameters, `simple_ftl.c`, identify and SMART pages, scripts: plumbing without such properties.
