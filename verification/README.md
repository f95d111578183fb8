# A verified model of the XFS formatter and admin tool

The crate lays down an XFS filesystem without running any transactions, and later gives it a new
UUID. This project models the parts of it that compute and keep state, and proves what the rest of
the crate, and the kernel that later mounts the result, rely on.

| file | models |
|---|---|
| `Prelude.dfy`, `Bytes.dfy` | errors and results, division lemmas, big-endian fields |
| `Device.dfy` | `MemDevice`, the sparse chunk map, against a flat array of bytes |
| `LogFinder.dfy`, `LogTheorems.dfy` | the log's head and tail search as a function of the log, and what it promises of whole logs |
| `LogReader.dfy` | the same search as `LogReader` runs it, over a device and through its window |
| `LogRecord.dfy`, `LogWriter.dfy`, `LogClear.dfy` | building records, writing in chunks, clearing a log at a cycle |
| `LogInBytes.dfy` | the search, records and cleared logs by their bytes |
| `Identity.dfy` | what a new UUID does to the superblocks' values, over every history of commands, complete and cut short |
| `SbRewrite.dfy`, `Superblocks.dfy` | the same in place on a superblock's bytes, and on every group's in the device's |
| `Admin.dfy`, `AdminInBytes.dfy` | opening a filesystem, `set_uuid` and `restore_uuid` on the device, over every run; what is refused and what is left, by the bytes |
| `Geometry.dfy`, `AgGeometry.dfy`, `Compute.dfy` | sizes and positions, the choice of groups, every check on the parameters, the log's size and place |
| `Acceptance.dfy` | the outcome of all that by the numbers alone: what is accepted, for which geometry, and the error otherwise |
| `AgPlan.dfy`, `AgHead.dfy`, `Planning.dfy` | the allocation group planner, what headers record of its free space, and when the groups of a computed geometry can all be planned |
| `KnownGeometries.dfy` | the default geometries, and those that go wrong |
| `FormatProtocol.dfy` | the order a format writes in, under a crash model |
| `Crc.dfy`, `Checksum.dfy` | CRC32C by table against the shift register, what a checksum detects, and storing it |
| `SuperblockCodec.dfy`, `SuperblockInBytes.dfy` | superblock encoding and parsing, and every field, refusal and rewrite by its offset |
| `AgflRing.dfy`, `BtreeWalk.dfy` | the free list ring, the level-order btree walk |
| `FormatImage.dfy` | a format's writes to a device, and what they leave at every byte |
| `Lifecycle.dfy`, `Refusals.dfy` | the parts together: from parameters to a formatted device, and any number of new UUIDs on it, or none on one with changes to replay or marked for repair |

The two halves of the log code are tied together by `LogFinder`: the class `LogReader` is proved to
give exactly the answers of `LogFinder`'s functions over the device's bytes, whatever its window held
before, and `LogClear` is proved to write exactly the bytes that `LogTheorems` shows those functions to
call clean.

Superblocks are bytes of the same device as the log. `set_uuid` reads, checks, edits and writes them where
the parsed geometry says they are, and `Admin.Outcome` says what every call leaves, whatever its result:
the bytes before, then with the log rewritten, then with the first so many superblocks rewritten.
`Admin.OutcomeIsStep` ties that to the values in `Identity`, and `Lifecycle.FormatThenSet` runs it from a
computed geometry on.

The files named `InBytes`, and `Acceptance`, say what the specifications come to without them: over bytes,
offsets and numbers.

## What does not hold, and exactly when it does

- **First lap of a log.** With stale blocks zero, a log of whole records can be refused as corrupt in two
  ways: a write past the physical end reached block 0 while the last block is still zero
  (`LogTheorems.WrappedZeroLapIsRefused`), or up to 4096 blocks are in flight and the bisection ends where
  the scan for the last header does not reach (`LogTheorems.ZeroLapWindowIsTight`).
  `LogTheorems.ZeroLapHead` is the exact condition for every window; one that ends by the physical end and
  has room for one more record always meets it.
- **A window over the middle of a short log.** Under 8192 blocks, blocks in flight can wrap as far as the
  middle block and mislead the bisection. `LogTheorems.TornCycleHead` is the exact condition for the search
  over cycles to find the first stale block, for every window: it does unless the window runs past the
  physical end and the boundary the bisection ends on lies past that block (`Misled`), which no window of
  half the log or less can bring about. `LogTheorems.MisledByShortLog` is a log on which it happens.
- **Stale blocks below the head.** Aligning the head can take it back round the physical end, above a hole
  the scan had found: `LogTheorems.StaleBelowHead` is such a log, and `LogTheorems.NoStaleBelowHead` the
  exact condition, on any contents.
- **Clearing a log** past cycle 1 fails exactly when its length leaves one basic block over 512-block
  records, on a device that takes every write (`LogClear.ClearLog`, and `LogClear.OneBlockOver` for 4097
  blocks). A log of whole filesystem blocks over 512 bytes never has that length
  (`Admin.WholeBlocksAreEnough`).
- **A bad superblock in a later group** is found only after the log and the superblocks before it are
  rewritten: the result is then `Corrupt`, and exactly those are changed (`Admin.SetUuid`, whose `Ended`
  names the group). The filesystem still opens, and every group keeps the UUID its metadata carries
  (`Admin.EveryRunKeeps`).
- **A restore cut short** after the primary superblock is taken for done by the next one, and the
  other groups keep the changed UUID: `Identity.CompletedRestore` is the exact condition for a restore to
  restore, `Identity.RestoreStopsShort` the run that does not. Metadata UUIDs are never lost
  (`Identity.EffectiveForever`), and a repeated `set_uuid` completes what one cut short began
  (`Identity.CompletedSet`).
- **An explicit group count** can be accepted with a last group of no blocks, or fewer than none. It
  tiles the device exactly when the blocks it is short of whole groups are fewer than one group
  (`AgGeometry.CountTiles`, `Compute.ComputedTiles`); `KnownGeometries.EmptyLastGroup` is an accepted
  geometry whose last group is empty, 8193 groups on 1 TiB of 16 KiB blocks, and
  `KnownGeometries.LastGroupPastEnd` one whose last group would start past the end. No more groups than
  the smallest allowed has blocks always tile (`Compute.FewGroupsTile`).
- **The log's group** can be left too little room for its free list: with the reverse map on, a log cut
  to its group leaves five blocks and the list takes six, and with two groups the log is in the last,
  perhaps short, one: `KnownGeometries.FullLogGroup` and `KnownGeometries.ShortLogGroup` are accepted
  geometries of each kind. `Planning.PlansFitIff` is the exact condition for every group to be planned, and
  `Planning.DefaultsPlan` shows that default groups always meet it.
- **A crash during a format** leaves a finished primary superblock only over the finished format, or over a
  device nothing has changed on, exactly when the device held no finished filesystem before
  (`FormatProtocol.RecognisableIff`): until the first flush an old primary may still be there over groups
  already rewritten (`FormatProtocol.OldFirstUnitMaySurvive`).

## Model

| member | source | states |
|---|---|---|
| Device.Admit | src/device.rs:71-76 | a request is admitted only inside the device, and a refusal is an I/O or bounds error |
| Device.AdmitIff | src/device.rs:71-76 | out of bounds exactly past the end or past 2^64 bytes, and otherwise an I/O error exactly for what is not whole sectors on a device that insists on them |
| Device.MemDevice.CopyOut | src/device.rs:270-283 | a read fills the buffer with the bytes of the flat array the chunks stand for, absent chunks read as zero |
| Device.MemDevice.CopyIn | src/device.rs:285-309 | a write changes exactly the bytes it covers, although all-zero chunks are dropped and never made |
| Device.MemDevice.WriteZeroes | src/device.rs:344-362 | dropping whole chunks and zeroing parts of others makes exactly the range read back as zero |
| Device.MemDevice.ReadAt | src/device.rs:326-331 | reads the flat array or is refused as bounds and alignment say |
| Device.MemDevice.WriteAt | src/device.rs:333-338 | splices the data into the flat array or is refused and changes nothing |
| Device.MemDevice.DefaultWriteZeroes | src/device.rs:57-67 | writing zeroes a megabyte at a time leaves the same as zeroing in one go, up to the point the device refuses |
| Device.Run | src/device.rs:313-362 | over every sequence of reads, writes and zeroings the sparse device answers as a flat array does and ends with the same contents |
| LogTheorems.CycleStartIsBoundary | src/admin.rs:401-413 | on any contents the binary search ends on a block of the target cycle whose predecessor is not of it |
| LogTheorems.TornCycleHead | src/admin.rs:483-509 | whichever of the blocks in flight reached the disk, wrapped or not, the cycle search finds the first that did not, exactly when the bisection is not led past it; with a window of half the log or less it never is |
| LogTheorems.LastRecordAligns | src/admin.rs:428-448 | the head is left where a whole record ends, and otherwise moved back to its header, also round the physical end |
| LogTheorems.TornHead | src/admin.rs:476-527 | the head search is crash tolerant in every lap: the head is the end of the last record that reached the disk whole, but for what a first lap is refused for |
| LogTheorems.ZeroLapHead | src/admin.rs:452-473 | in a first lap with its last block still zero, the exact condition for the head to be found and not refused, for every window, and that one by the physical end with room for one more record meets it |
| LogTheorems.ZeroLapWindowIsTight | src/admin.rs:464-472 | a first-lap log of whole records with 4096 blocks in flight that is refused as corrupt |
| LogTheorems.WrappedZeroLapIsRefused | src/admin.rs:457-462 | a first-lap log of a whole record that is refused because a write past the physical end reached block 0 |
| LogTheorems.MisledByShortLog | src/admin.rs:483-509 | a log of 4096 blocks in which a window over the middle misleads the search over cycles |
| LogTheorems.TailAtRecord | src/admin.rs:530-577 | the tail search picks the record ending at the head; the tail is the head for a lone unmount record and the record's tail block otherwise |
| LogInBytes.TailInBytes | src/admin.rs:530-577 | over the bytes of any log: the tail is the head exactly when the record before it ends there, is one operation, and has the bit 0x20, and otherwise the low word of its tail number; and the cycle |
| LogInBytes.BlockReads | src/admin.rs:389-398 | magic, cycle, lengths and flag of a block by its bytes |
| LogInBytes.UnmountCleared | src/admin.rs:643-658 | a fresh log without its unmount bit has head past the record, tail 0 and cycle 1 |
| LogTheorems.TornState | src/admin.rs:476-577 | a torn log of any lap whose last record is whole: head at its end, tail there or at the block it names, the head's cycle, but for what a first lap is refused for |
| LogTheorems.CleanShutdown | src/admin.rs:476-577 | a corollary: a log shut down cleanly at any block, in any lap, also by a record wrapping the physical end, has head and tail there and the right cycle; only a first lap, which has none before it, refuses one that wraps |
| LogTheorems.TornTail | src/admin.rs:476-577 | a log of any lap cut off inside a record falls back to the record before and its tail, but for what a first lap is refused for |
| LogTheorems.ZeroedIsClean | src/admin.rs:530-534 | a zeroed log is clean at cycle 0 |
| LogTheorems.UnwrittenLogs | src/admin.rs:452-534 | on any contents: unwritten first block, clean at cycle 0; unwritten last block past cycle 1, or no header, corrupt |
| LogTheorems.FreshIsClean | src/admin.rs:452-577 | a log with one unmount record and zeroes is clean at cycle 1, head and tail at the record's end |
| LogTheorems.ClearedIsClean | src/admin.rs:476-577 | a cleared log is clean at exactly its cycle, at block 0 or past a first record of 512 blocks |
| LogTheorems.NoStaleBelowHead | src/admin.rs:452-527 | on any contents with 4096 blocks before the boundary, none of those below the final head is of the stale cycle exactly when the zeroed path found it or aligning did not take it back round the physical end |
| LogTheorems.AlignsDownIff | src/admin.rs:511-526 | aligning takes the head round exactly when it is less than a record from block 0, no header is below it, and the record wrapping to it is not whole |
| LogTheorems.StaleBelowHead | src/admin.rs:511-526 | a log whose head comes out above a stale block |
| LogReader.LogReader.ReadBb | src/admin.rs:376-387 | the window cache returns the addressed 512 bytes whatever was read before |
| LogReader.LogReader.FindCycleStart | src/admin.rs:401-413 | the loop over the device is the bisection of the log, or the device refused |
| LogReader.LogReader.FindVerifyLogRecord | src/admin.rs:428-448 | the loop over the device is the backward scan of the log, or the device refused |
| LogReader.LogReader.FindZeroedBlock | src/admin.rs:452-473 | the search for the zeroed part over the device is that of the log |
| LogReader.LogReader.FindHeadBlock | src/admin.rs:476-527 | the head search over the device is that of the log |
| LogReader.LogReader.FindTailState | src/admin.rs:530-577 | the tail search over the device is that of the log |
| LogRecord.RecordLengthsAgree | src/structs/log.rs:75-116 | for every stripe unit the length written is what both readers decode from the header, and they agree on the header blocks |
| LogRecord.Record | src/structs/log.rs:75-116 | filling the buffer in place gives headers, the unmount operation and stamped blocks for every stripe unit |
| LogWriter.LogWriter.Push | src/admin.rs:318-326 | draining in chunks loses nothing: what is on the device and in the buffer is all that was pushed |
| LogWriter.LogWriter.ZeroesTo | src/admin.rs:328-334 | pads with zeroes up to the given log offset and no further |
| LogWriter.LogWriter.Finish | src/admin.rs:341-346 | the device then holds exactly the concatenation of what was pushed, and whatever the result nothing outside that range has changed |
| LogClear.ClearedIsFoundClean | src/admin.rs:265-305 | what the clearer leaves at a cycle, the search calls clean at exactly that cycle |
| LogClear.TakesLogIsReady | src/admin.rs:288-304 | every write of a clearing is of whole filesystem blocks at block boundaries, so a device that enforces that much takes them all |
| LogClear.ClearLog | src/admin.rs:265-305 | rewrites the whole log at the cycle, with the first record's tail in the cycle before, and whatever the result nothing outside it; on a device that takes every write, refused as unsupported exactly for one block over whole records past cycle 1 |
| LogInBytes.ClearedInBytes | src/admin.rs:265-305 | every record of a cleared log by its bytes: the first names as its tail the block of the cycle before as far from the end as it is long, the others the one before them |
| LogInBytes.RecordInBytes | src/structs/log.rs:75-116 | every byte of a record, header, unmount operation and stamps, by its offset |
| LogClear.OneBlockOver | src/admin.rs:290-303 | a log of 4097 blocks that cannot be cleared at cycle 2 |
| LogClear.FormatLog | src/format.rs:420-427 | leaves the log as cleared at cycle 1, exactly when the device takes the zeroes and the first block, and changes nothing outside it |
| Identity.RestampedKeepsEffective | src/admin.rs:92-107 | a rewritten superblock has the new UUID, keeps its metadata UUID and other features, and the flag exactly when they differ |
| Identity.EffectiveForever | src/admin.rs:74-121 | over every history of sets and restores, complete or cut short, no group's metadata UUID changes |
| Identity.CompletedSet | src/admin.rs:89-110 | after any history a completed set leaves every group with the UUID and the flag right |
| Identity.CompletedRestore | src/admin.rs:114-121 | a completed restore restores every group exactly when it found the primary changed, or nothing to do |
| Identity.RestoreStopsShort | src/admin.rs:114-121 | the run in which a restore cut short is never completed |
| SbRewrite.Identify | src/admin.rs:92-107 | editing the block in place gives it the UUID asked for, keeps or clears the metadata UUID and flag, and changes no other byte |
| SbRewrite.Encode | src/admin.rs:224-236 | writing back turns quota inodes of 0 into null, copies the feature word, stores the checksum of the sector, and changes no other byte |
| SbRewrite.RestampedIsOne | src/admin.rs:92-107 | the superblock before and the two UUIDs determine every byte of the rewritten block |
| Superblocks.RewroteIsRestamped | src/admin.rs:91-109 | rewriting the first so many blocks of the device is one step of the commands on the superblocks' values |
| Superblocks.ParsesAgain | src/inspect.rs:126-168 | nothing a rewrite changes is read by the parser but the incompat word |
| SuperblockInBytes.RestampInBytes | src/admin.rs:92-236 | a rewritten superblock field by field: UUID, metadata UUID and flag, each quota inode, the second feature word, and every other byte as it was |
| SuperblockInBytes.RefusedInBytes | src/admin.rs:185-199 | needs recovery exactly with the bit 0x10, and otherwise unsupported exactly with a bit from 0x40 up, realtime blocks, or no log of its own |
| Admin.LogAtIsFoundClean | src/admin.rs:74-86 | a zeroed, formatted or cleared log is found clean at its cycle |
| Admin.Open | src/admin.rs:181-203 | reads the geometry and the primary superblock from the device, and refuses exactly what is specified, in that order; what opens is not marked for repair, and has no unknown feature, realtime device or external log |
| AdminInBytes.OpensInBytes | src/admin.rs:181-203 | what a device opens to by its first bytes, each refusal in its order |
| Admin.Fs.RestampAll | src/admin.rs:89-109 | rewrites the superblocks in order up to the first that the device refuses or that is bad, whose error is the result, and no other byte |
| Admin.SetUuid | src/admin.rs:74-110 | not opened, or without a clean log of 4096 blocks or more, nothing changes and the error says why; otherwise only the log until it has moved to the next cycle, then the superblocks in order, and the result is where that ends |
| Admin.RestoreUuid | src/admin.rs:114-121 | false and nothing written for a UUID never changed, and otherwise what a set of the metadata UUID does |
| Admin.OutcomeIsStep | src/admin.rs:74-121 | however a call ends, the superblocks have gone through one step of the commands |
| Admin.OutcomeElsewhere | src/admin.rs:74-110 | the log stays as rewritten under the superblocks, and nothing but these changes |
| Admin.Reopens | src/admin.rs:181-203 | a filesystem that opens does so again after a call, however it ended, in the same geometry |
| Admin.EveryRunKeeps | src/admin.rs:74-121 | over every run of calls, refused, cut short, stopped at a bad superblock or complete, the filesystem opens, every group's metadata UUID is kept, and no byte outside log and superblocks changes |
| Admin.RestoreOnce | src/admin.rs:114-121 | on a filesystem with a clean log and good superblocks a restore succeeds, true exactly when the flag was set, and leaves it so |
| Admin.SetUuids | src/admin.rs:74-110 | every run of sets from such a filesystem succeeds, moves the log to exactly the next cycle each time, and leaves it such |
| AdminInBytes.SetWithChanges | src/admin.rs:77-84 | a log whose last record is not an unmount that ends at its head, and names another block, is refused as needing recovery, and nothing is written |
| AdminInBytes.SetInBytes | src/admin.rs:85-110 | after a set the log starts with a record of the next cycle under the new UUID, whose tail is in the cycle found, as far from the end as it is long |
| AdminInBytes.BadGroupStops | src/admin.rs:89-110 | a group with a bad magic or checksum ends the set as corrupt with exactly the groups before it rewritten |
| AdminInBytes.FailureStops | src/admin.rs:89-110 | a device that fails after so many groups ends it as an I/O error with exactly those rewritten |
| Admin.WholeBlocksAreEnough | src/admin.rs:265-305 | a device that takes whole blocks is enough for every read and write of the log, which over 512 bytes a block can always be cleared |
| Geometry.Positions | src/geometry.rs:610-678 | headers, then the two free space roots, the inode roots, the reverse map and the reference counts, one block each as the features say |
| Geometry.FourSectors | src/geometry.rs:610-612 | the headers are the blocks that four sectors need, and no more |
| AgGeometry.Log2Roundup | src/geometry.rs:259-265 | the smallest shift whose power of two is at least the argument |
| AgGeometry.DefaultAgGeometry | src/geometry.rs:284-322 | for both disk settings and every size, groups within the largest that cover tightly |
| AgGeometry.DefaultSize | src/geometry.rs:287-320 | the shift and rounding come to the share of a power of two, or the largest group |
| Acceptance.MultidiskIs | src/geometry.rs:284-322 | the group size for a disk array: up to 32 groups, by size |
| AgGeometry.ChooseAgs | src/geometry.rs:430-448 | the groups asked for or defaulted, and the count tight except where it was given |
| AgGeometry.TrimAgs | src/geometry.rs:452-484 | a last group too small is dropped, with every check on what is left |
| AgGeometry.TrimmedCovers | src/geometry.rs:452-462 | dropping the last group leaves groups that still cover tightly, none too small |
| AgGeometry.CountTiles | src/geometry.rs:441-445 | a given count tiles exactly when the blocks it is short of are fewer than a group |
| Compute.SizesAreAccepted | src/geometry.rs:333-404 | the checks leave a block size from 1 to 16 KiB, a sector no larger, and an inode of at most half a block |
| Compute.CalculateLogSize | src/geometry.rs:552-593 | narrowing limit by limit gives the specified log, and its later refusals |
| Compute.LogHasPlace | src/geometry.rs:577-589 | the log always leaves five blocks of a full group, so the refusal after sizing it is never taken |
| Compute.Compute | src/geometry.rs:327-549 | every check and default in the source's order gives the specified geometry or error, and the size asked for is kept |
| Acceptance.ComputedIff | src/geometry.rs:327-593 | by the numbers alone, exactly which parameters are accepted, and which error the others get |
| Acceptance.ComputedIs | src/geometry.rs:327-593 | and for which geometry: every size, count and place of it |
| Acceptance.SizeIsKept | src/geometry.rs:406-432 | the data blocks are the size asked for, or the device's, but for a last group under 16 MiB; a size over the device is an invalid parameter |
| Compute.ComputedShapes | src/geometry.rs:327-549 | every geometry computed is within its limits and the device, with the groups as asked for |
| Compute.ComputedTiles | src/geometry.rs:430-484 | default groups and groups of a given size always tile, a given count exactly when it is short by less than a group, and then no group is too small or too large |
| Compute.FewGroupsTile | src/geometry.rs:441-445 | a given count of no more groups than the smallest has blocks always tiles |
| AgPlan.AgPlan.Take | src/format.rs:100-118 | takes the range out of the free extents exactly when all of it is free, and nothing else |
| AgPlan.AgPlan.RmapInsert | src/format.rs:76-97 | the map stays sorted and maximally merged, and only the inserted blocks gain an owner |
| AgPlan.AgPlan.Pick | src/format.rs:168-174 | the smallest extent that is enough, or the largest if none is, the first of equals |
| AgPlan.AgPlan.FillFreelist | src/format.rs:164-181 | fills the list exactly when the group has that many free blocks |
| AgPlan.PlanAg | src/format.rs:123-201 | a group is planned exactly when its list and, in group 0, the root chunk fit, with free space, list, map and chunk consistent |
| AgPlan.Partition | src/format.rs:123-201 | every block of a planned group is exactly one of header or root, log, free, on the list, or in the root chunk |
| AgPlan.OwnedUnlessFree | src/format.rs:133-198 | with the reverse map on, a block has an owner exactly when it is not free, and the right one: the filesystem for headers, the group for its roots and list, the inode btrees, the reference counts, the chunk and the log for theirs |
| AgPlan.InitialTotalsAre | src/geometry.rs:804-806 | the free blocks of the first groups add up to their blocks less what is preallocated and the log |
| AgPlan.PlanAll | src/format.rs:390-392 | conservation: when all plans succeed the reported free blocks are the initial ones less the root chunk |
| AgHead.LongestIs | src/format.rs:69-71 | the longest recorded is the maximum of the free extents, 0 without any |
| AgHead.BySizeIsSorted | src/format.rs:345-346 | the extents of the count btree are the free extents, each as often, by size and then by block |
| AgHead.OneOrder | src/format.rs:345-346 | and there is only one such order |
| AgHead.LongestIsLast | src/format.rs:69-71 | whose last is the longest |
| Planning.PlansFitIff | src/format.rs:123-201 | the groups of a computed geometry can all be planned exactly when the log leaves its own group room |
| Planning.RoomWithoutRmap | src/geometry.rs:577-589 | when the log is not in the last group, only a log cut to its group with the reverse map on leaves too little |
| Planning.DefaultsPlan | src/geometry.rs:284-322 | with default groups every group of every geometry can be planned, and the log is never in the last |
| Planning.RootChunkIsLeast | src/geometry.rs:782-794 | the root chunk goes to the least aligned block past everything before it |
| Planning.ComputedLog | src/geometry.rs:552-593 | every log is at least 64 MiB, within the format's limits, at the start of its group, with five blocks left in a full one |
| Planning.Plan | src/format.rs:381-392 | computing and planning together, with the free block count conserved |
| KnownGeometries.QuarterGroups | src/geometry.rs:284-322 | defaults from 300 MiB to 4 TiB of whole quarters: four groups, a log of a 2048th or 64 MiB, and the inode share |
| KnownGeometries.MaximalGroups | src/geometry.rs:284-322 | defaults from 4 TiB: maximal groups, and a few blocks over dropped |
| KnownGeometries.DefaultTable | src/geometry.rs:822-843 | a corollary: the nine rows of the reference table |
| KnownGeometries.EmptyLastGroup | src/geometry.rs:441-484 | a geometry that is accepted with an empty last group |
| KnownGeometries.LastGroupPastEnd | src/geometry.rs:441-484 | a geometry that is accepted with a last group past the end of the device |
| KnownGeometries.FullLogGroup | src/geometry.rs:564-572 | a geometry that is accepted and tiles, whose log is cut to its group and leaves one block too few for the free list |
| KnownGeometries.ShortLogGroup | src/geometry.rs:583-591 | a geometry of two groups that is accepted and tiles, whose short last group holds the log but not the free list |
| KnownGeometries.DefaultPositions | src/geometry.rs:846-855 | a corollary: the reference positions on 512 MiB, the root inode's number among them |
| FormatProtocol.AnyOrder | src/format.rs:434-449 | writes apart from each other land the same in any order |
| FormatProtocol.AnyInterleaving | src/format.rs:425-453 | every interleaving of the groups' writes, the log record and the root chunk leaves the same image before the first flush |
| FormatProtocol.FormattedMeans | src/format.rs:414-460 | the image a format leaves, unit by unit, by where the unit is |
| FormatProtocol.ComputedPlaced | src/geometry.rs:761-794 | every computed geometry keeps headers, log and root chunk apart and inside their groups |
| FormatProtocol.FinishedMeansFormatted | src/format.rs:414-460 | wherever the format of an unfinished device is cut short, a crash shows a finished first unit only over the whole finished image |
| FormatProtocol.RecognisableIff | src/format.rs:414-460 | what an interrupted format leaves is recognisably unfinished, or untouched, exactly when the device held no finished filesystem before; if it did, that one's primary can be left over the new groups |
| FormatProtocol.CompletedIsDurable | src/format.rs:454-460 | after the last flush a crash leaves exactly that image |
| FormatProtocol.OldFirstUnitMaySurvive | src/format.rs:414-454 | until the first flush the first unit found on the device may survive over everything written |
| FormatProtocol.Target.Format | src/format.rs:414-460 | the steps of a format are those operations in that order, and leave that image |
| Crc.Table | src/crc.rs:7-21 | every entry is eight steps of the shift register |
| Crc.TableStep | src/crc.rs:25-30 | a table step is eight bit steps, for every state |
| Crc.Update | src/crc.rs:25-30 | the table form over any bytes is the shift register |
| Crc.BitsAreInjective | src/crc.rs:12-15 | steps never merge two states |
| Crc.WindowsDiffer | src/crc.rs:25-30 | from one state no two strings of up to four bytes lead to the same one |
| Crc.Cksum | src/crc.rs:39-43 | the checksum in three runs is that of the buffer with its field zeroed |
| Crc.Stamp | src/crc.rs:46-49 | stores the checksum and changes nothing else |
| Crc.StampVerifies | src/crc.rs:46-54 | a stamped buffer verifies |
| Crc.CorruptionIsSeen | src/crc.rs:52-54 | corruption of up to four consecutive bytes, all outside the field or all inside, of a buffer of any length is detected |
| Crc.Verify | src/crc.rs:52-54 | true exactly for buffers long enough whose field holds their checksum |
| Crc.VerifiesInBytes | src/crc.rs:52-54 | the field holds the checksum low byte first |
| Checksum.Seal | src/crc.rs:46-49 | a buffer of bytes verifies once sealed, and only its field changes |
| Checksum.Check | src/crc.rs:52-54 | true exactly for buffers of bytes whose field holds their checksum |
| Checksum.SealIsOne | src/crc.rs:46-54 | two buffers that verify and differ at most in the checksum are the same |
| Checksum.VectorIs | src/crc.rs:39-43 | the bit-vectors summed are the bytes, as numbers |
| Crc.CheckValue | src/crc.rs:61-64 | the published check value of the algorithm |
| SuperblockCodec.FsbDecodes | src/geometry.rs:756-758 | a block number decodes to its group and block |
| SuperblockCodec.InoInjective | src/geometry.rs:771-774 | different inodes have different numbers |
| SuperblockCodec.FeatureBits | src/structs/sb.rs:143-175 | every feature is read back from its own bit of the flag words |
| SuperblockCodec.FieldsLaid | src/structs/sb.rs:179-236 | for every encodable geometry no field is over another and every value fits its field |
| SuperblockCodec.Encode | src/structs/sb.rs:179-236 | the sector holds every field and its checksum, and parses back to the geometry |
| SuperblockInBytes.EncodedInBytes | src/structs/sb.rs:179-236 | every field of an encoded superblock by its offset: sizes, inodes and counts, feature and flag words |
| SuperblockInBytes.ParsedIff | src/inspect.rs:126-168 | the parser accepts exactly version 5 superblocks of sizes that make sense together, and tells the two refusals apart |
| SuperblockCodec.RoundTrip | src/inspect.rs:126-168 | the parser accepts what was encoded and recovers every field it reads |
| SuperblockCodec.ComputedRoundTrips | src/inspect.rs:126-168 | which covers every geometry computed |
| SuperblockCodec.StampKeepsFields | src/structs/sb.rs:235-235 | stamping the checksum changes nothing that is read back |
| SuperblockCodec.LogIsFound | src/admin.rs:252-258 | the admin tool finds the log where the formatter wrote it, of the same length |
| SuperblockCodec.FinishedIsTold | src/format.rs:403-412 | a finished superblock differs from the one first written, from zeroes, and from any of another UUID |
| SuperblockCodec.FinishedIff | src/structs/sb.rs:208-208 | of encoded superblocks exactly the finished ones say so, and zeroes do not |
| SuperblockCodec.LengthsAgree | src/inspect.rs:174-180 | a parsed superblock's groups are as long as the formatter's |
| SuperblockCodec.BytesAgree | src/inspect.rs:170-172 | and its blocks at the same bytes |
| AgflRing.RingReadsBack | src/structs/ag.rs:225-228 | each entry is read back from its slot while the list is no longer than the ring |
| AgflRing.RingRoundTrip | src/format.rs:309-316 | first, last and count name the list, its last entry, and nothing else: the other slots are null |
| AgflRing.FreelistFits | src/geometry.rs:681-691 | what fills a free list fits its ring |
| AgflRing.EncodeAgfl | src/structs/ag.rs:214-231 | every slot holds what the ring says, after the header, and the sector its checksum |
| AgflRing.AgflInBytes | src/structs/ag.rs:214-231 | the sector of a list from slot 1 on by its bytes: magic, group, UUID, a null slot, the list in order, nulls |
| BtreeWalk.WalkLevel | src/inspect.rs:391-435 | one level's leaf records and child pointers, in order, no more of either than fit a block, or the first refusal of the device |
| BtreeWalk.LeafInBytes | src/inspect.rs:413-424 | a leaf's records follow the header one after the other |
| BtreeWalk.NodeInBytes | src/inspect.rs:425-435 | a node's pointers follow room for as many keys as it can hold |
| BtreeWalk.RootInBytes | src/inspect.rs:388-401 | a root outside the group or of another magic has no records, and one the device refuses is its error |
| BtreeWalk.DumpTree | src/inspect.rs:375-443 | the worklist of levels is the specified walk, and ends within seventeen of them |
| BtreeWalk.DumpIsInOrder | src/inspect.rs:375-443 | a tree of uniform depth is dumped left to right up to sixteen levels, and refused beyond |
| BtreeWalk.CorruptIsDeep | src/inspect.rs:375-443 | on any contents the walk is refused exactly when pointers lead on seventeen levels deep, or within them to a block the device refuses |
| BtreeWalk.CycleIsCorrupt | src/inspect.rs:436-440 | a block that points back to itself through any others is found out |
| FormatImage.Format | src/format.rs:414-460 | on any device that takes whole blocks every write succeeds, and every byte of the device is then what was last meant for it: finished headers, every group's superblock and the rest of its headers and roots, the root chunk, the log, zeroes at both ends, and otherwise what was there |
| Lifecycle.ComputedIsSpaced | src/geometry.rs:552-593 | every computed geometry that tiles and leaves its log room keeps headers and log apart and on the device, with a log the admin tool can search and rewrite |
| Lifecycle.EncodedTells | src/structs/sb.rs:208-208 | encoded superblocks meet what the crash theorems ask of a format's first units |
| Lifecycle.FormattedStands | src/admin.rs:181-203 | what a format leaves opens to the geometry formatted, with every superblock good and the log clean at cycle 1 |
| Lifecycle.FreshInBytes | src/format.rs:420-427 | the log a format leaves by its bytes: one record of cycle 1, of a block or of two sectors, and zeroes |
| Lifecycle.FormattedCarries | src/admin.rs:74-121 | so every run of calls on a formatted filesystem keeps what is proved of every run |
| Lifecycle.FormatThenSet | src/admin.rs:74-110 | from a computed geometry, formatting and then any number of UUID changes all succeed; every group ends with the last UUID, the first as its metadata's, the flag right, and the log one cycle on for each |
| Refusals.FormatThenDirty | src/admin.rs:643-658 | a formatted log whose unmount is made an ordinary operation is refused, and nothing is written |
| Refusals.FormatThenMark | src/admin.rs:674-684 | so is a formatted filesystem marked for repair, its checksum right |

## Left out

- `FileDevice`, ioctls, hole punching, async plumbing and the forwarding impls: I/O. A device is `MemDevice`, which refuses what its bounds and alignment say and otherwise does not fail; `set_uuid` takes the number of superblocks after which the device is gone. Flushes matter only in `FormatProtocol`.
- The command line, report text and option parsing; the textual dump, comparison and hex output of `inspect`.
- Inode core encoding, the root directory stub, the generation number generator, timestamps, AGF and AGI encoding: field by field stores, of which the values an AGF is given are modelled.
- `set_label`: a change of one field in every superblock, by the same reads and writes as `set_uuid`.
- Random UUIDs and the clock: parameters. The default `imaxpct` and the label's bytes: values passed through; their checks are modelled.
- Crash consistency of a half-written log clear: the code claims nothing about it.
- The bytes of groups' headers and roots in `FormatProtocol` and, but for the superblocks, in `FormatImage`: any of the right size. A `write_zeroes` is one write: a crash may leave any of its units either way all the same.
- Admin.SetUuid: takes a device of at least 264 bytes, without which the source panics, a log of fewer than 2^32 basic blocks with a stripe unit of at most 256 KiB, and the next cycle to be below 2^32. The text that goes with errors is left out.
- Admin.OutcomeIsStep: takes superblocks clear of the log, as `Lifecycle.FormattedStands` shows of a formatted filesystem; `Admin.SetUuid` itself does not.
- Admin.SetUuids: takes cycles below the header magic, since a block stamped with the magic itself reads as a header.
- LogTheorems.TornHead: takes a bisection that is not misled, which `LogTheorems.TornCycleHead` shows to be exact for the search over cycles.
- LogClear.ClearLog: takes a stripe unit of at most 256 KiB and a log of at least 4096 blocks, which the callers have checked, and fewer than 2^32.
- LogRecord.Record: the record's checksum and format fields the search does not read are as written, not interpreted.
- AgPlan.PlanAll: takes groups that tile, as the source does; `Compute.ComputedTiles` says when they do.
- Planning.Plan: takes a given count of groups to tile the device, as the source does.
- SuperblockCodec.Encode: the source's stores are a table of fields here. Bytes are numbers in the device and field models and bit-vectors in `Crc`; `Checksum` goes between.
- SuperblockCodec.FsbDecodes: a bitwise or of parts that share no bits is written as their sum.
- Crc.Table: the compile-time table is built by the same loops at run time.
- BtreeWalk.DumpTree: a group is its blocks as the device reads them; the report lines are left out.
