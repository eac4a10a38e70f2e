# Qunix kernel: a verified model

This project models the parts of the Qunix kernel whose correctness depends on
state kept over many calls, and proves what they promise. It is written in Dafny 4.11 and is checked with
`dafny verify dfyconfig.toml`.

| files | what they model |
|---|---|
| `Lz4Format.dfy`, `Lz4Codec.dfy` | the block format of the memory compressor as a function from bytes to bytes; the compressor and decompressor as loops over buffers |
| `Zswap.dfy`, `Zram.dfy`, `Totals.dfy` | the compressed page pool and the compressed block device, with whole runs of calls |
| `BuddyBlocks.dfy`, `BuddyAllocator.dfy`, `Words.dfy` | sets of free power-of-two blocks, and the bitmaps that hold them |
| `FrameAllocator.dfy`, `FrameRuns.dfy` | per-CPU magazines in front of the buddy allocator, and whole runs on any CPUs |
| `VmRegions.dfy` | lists of mapped regions, cutting ranges out of them, choosing addresses |
| `CowState.dfy`, `CowMachine.dfy` | page tables with copy-on-write sharing, and the calls that change them |
| `DeepCopy.dfy`, `CowFrames.dfy` | a machine that copies all private memory at fork, the relation between the two, and the frames each needs |
| `CowRuns.dfy`, `CowIsolation.dfy`, `MemoryHistory.dfy`, `CowExamples.dfy` | whole runs from boot on, what they guarantee, what each load must answer by the history of the calls, and two runs that go wrong |
| `Pipes.dfy`, `PipeRuns.dfy`, `Descriptors.dfy`, `DescriptorRuns.dfy` | the pipe ring and its runs, descriptor tables that share pipe ends, and runs of all processes |
| `RunQueues.dfy`, `Placement.dfy`, `Scheduler.dfy`, `TurnOrder.dfy`, `StealSections.dfy`, `SchedulerRuns.dfy`, `SchedulerExamples.dfy` | one CPU's queues and bitmap, where tasks are over all CPUs, the scheduler's calls, whose turn it is, the lock sections of a steal, whole runs, and runs that go wrong |
| `Seccomp.dfy`, `FilterLaws.dfy` | the filter validator and interpreter, and what the instructions mean |
| `Dirents.dfy` | directory records as the kernel writes them and `cp` reads them |

Each object of the kernel is a class with the kernel's fields; a ghost field holds what the object stands for
(`plain` for address spaces, `tasks` for the scheduler, `queue`, `written` and `taken` for a pipe), and `Valid()` ties
the two together. One call is one step, except where a call takes a lock more than once and it matters: loading a page from
the pool and stealing a task are also modelled section by section.

The main results:

- **Compression.** For every hash function, a block of at least four bytes comes back byte for byte, and takes at most
  `n + n/255 + 2` bytes. Blocks of fewer than four bytes are copied raw and are exactly the ones that do not decode.
- **Compressed pool and device.** Every run of the pool is a run of a plain map from handles to pages; every run of the
  device answers as a sparse array of sectors would. The device's branch for incompressible pages is dead code.
- **Frames.** The bitmaps are a canonical form: they depend on the set of free frames only. Allocation fails exactly when no
  aligned run is free, freeing undoes allocation bit for bit, and boot frames are partitioned among buddy, magazines and callers.
  Over any run on any CPUs, blocks held at the same time never overlap.
- **Copy-on-write.** From boot on and over any run, every process sees what a machine that copies memory at fork shows. A
  call fails for want of a frame only when that machine's pages, together with the frames the kernel holds for itself (page
  tables, magazines of other CPUs), would not fit the memory. A run is followed up to a mapping that collides, a fork with 65535
  processes, or a store for whose copy the memory does not suffice (`CowRuns.Stops`). What a load answers is told by the calls
  and answers before it alone: the last byte stored there since the page was mapped, or what the mapping put there.
- **Pipes.** The ring answers as a plain queue over any run; the counts of the ends are the numbers of descriptor slots that
  hold them; end of file and broken pipe come exactly when no slot holds the other end. Over any run of descriptor calls by all
  processes, bytes leave a pipe once and in order, and an end that nobody holds stays closed.
- **Scheduling.** The bitmap finds what a scan of 140 queues finds. Over any run on any set of CPUs each task has one entity, each
  waiting task is queued once, a start goes to a CPU with the fewest waiting tasks, and a CPU runs, or loses to another, the task
  that has waited longest among its most urgent. With a run queue on CPU 0, tasks are conserved exactly when no CPU without a
  run queue steals from one that has two.
- **Filters.** On accepted programs the interpreter is plain structural evaluation; its range check and budget are never used.
  Each jump goes by its comparison and each operation leaves its result, for all operands, said of verdicts.
- **Directory listing.** The listing is complete, in order and without repetition exactly when every record fits the buffer.

Some properties one would expect are false of the code; each has its exact condition, and an input or a run that shows it:

- a block of fewer than four bytes does not survive compression (`Lz4Format.ShortBlocksNeverDecode`, `Lz4Codec.RoundTrip`);
- `alloc_frames` and `free_frames_n` round a count differently unless it is a power of two or at least the largest
  block (`FrameAllocator.AllocThenFree`); three frames leave two behind (`FrameAllocator.ThreeFrames`);
- a write fault that finds no free frame has already lowered the share count, so the books survive the call exactly when a
  frame was there (`CowMachine.Machine.HandleCowFault`), and unmapping the page then frees a frame in use exactly when there
  were two sharers (`CowState.FailedCopyFreesLiveFrame`); both happen in `CowExamples.FaultWithoutFrame`;
- a mapping without MAP_FIXED can be placed on top of another one (`VmRegions.PickAddrFree`, `CowExamples.BumpCollides`);
- the search for a free descriptor need not end (`Descriptors.SearchEndsIff`, `Descriptors.SpinningTable`), and need not stay
  below the table size (`Descriptors.WithinTableIff`, `Descriptors.BeyondTable`);
- a task is lost when it is stolen by a CPU without a run queue (`SchedulerRuns.ConservesIff`, `SchedulerExamples.BootSteal`);
  only CPU 0 is given one at boot. A start is dropped only if CPU 0 has none (`SchedulerRuns.StartLostIff`), so after boot
  none is (`SchedulerRuns.StartsLand`);
- starting a task that has an entity on another CPU, or waits at another level, places it twice (`Scheduler.Scheduler.AddTask`,
  `SchedulerExamples.DoubledTask`). SIGSTOP leaves a task in the scheduler and SIGCONT starts it again;
- a steal places a task twice exactly when the task is woken or re-prioritised, and not stopped, between the pick and the
  removal of its entity (`StealSections.StealIff`, `SchedulerExamples.RacingSteal`), and misses a stop exactly when that comes
  later (`StealSections.StopObeyedIff`, `SchedulerExamples.MissedStop`);
- a page of the pool is delivered twice exactly when a load comes between the two sections of another one and nothing has
  taken the page (`Zswap.DeliveredTwiceIff`, `Zswap.TwoReaders`);
- a filter's load of the low half of the instruction pointer gives its lowest byte, so the whole of it exactly when that is
  below 256 (`FilterLaws.PointerLow`, `FilterLaws.PointerMissed`);
- the return-accumulator form of the filter's return instruction answers with the constant, because the source mask is 0x08
  and the accumulator's code is 0x10 (`Seccomp.VerdictIsConstant`, `Seccomp.AccumulatorNotReturned`). The code is followed.

## Model

| member | source | states |
|---|---|---|
| `Lz4Format.VarintRoundTrip` | kernel/src/memory/zswap.rs:235-238 | Reading a length extension written as runs of 255 gives back the number and leaves the rest of the input. |
| `Lz4Format.LengthRoundTrip` | kernel/src/memory/zswap.rs:329-332 | Nibble plus extension read back as the length, for every length. |
| `Lz4Format.CopyReproduces` | kernel/src/memory/zswap.rs:354-360 | Copying a match byte by byte behind its own output reproduces the stretch of input it stands for, overlapping or not. |
| `Lz4Format.ParseEncoded` | kernel/src/memory/zswap.rs:279-293 | Parsing an encoded sequence gives back its literals, offset and match length and leaves what follows. |
| `Lz4Format.DecodeLast` | kernel/src/memory/zswap.rs:306-311 | The closing literal run ends the block and yields exactly the remaining bytes. |
| `Lz4Format.WireSequence` | kernel/src/memory/zswap.rs:279-293 | On the wire: literal count in the high nibble, match length less four in the low one, and the offset's low byte first. |
| `Lz4Format.WireLength` | kernel/src/memory/zswap.rs:329-332 | A full nibble is followed by bytes of 255 and a last smaller one, all added up. |
| `Lz4Format.CopyMatchBytes` | kernel/src/memory/zswap.rs:354-360 | Each byte a match produces is the one `offset` before it. |
| `Lz4Format.ProducesSequence` | kernel/src/memory/zswap.rs:271-298 | Appending one sequence to an encoding of a prefix of the input encodes the longer prefix. |
| `Lz4Format.DecodeSequence` | kernel/src/memory/zswap.rs:319-362 | Decoding a sequence behind the bytes before it carries on after the stretch it stands for. |
| `Lz4Format.ShortBlocksNeverDecode` | kernel/src/memory/zswap.rs:242-245 | No raw block of fewer than four bytes decodes to as many bytes as it has. |
| `Lz4Codec.Read4Injective` | kernel/src/memory/zswap.rs:252-263 | Equal 32-bit reads mean equal four bytes, so a hash hit that compares equal is a real match. |
| `Lz4Codec.SequenceCost` | kernel/src/memory/zswap.rs:279-298 | A sequence costs at most 256/255 of the input it stands for. |
| `Lz4Codec.WriteVarint` | kernel/src/memory/zswap.rs:235-238 | The loop appends the extension of its argument. |
| `Lz4Codec.MatchLength` | kernel/src/memory/zswap.rs:271-278 | The match is real, at least four bytes, inside the input, never runs into itself beyond four, and cannot be extended. |
| `Lz4Codec.EmitSequence` | kernel/src/memory/zswap.rs:279-298 | The output encodes the input up to the end of the match, within 256/255 of its length. |
| `Lz4Codec.BuildBlock` | kernel/src/memory/zswap.rs:241-312 | For any hash function, what the search loop builds decodes to the input and meets the length bound. |
| `Lz4Codec.CompressWith` | kernel/src/memory/zswap.rs:241-316 | A result in a buffer decodes to the input; the call gives up only when the buffer is within the bound, and then writes nothing. |
| `Lz4Codec.Compress` | kernel/src/memory/zswap.rs:229-316 | The same for the kernel's multiplicative hash. |
| `Lz4Codec.ReadLengthAt` | kernel/src/memory/zswap.rs:329-332 | The reading loop agrees with the format, including running off the end. |
| `Lz4Codec.CopyMatchInPlace` | kernel/src/memory/zswap.rs:354-360 | The in-place copy is the format's match copy. |
| `Lz4Codec.Decompress` | kernel/src/memory/zswap.rs:319-362 | True exactly when the input decodes to as many bytes as the buffer has, and the buffer then holds them. |
| `Lz4Codec.RoundTrip` | kernel/src/memory/zswap.rs:241-362 | Compress then decompress gives the input back exactly when it has at least four bytes; room beyond the bound always suffices. |
| `Zswap.Crc32` | kernel/src/memory/zswap.rs:366-375 | The bitwise loop computes the checksum defined byte by byte. |
| `Zswap.ChecksumOfDigits` | kernel/src/memory/zswap.rs:366-375 | The checksum of the ASCII digits 1 to 9 is CRC-32's catalogued check value. |
| `Zswap.MakeEntry` | kernel/src/memory/zswap.rs:99-104 | Every page compresses into the over-allocated buffer, and its entry decompresses to the page with a matching checksum. |
| `Zswap.CompressedPool.constructor` | kernel/src/memory/zswap.rs:87-95 | A new pool holds no page and starts at handle 1. |
| `Zswap.CompressedPool.Store` | kernel/src/memory/zswap.rs:99-112 | Refused exactly when full; otherwise the next handle, unused before, maps to the page, and totals stay exact. |
| `Zswap.CompressedPool.Load` | kernel/src/memory/zswap.rs:114-121 | A live handle loads its page; a dead one leaves the buffer alone. |
| `Zswap.CompressedPool.Remove` | kernel/src/memory/zswap.rs:123-129 | Forgets the handle, without underflow of either total. |
| `Zswap.CompressedPool.LoadPage` | kernel/src/memory/zswap.rs:171-179 | Delivers the page of a live handle and makes the handle dead. |
| `Zswap.CompressedPool.EvictOldest` | kernel/src/memory/zswap.rs:131-135 | Removes the least, that is the oldest, live handle; nothing only when the pool is empty. |
| `Zswap.Serve` | kernel/src/memory/zswap.rs:162-186 | Each call, and each section of a load, is a step of the plain pool. |
| `Zswap.Replay` | kernel/src/memory/zswap.rs:162-186 | Any run of store, load and evict, with the two sections of loads interleaved at will, is a run of the plain pool. |
| `Zswap.RunKeeps` | kernel/src/memory/zswap.rs:97-112 | In every state of a run the pool is within its limit and live handles are below the next one. |
| `Zswap.HandlesIncrease` | kernel/src/memory/zswap.rs:106-111 | Handles handed out strictly increase along a run. |
| `Zswap.StaysUntilTaken` | kernel/src/memory/zswap.rs:97-135 | A stored page stays, unchanged, until it is loaded, removed or evicted, and the load returns it. |
| `Zswap.DeadOnceTaken` | kernel/src/memory/zswap.rs:171-186 | After a load, a removal or an eviction every later load of the handle is refused. |
| `Zswap.DeliveredTwiceIff` | kernel/src/memory/zswap.rs:171-179 | A page delivered by the first section of a load is delivered again exactly when the next load comes before any second section, load or eviction takes it. |
| `Zswap.TwoReaders` | kernel/src/memory/zswap.rs:171-179 | Two loads of one handle whose first sections come first both get the page. |
| `Zram.ZramDevice.constructor` | kernel/src/memory/zswap.rs:392-399 | A new device reads as zeros and has the sectors its size calls for. |
| `Zram.ZramDevice.LoadBlock` | kernel/src/memory/zswap.rs:409-416 | The page buffer is the stored page, or zeros. |
| `Zram.ZramDevice.ReadSectors` | kernel/src/memory/zswap.rs:401-419 | Each whole sector of the buffer is the device's sector, at any alignment, and the call returns true. |
| `Zram.ZramDevice.StoreBlock` | kernel/src/memory/zswap.rs:445-462 | The block decompresses to the page, other blocks stay, byte totals stay exact; the raw branch is unreachable. |
| `Zram.ZramDevice.WriteSectors` | kernel/src/memory/zswap.rs:421-467 | Exactly the written sectors change, and the call returns true. |
| `Zram.Replay` | kernel/src/memory/zswap.rs:401-467 | Any run of reads and writes on a new device: no call fails, and every byte read is the one written last to that place, or zero. |
| `BuddyBlocks.FreeRunInOneBlock` | kernel/src/memory/phys.rs:73-125 | In a coalesced set, an aligned run that is entirely free lies inside one free block. |
| `BuddyBlocks.CanonicalUnique` | kernel/src/memory/phys.rs:60-125 | Two canonical sets covering the same frames are equal: the bitmaps are determined by the free frames. |
| `BuddyBlocks.ReleaseKeeps` | kernel/src/memory/phys.rs:107-125 | Merging keeps blocks disjoint and coalesced and adds exactly the frames given back. |
| `BuddyBlocks.ReleaseCounts` | kernel/src/memory/phys.rs:107-125 | Giving back a block adds its 2^order frames to the free ones. |
| `BuddyBlocks.CarveKeeps` | kernel/src/memory/phys.rs:85-104 | Splitting keeps the set canonical; what is cut out and what stays free make up the block. |
| `BuddyBlocks.CarveThenRelease` | kernel/src/memory/phys.rs:85-125 | Freeing a block just allocated restores every order's set exactly. |
| `BuddyBlocks.TakeKeeps` | kernel/src/memory/phys.rs:85-104 | Allocation takes 2^order frames that were all free and leaves the rest canonical. |
| `BuddyBlocks.RunFreeIffBlock` | kernel/src/memory/phys.rs:85-104 | Some aligned run of 2^order frames is free exactly when some free block has at least that order. |
| `BuddyBlocks.BlockSize` | kernel/src/memory/phys.rs:107-125 | A block in memory holds 2^order frames, all in memory. |
| `BuddyAllocator.AddressRoundTrip` | kernel/src/memory/phys.rs:99-110 | A block's address determines the block at its order. |
| `BuddyAllocator.BuddyAlloc.constructor` | kernel/src/memory/phys.rs:52-58 | An empty allocator has no free block. |
| `BuddyAllocator.BuddyAlloc.SetFree` | kernel/src/memory/phys.rs:60-62 | Setting a bit adds exactly that block. |
| `BuddyAllocator.BuddyAlloc.ClrFree` | kernel/src/memory/phys.rs:64-66 | Clearing a bit removes exactly that block. |
| `BuddyAllocator.BuddyAlloc.FindFree` | kernel/src/memory/phys.rs:73-82 | Word scan and lowest bit give the lowest free block of the order, or none exists. |
| `BuddyAllocator.BuddyAlloc.SplitDown` | kernel/src/memory/phys.rs:90-97 | The splitting loop frees right halves as `Carve` does. |
| `BuddyAllocator.BuddyAlloc.Alloc` | kernel/src/memory/phys.rs:85-104 | None exactly when no aligned run is free; otherwise a best fit is cut, counts stay exact, the state stays canonical. |
| `BuddyAllocator.BuddyAlloc.Free` | kernel/src/memory/phys.rs:107-125 | The merging loop is `Release`: the block's frames become free and nothing else changes. |
| `BuddyAllocator.BuddyAlloc.AddRange` | kernel/src/memory/phys.rs:137-143 | Exactly the frames of the range become free. |
| `FrameAllocator.Magazines.Pop` | kernel/src/memory/phys.rs:168-178 | Takes the newest address, or 0 from an empty stack. |
| `FrameAllocator.Magazines.Push` | kernel/src/memory/phys.rs:182-191 | Succeeds exactly when the stack has room. |
| `FrameAllocator.FrameAllocator.constructor` | kernel/src/memory/phys.rs:208-263 | After boot all usable frames are free in the buddy and counted. |
| `FrameAllocator.FrameAllocator.Refill` | kernel/src/memory/phys.rs:283-293 | Fills an empty magazine until it is full or the buddy is empty; frames move, none is lost. |
| `FrameAllocator.FrameAllocator.AllocFrame` | kernel/src/memory/phys.rs:272-308 | Fails exactly when the CPU's magazine and the buddy are both empty, and then at most 63 * 64 frames are free at all; otherwise a managed frame nobody holds is handed out. |
| `FrameAllocator.FrameAllocator.FreeFrame` | kernel/src/memory/phys.rs:315-338 | Takes the frame back; the push after draining half the magazine cannot fail. |
| `FrameAllocator.FrameAllocator.AllocFrames` | kernel/src/memory/phys.rs:343-354 | Fails exactly when no aligned run of the rounded size is free, for one frame as `AllocFrame` does; otherwise those frames are handed out and counted off: at least as many as asked for and fewer than twice as many, up to the largest block. |
| `FrameAllocator.FrameAllocator.FreeFramesN` | kernel/src/memory/phys.rs:357-363 | Exactly the frames of the block of the rounded size come back: at most as many as given and more than half of them, up to the largest block. |
| `FrameAllocator.OrdersAgree` | kernel/src/memory/phys.rs:347-361 | The two roundings agree exactly on powers of two and from the largest block up. |
| `FrameAllocator.OrdersFit` | kernel/src/memory/phys.rs:347-361 | The block for a request is the smallest power of two that will do, and what is taken back the largest that fits. |
| `FrameAllocator.AllocThenFree` | kernel/src/memory/phys.rs:343-363 | Asking for n frames and giving n back leaves 2^(order up) - 2^(order down) frames outstanding: none exactly for powers of two and from the largest block up. |
| `FrameAllocator.ThreeFrames` | kernel/src/memory/phys.rs:343-363 | On a machine with four frames, asking for three and giving three back leaves two outstanding. |
| `FrameAllocator.FrameAllocator.AddUp` | kernel/src/memory/phys.rs:203-365 | The count of free frames and the frames handed out add up to the frames of boot. |
| `FrameRuns.Replay` | kernel/src/memory/phys.rs:272-363 | Any run of requests and returns on any CPUs: a block handed out shares no frame with one still held, all are boot frames, and what is out is what was out, what is held and what rounding left over. |
| `FrameRuns.NoLeakIff` | kernel/src/memory/phys.rs:343-363 | When all is given back, nothing is left out exactly when every request served was for a power of two, or for the largest block or more. |
| `VmRegions.CutIsDifference` | kernel/src/memory/vmm.rs:468-494 | Unmapping leaves each page covered with the same attributes exactly when it lies outside the range. |
| `VmRegions.CutKeepsDisjoint` | kernel/src/memory/vmm.rs:468-494 | Unmapping keeps regions disjoint. |
| `VmRegions.CutRegions` | kernel/src/memory/vmm.rs:468-494 | The rebuilding loop computes that difference. |
| `VmRegions.FindCut` | kernel/src/memory/vmm.rs:451-495 | A lookup after unmapping finds the old attributes outside the range and nothing inside. |
| `VmRegions.AppendDisjoint` | kernel/src/memory/vmm.rs:429-448 | A region on unmapped pages can be appended, and lookups differ on its pages only. |
| `VmRegions.PickAddrFree` | kernel/src/memory/vmm.rs:736-748 | The chosen range is free exactly unless the hint is not taken and a region has a page at the bump pointer within the size asked for. |
| `VmRegions.PlaceIs` | kernel/src/memory/vmm.rs:736-748 | A hint off page zero, below the stack and with no region in its way is taken; else the mapping is at the bump pointer, which moves past it and one page more. |
| `CowIsolation.TameNeverCollides` | kernel/src/memory/vmm.rs:736-748 | Over any run in which mappings at chosen addresses end at or below the bump pointer of their process, no mapping without MAP_FIXED collides. |
| `CowExamples.BumpCollides` | kernel/src/memory/vmm.rs:358-448 | At the real bottom of the mapping area, a mapping by hint and one without a hint get the same address and leave overlapping regions. |
| `CowState.DropKeeps` | kernel/src/memory/vmm.rs:457-466 | Unmapping a page keeps counts and permissions right, and frees the frame exactly at its last mapping. |
| `CowState.ShareKeeps` | kernel/src/memory/vmm.rs:213-230 | Sharing a page at fork keeps the invariant: counts equal sharers, writable private pages have one mapping. |
| `CowState.SoleUser` | kernel/src/memory/vmm.rs:279-305 | A count that drops to zero means one mapping; otherwise the count is the number of mappings. |
| `CowState.OwnKeeps` | kernel/src/memory/vmm.rs:279-290 | Making the only mapping writable keeps the invariant. |
| `CowState.CopyKeeps` | kernel/src/memory/vmm.rs:290-305 | Copying into a new frame keeps the invariant. |
| `CowState.FailedCopyBreaksCount` | kernel/src/memory/vmm.rs:279-288 | After a fault that found no frame the count is one short of the mappings. |
| `CowState.FailedCopyFreesLiveFrame` | kernel/src/memory/vmm.rs:279-288 | When the process then unmaps the page, the frame is freed while another process still maps it, exactly when there were two sharers. |
| `CowExamples.FaultWithoutFrame` | kernel/src/memory/vmm.rs:279-288 | On a machine with three frames, a process, a page, a fork and a store by the child reach that state, and unmapping the child's page frees the frame the parent still maps. |
| `CowMachine.Machine.CowShare` | kernel/src/memory/vmm.rs:51-61 | First share counts two, later ones add one, saturating; frames beyond the table are ignored. |
| `CowMachine.Machine.CowDec` | kernel/src/memory/vmm.rs:63-70 | Lowers the count, stopping at zero, and returns it. |
| `CowMachine.Machine.Spawn` | kernel/src/memory/vmm.rs:153-172 | A new address space without regions; fails exactly when there is no frame for its top-level table. |
| `CowMachine.Machine.KernelTakes` | kernel/src/arch/x86_64/paging.rs:179-187 | The kernel takes a free frame, as for a lower page table or the magazine of another CPU; there is none exactly when the kernel would panic. |
| `CowMachine.Machine.Fork` | kernel/src/memory/vmm.rs:191-248 | While no frame gets more than 65535 users: fails, changing nothing, exactly when there is no frame for the child's top-level table; otherwise the copying machine forks: private pages by value, shared ones by reference. |
| `CowMachine.Machine.HandleCowFault` | kernel/src/memory/vmm.rs:257-313 | Handled exactly for pages marked copy-on-write, themselves or by their region, when a frame is there; no process sees a difference; in order afterwards exactly unless a copy was needed and frames ran out, and then the count is one lower. |
| `CowMachine.Machine.UnmapPage` | kernel/src/memory/vmm.rs:725-730 | Whatever the counts are: the entry goes, the count drops, and the frame is freed when it reaches zero. |
| `CowMachine.Machine.Read` | kernel/src/memory/vmm.rs:191-313 | A process reads the byte the copying machine shows it. |
| `CowMachine.Machine.Write` | kernel/src/memory/vmm.rs:257-313 | Succeeds exactly where the copying machine allows it, unless a copy is needed and no frame is free. Afterwards the stored byte is read there, and wherever the same MAP_SHARED page is mapped, and every other byte of every process is as before. |
| `CowMachine.Machine.Munmap` | kernel/src/memory/vmm.rs:451-495 | The copying machine unmaps the page-rounded range; the region list is the interval difference. |
| `CowMachine.Machine.Release` | kernel/src/memory/vmm.rs:717-734 | The process disappears; its frames go back exactly when nobody else maps them, and so does its top-level table; the kernel keeps its other frames, each of them. |
| `CowMachine.Machine.Mmap` | kernel/src/memory/vmm.rs:358-449 | Fixed or not, the copying machine maps the same pages and contents at the same place; failure, for want of frames or at a bad fixed address, undoes the mapping; a mapping that collides leaves overlapping regions. In every case byte `k` of the new memory is the file's, or zero past its end or without a file. |
| `DeepCopy.RefinesLook` | kernel/src/memory/vmm.rs:191-313 | Related machines show every process the same memory. |
| `CowFrames.FreeFrames` | kernel/src/memory/vmm.rs:191-313 | Free frames, the copying machine's pages and the kernel's own frames together are at least all frames. |
| `CowFrames.SharersAreProcesses` | kernel/src/memory/vmm.rs:51-61 | A frame is mapped at one page number only, so it has no more mappings than there are processes. |
| `CowMachine.FewProcesses` | kernel/src/memory/vmm.rs:51-61 | Share counts do not saturate at a fork while there are fewer than 65535 processes. |
| `CowMachine.ForkNeedsRoom` | kernel/src/memory/vmm.rs:51-61 | No 16-bit counts fit what a fork maps unless every frame keeps at most 65535 users. |
| `CowRuns.CopyFindsFrame` | kernel/src/memory/vmm.rs:279-288 | A fault finds a frame whenever the copying machine's pages and the kernel's own frames fit the memory. |
| `CowRuns.Replay` | kernel/src/memory/vmm.rs:153-495 | Any run of spawn, fork, load, store, mmap of every kind, munmap, exit and the kernel's own taking and giving of frames gets the copying machine's answers. A call fails for want of a frame only when pages and kernel frames do not fit, and the run ends early only at a colliding mapping, a fork with 65535 processes or a store in such a shortage. |
| `CowRuns.BootAndReplay` | kernel/src/memory/vmm.rs:153-495 | The same from a machine that has just booted. |
| `MemoryHistory.BootAndRemember` | kernel/src/memory/vmm.rs:153-495 | From boot on, every load answers with the last byte stored there, by any process that maps the same shared page, since the page was mapped or inherited, or with what the mapping put there; every store succeeds exactly where the page was mapped for writing; every mapping not fixed goes where no page is mapped. |
| `MemoryHistory.RunFollows` | kernel/src/memory/vmm.rs:153-495 | After any run the copying machine's pages, protections, sharing and bytes are those the calls and answers tell. |
| `DeepCopy.StoredByte` | kernel/src/memory/vmm.rs:257-313 | A store changes one byte, wherever it is seen, and no other. |
| `CowMachine.MappedByte` | kernel/src/memory/vmm.rs:405-421 | Every byte of a new mapping is the file's, or zero past its end or without a file. |
| `CowIsolation.Snapshot` | kernel/src/memory/vmm.rs:191-313 | On the kernel itself: a byte of private memory read from the parent, a fork, any run of the other processes, and the child still reads that byte. |
| `Pipes.PipeBuf.constructor` | kernel/src/ipc/pipe.rs:116-127 | A new pipe is empty with one reader and one writer. |
| `Pipes.PipeBuf.TryRead` | kernel/src/ipc/pipe.rs:136-147 | Delivers the oldest bytes in order; zero bytes or try-again on an empty pipe, as the write end is closed or not. |
| `Pipes.PipeBuf.TryWrite` | kernel/src/ipc/pipe.rs:153-166 | Appends as many bytes as fit; broken exactly when the read end is closed, try-again exactly when full. |
| `PipeRuns.FifoConserves` | kernel/src/ipc/pipe.rs:136-166 | Of the plain queue: over any run the bytes delivered, followed by those still queued, are the bytes accepted, and the queue never exceeds its capacity. |
| `PipeRuns.Replay` | kernel/src/ipc/pipe.rs:116-180 | Any run of reads, writes and closes on a new pipe gets the replies of a plain queue, and what reads returned plus what is buffered is what writes accepted. |
| `Pipes.PipeBuf.CloseWrite` | kernel/src/ipc/pipe.rs:168-173 | One writer fewer; the end closes with the last. |
| `Pipes.PipeBuf.DupWrite` | kernel/src/ipc/pipe.rs:182-185 | One writer more on an open end. |
| `Descriptors.Kernel.DupInc` | kernel/src/syscall/handlers.rs:490-496 | Counts one more descriptor for the end it stands for, and only for that end. |
| `Descriptors.Kernel.FindFd` | kernel/src/process/mod.rs:240-246 | The search stops at the first free slot in the order it tries them, and the next search starts one further. |
| `Descriptors.SearchEndsIff` | kernel/src/process/mod.rs:241-244 | Some slot the search tries is free exactly when its start is free or a slot it passes in the table is. |
| `Descriptors.FirstFreeIs` | kernel/src/process/mod.rs:241-246 | When the start of the search is taken, it ends at the least free slot after it in the table, or else at the least from slot 3 on. |
| `Descriptors.WithinTableIff` | kernel/src/process/mod.rs:241-246 | The slot found is below 1024 exactly unless the search starts at a free slot beyond. |
| `Descriptors.SpinningTable` | kernel/src/process/mod.rs:241-244 | Opening 1021 files and a dup2 into slot 1024 reaches a table in which no slot ever tried is free. |
| `Descriptors.BeyondTable` | kernel/src/process/mod.rs:241-246 | Opening 1022 files hands out slot 1024. |
| `Descriptors.Kernel.Open` | kernel/src/process/mod.rs:240-246 | A descriptor that is no pipe end takes the first free slot and changes no count. |
| `Descriptors.Kernel.Dup` | kernel/src/syscall/handlers.rs:498-513 | A second slot for the same end; counts keep matching slots. |
| `Descriptors.Kernel.Dup2` | kernel/src/syscall/handlers.rs:515-552 | The target slot stands for the same end, what it held is closed, counts keep matching; same slot changes nothing. |
| `Descriptors.Kernel.Close` | kernel/src/syscall/handlers.rs:247-269 | The slot empties and its end is uncounted; fails exactly for an unused slot. |
| `Descriptors.Kernel.Pipe` | kernel/src/syscall/handlers.rs:566-576 | A fresh pipe whose ends take the first free slot and then the next; both searches must end. |
| `Descriptors.Kernel.Fork` | kernel/src/process/mod.rs:450-462 | The child has the parent's table and every inherited end is counted. |
| `Descriptors.Kernel.Read` | kernel/src/ipc/pipe.rs:136-147 | The oldest bytes of that pipe; end of file exactly when nothing is buffered and no slot of any process holds the write end, and then all written bytes were read; no other pipe changes. |
| `Descriptors.Kernel.Write` | kernel/src/ipc/pipe.rs:153-166 | Broken pipe exactly when no slot of any process holds the read end; try-again exactly when one does and the pipe is full; else what fits is appended, and no other pipe changes. |
| `DescriptorRuns.Replay` | kernel/src/syscall/handlers.rs:247-576 | Any run of open, dup, dup2, close, pipe, fork, read and write by any processes gets the answers of a system without counts and flags, in which an end is open while a slot holds it; it ends early only at a search that does not end. |
| `DescriptorRuns.StaysClosed` | kernel/src/ipc/pipe.rs:168-190 | Once no slot holds an end of a pipe, none ever will. |
| `DescriptorRuns.RunConserves` | kernel/src/ipc/pipe.rs:136-166 | Over any run by whichever processes, what was in a pipe and what is put in is what is taken out, in that order, followed by what is left. |
| `RunQueues.TimesliceFor` | kernel/src/sched/mod.rs:77-91 | Time slices lie between 200 and 4000 microseconds. |
| `RunQueues.Slices` | kernel/src/sched/mod.rs:77-90 | A millisecond for real-time tasks and levels below 100, the least for idle ones, and from level 100 on four milliseconds less a tenth for each level. |
| `RunQueues.BitmapSetBits` | kernel/src/sched/mod.rs:99-102 | Setting a level's bit sets that one and leaves the other 191 alone. |
| `RunQueues.BitmapClrBits` | kernel/src/sched/mod.rs:104-107 | Clearing a level's bit clears that one and leaves the others alone. |
| `RunQueues.FindFirst` | kernel/src/sched/mod.rs:111-119 | The lowest set bit of the three words, or all are clear. |
| `RunQueues.FirstIsScan` | kernel/src/sched/mod.rs:99-176 | While the index agrees with the queues, the first set bit is the level a scan of all queues finds. |
| `RunQueues.RunQueue.constructor` | kernel/src/sched/mod.rs:140-147 | A new run queue has nothing queued and a clear bitmap. |
| `RunQueues.RunQueue.Enqueue` | kernel/src/sched/mod.rs:150-157 | A task that is not at its level is put at its end, one that is stays where it is; the index agrees. |
| `RunQueues.RunQueue.Dequeue` | kernel/src/sched/mod.rs:160-167 | Removes the task from its level; bitmap and count keep agreeing. |
| `RunQueues.RunQueue.PickNext` | kernel/src/sched/mod.rs:170-177 | Takes the oldest task of the first non-empty level a scan finds; nothing only when nothing is queued. |
| `Placement.OneEntity` | kernel/src/sched/mod.rs:236-284 | No task has entities on two CPUs. |
| `Placement.QueuedOnce` | kernel/src/sched/mod.rs:149-183 | No task stands in two places of any queue of any CPU. |
| `Placement.AddKeeps` | kernel/src/sched/mod.rs:236-244 | Adding an entity and queueing it keeps every task placed once and the counts balanced. |
| `Placement.CannotAdd` | kernel/src/sched/mod.rs:236-244 | Adding a task whose entity is on another CPU, or that waits at another level, leaves it with two entities or in two queues, however one keeps the books. |
| `Placement.RemoveKeeps` | kernel/src/sched/mod.rs:246-256 | Removing an entity and its queue entry keeps the rest placed. |
| `Placement.ReprioritiseKeeps` | kernel/src/sched/mod.rs:270-284 | Moving a task between levels keeps it queued once, at the new level. |
| `Placement.HeadIsMostUrgent` | kernel/src/sched/mod.rs:170-177 | The head of the first non-empty level is a ready task of that CPU and none there is more urgent. |
| `Scheduler.Scheduler.constructor` | kernel/src/sched/mod.rs:190-232 | CPUs given a run queue start idle; the others have none. |
| `Scheduler.Scheduler.SelectCpu` | kernel/src/sched/mod.rs:424-433 | The first of the least loaded CPUs; a CPU without run queue counts as full. |
| `Scheduler.Scheduler.AddTask` | kernel/src/sched/mod.rs:236-244 | The task goes to the first least loaded CPU, or is dropped when that has no run queue; everything stays in order exactly when the task had no entity elsewhere and did not wait at another level. |
| `Scheduler.Scheduler.RemoveTask` | kernel/src/sched/mod.rs:246-256 | The task is gone from entities and queues; nothing else moves. |
| `Scheduler.Scheduler.Enqueue` | kernel/src/sched/mod.rs:258-268 | A known task becomes ready at the end of its own level, on its own CPU. |
| `Scheduler.Scheduler.SetPriority` | kernel/src/sched/mod.rs:270-284 | A known task gets the level and time slice and waits at the end of that level, even if it did not wait before. |
| `Scheduler.Scheduler.PickNext` | kernel/src/sched/mod.rs:170-177 | The task that has waited longest among the most urgent of that CPU stops waiting and keeps its entity. |
| `Scheduler.Scheduler.Busiest` | kernel/src/sched/mod.rs:384-397 | The first of the busiest other CPUs; below two exactly when no other CPU has two tasks. |
| `Scheduler.Scheduler.WorkSteal` | kernel/src/sched/mod.rs:384-421 | Moves the busiest CPU's next task; tasks, entities, ready set and total count stay exactly when the stealing CPU has a run queue. |
| `Placement.QueuedIsReadyAt` | kernel/src/sched/mod.rs:149-183 | A CPU has as many tasks queued as wait there. |
| `TurnOrder.TurnAdd` | kernel/src/sched/mod.rs:149-156 | A task that is added begins to wait last; one that waits already keeps its turn. |
| `TurnOrder.TurnSetPriority` | kernel/src/sched/mod.rs:270-284 | A task whose priority is set begins to wait anew, last at its level; the others keep their order. |
| `TurnOrder.TurnRemove` | kernel/src/sched/mod.rs:160-177 | Taking a task out keeps the order of the others. |
| `TurnOrder.HeadIsEldest` | kernel/src/sched/mod.rs:170-177 | The head of a level began to wait there first. |
| `StealSections.SectionsMove` | kernel/src/sched/mod.rs:399-417 | With nothing between them the three lock sections are a move. |
| `StealSections.FinishIff` | kernel/src/sched/mod.rs:406-417 | From any state, removing the entity and adding it elsewhere, with any calls between, leaves every task placed once exactly unless the task waits on the CPU it is taken from. |
| `StealSections.StealIff` | kernel/src/sched/mod.rs:399-417 | With any wakes, priority changes and stops between the sections, every task is placed once afterwards exactly when those after the pick stop the stolen task or leave it alone. |
| `StealSections.StopObeyedIff` | kernel/src/sched/mod.rs:399-417 | The stolen task is gone afterwards exactly when it was stopped before its entity was removed. |
| `Scheduler.Scheduler.RunningIsReady` | kernel/src/sched/mod.rs:149-183 | The CPUs' own counts add up to the number of ready tasks. |
| `SchedulerRuns.LoadsFollow` | kernel/src/sched/mod.rs:384-433 | The CPU a start chooses, and whether and where there is something to steal, follow from the number of tasks that wait on each CPU. |
| `SchedulerRuns.Replay` | kernel/src/sched/mod.rs:236-421 | Any run on any set of CPUs with run queues is a run of a machine that keeps only where each task is, whether it waits and since when: a start goes to the first of the least loaded CPUs, a pick takes among the most urgent the task that began to wait first, and a steal takes that of the busiest other CPU. It ends early only at a start that would place a task twice; the counts add up to the waiting tasks. |
| `SchedulerRuns.StartedAs` | kernel/src/sched/mod.rs:236-244 | A started task waits where the start chose, at the level and with the policy and slice asked for. |
| `SchedulerRuns.MovedTo` | kernel/src/sched/mod.rs:270-284 | A task whose priority is set waits at that level with its policy and the level's slice. |
| `SchedulerRuns.StartLostIff` | kernel/src/sched/mod.rs:236-244 | A start is dropped exactly when CPU 0 has no run queue and the others counted have none or are full. |
| `SchedulerRuns.StartsLand` | kernel/src/sched/mod.rs:222-244 | With a run queue on CPU 0, as from boot on, no start is dropped. |
| `SchedulerRuns.KnownWithinIdeal` | kernel/src/sched/mod.rs:236-421 | Losses only make the tasks fewer than they should be. |
| `SchedulerRuns.ConservesIff` | kernel/src/sched/mod.rs:236-421 | A run that starts no task twice conserves tasks at every point exactly when no call is made in a state where it loses one: a start that no CPU takes, or a steal by a CPU without a run queue while another has two tasks. |
| `SchedulerRuns.ConservesFromBoot` | kernel/src/sched/mod.rs:222-421 | With a run queue on CPU 0 only the steals matter. |
| `SchedulerExamples.BootSteal` | kernel/src/sched/mod.rs:222-232 | With a run queue on CPU 0 only, as at boot, two CPUs counted and two tasks waiting, a steal by CPU 1 loses a task. |
| `SchedulerExamples.FirstServed` | kernel/src/sched/mod.rs:149-177 | Of two tasks started one after the other at one level, the first is picked. |
| `SchedulerExamples.DoubledTask` | kernel/src/sched/mod.rs:236-244 | On two CPUs, starting a task that still waits puts it on both, however one keeps the books. |
| `SchedulerExamples.RacingSteal` | kernel/src/sched/mod.rs:399-417 | From a state with two tasks waiting on CPU 0, a steal by CPU 1 during which the task is woken places it twice. |
| `SchedulerExamples.MissedStop` | kernel/src/sched/mod.rs:399-417 | From the same state, a stop after the entity is removed is missed. |
| `Seccomp.Validate` | kernel/src/security/seccomp.rs:234-293 | Accepts exactly the programs without a fault that end in a return, and otherwise reports the first fault. |
| `Seccomp.AcceptedLoads` | kernel/src/security/seccomp.rs:243-250 | Absolute loads of accepted programs lie in the call's data, or read zero from the last four offsets. |
| `Seccomp.BitAndBits` | kernel/src/security/seccomp.rs:349-350 | The model's and is bitwise. |
| `Seccomp.BitXorBits` | kernel/src/security/seccomp.rs:351 | The model's exclusive or is bitwise. |
| `Seccomp.StepForward` | kernel/src/security/seccomp.rs:317-389 | In an accepted program a step moves forward inside it, or ends at a return or a zero divisor. |
| `Seccomp.ExecuteIsEval` | kernel/src/security/seccomp.rs:301-392 | With the budget at least the instructions left, the loop with range check and budget is structural evaluation. |
| `Seccomp.TraceSafe` | kernel/src/security/seccomp.rs:301-392 | Runs stay inside the program, touch scratch words 0 to 15, strictly increase the program counter, take at most its length in steps, and end at a return or a zero divisor. |
| `Seccomp.Interpret` | kernel/src/security/seccomp.rs:317-389 | One pass of the loop on registers and scratch array is one step of the model. |
| `Seccomp.Run` | kernel/src/security/seccomp.rs:301-392 | The interpreter always ends; on accepted programs it returns what evaluation returns. |
| `FilterLaws.ArithStep` | kernel/src/security/seccomp.rs:339-356 | Every arithmetic instruction leaves the number its law fixes, from a constant or the index register, or ends the run at a zero divisor. |
| `FilterLaws.OneResult` | kernel/src/security/seccomp.rs:339-356 | The laws fix one number: sums and products modulo 2^32, quotient and remainder, bits and shifts, negation. |
| `FilterLaws.JumpStep` | kernel/src/security/seccomp.rs:358-374 | Every jump goes by its comparison: equal, greater, at least, or a common bit. |
| `FilterLaws.MoveSteps` | kernel/src/security/seccomp.rs:313-337 | Constants, scratch words and register moves. |
| `FilterLaws.JumpVerdict` | kernel/src/security/seccomp.rs:358-374 | A filter that jumps on the call number returns by the comparison, for every constant and every call. |
| `FilterLaws.ArithVerdict` | kernel/src/security/seccomp.rs:339-356 | A filter that computes on two constants finds exactly the result, for every operation and all operands. |
| `FilterLaws.LoadSteps` | kernel/src/security/seccomp.rs:314-323 | A load takes the word at its offset, or at its offset from the index register modulo 2^32, and zero where there is none. |
| `FilterLaws.FirstWords` | kernel/src/security/seccomp.rs:196-197 | The call number is at offset 0 and the architecture at 4. |
| `FilterLaws.NoWord` | kernel/src/security/seccomp.rs:194-218 | There is no word exactly at offsets 1 to 3, 5 to 7, 13 to 15 and from 64 on. |
| `FilterLaws.ArgumentBits` | kernel/src/security/seccomp.rs:208-215 | A load at 16 + 8 i + j gives the bits of argument i from byte j on. |
| `FilterLaws.PointerHigh` | kernel/src/security/seccomp.rs:202-207 | A load at 12 gives the high half of the instruction pointer. |
| `FilterLaws.PointerLow` | kernel/src/security/seccomp.rs:198-201 | A load at 8 gives the low half of the instruction pointer exactly when that is below 256. |
| `FilterLaws.PointerMissed` | kernel/src/security/seccomp.rs:198-201 | For a call from address 0x1000 it gives zero. |
| `FilterLaws.ScratchVerdict` | kernel/src/security/seccomp.rs:336-337 | A scratch word holds what the accumulator put there. |
| `FilterLaws.IndexVerdict` | kernel/src/security/seccomp.rs:326-337 | So it does for the index register, there and back. |
| `FilterLaws.AcceptedExactly` | kernel/src/security/seccomp.rs:240-280 | Jumps are let through exactly when they stay inside, loads when they lie in the data or their end wraps, scratch words below 16 and divisors other than zero. |
| `Seccomp.VerdictIsConstant` | kernel/src/security/seccomp.rs:376-378 | The verdict is to kill, or the constant of a return instruction of the program. |
| `Seccomp.AccumulatorNotReturned` | kernel/src/security/seccomp.rs:376-378 | A two-instruction program that loads 7 and returns the accumulator is accepted, holds 7 when it returns, and has verdict 0. |
| `Dirents.Reclen` | kernel/src/vfs/mod.rs:573-576 | Record lengths are multiples of eight, at least 24, and hold header, name and NUL with less than eight bytes to spare. |
| `Dirents.SizeAligned` | kernel/src/vfs/mod.rs:573-592 | Every record starts at a multiple of eight. |
| `Dirents.PutRecord` | kernel/src/vfs/mod.rs:578-591 | The record's bytes are written at its place and no others. |
| `Dirents.FillRecords` | kernel/src/vfs/mod.rs:559-596 | As many entries as fit, in order, each record inside the buffer with its successor's position. |
| `Dirents.Getdents64` | kernel/src/syscall/handlers.rs:360-376 | The cursor moves past the entries delivered; a missing descriptor and a non-directory are errors that change nothing. |
| `Dirents.NameLength` | userland/cp/src/main.rs:101 | The search finds the end of the name, and gives 0 without a NUL. |
| `Dirents.RecordFields` | userland/cp/src/main.rs:100-102 | Length and name read from a record are the ones written, the name up to its first NUL. |
| `Dirents.RecordHeader` | kernel/src/vfs/mod.rs:578-591 | Inode number, next position and type read back from bytes 0 to 7, 8 to 15 and 18. |
| `Dirents.DecodeNames` | userland/cp/src/main.rs:99-105 | From a buffer of records the loop collects the names in order, without the two dot entries. |
| `Dirents.ListNames` | userland/cp/src/main.rs:96-107 | The listing loop ends, with the names of the entries before the first whose record exceeds the buffer. |
| `Dirents.CompleteIff` | userland/cp/src/main.rs:96-107 | For names without NUL the listing is all names exactly when every record fits the buffer. |

## Left out

Modelling choices:

- Machine words are natural numbers below a power of two with bit operations defined on them (`Words.dfy`), except the 32-bit
  checksum, which is a bit vector. Handle, byte and task counters are unbounded; they count fewer things than their width allows.
- Regions and page tables are in whole pages. A top-level page table takes a frame of its own. Lower page tables, which the kernel
  takes while it maps and never gives back, are among the frames it takes for itself (`CowMachine.Machine.KernelTakes`); the
  kernel panics when there is none for such a table. TLB flushes and the direct map are not modelled.
- Which frames a CPU can reach is not split by CPU in the copy-on-write model: frames in the magazines of other CPUs are among
  those the kernel holds. `FrameAllocator.FrameAllocator.AllocFrame` bounds them.
- Fork marks regions copy-on-write after sharing their pages, and mmap enters its region first and grows it page by page, so that the
  invariant holds between steps; the kernel does both in one go under its lock.
- CowMachine.Machine.Fork: requires that no frame gets more than 65535 users, where the kernel's share counter saturates; `CowMachine.ForkNeedsRoom` says that without it no counts fit.
- CowMachine.Machine.Mmap: of a colliding mapping it states the new bytes and the region list, but not what other processes then see.
- FrameAllocator.FrameAllocator.FreeFramesN: requires the caller to hold the whole block of the rounded size.
- FrameAllocator.FrameAllocator.constructor: takes the usable frames as a list; parsing the firmware's memory map and `reserve_range` are not modelled.
- Descriptors.Kernel.Pipe: requires that the searches for its two slots end, and `Descriptors.Kernel.Dup` that its one does; otherwise the kernel does not return.
- Scheduler.Scheduler.AddTask: requires a priority below 140; the kernel panics on others.
- SchedulerRuns.Replay: says nothing after a start that places a task twice, as SIGCONT makes of a task that SIGSTOP left in the scheduler.
- SchedulerRuns.ConservesIff: is about runs in which a task is started only when it should not exist at the time; SIGSTOP and then SIGCONT start one that still does.
- Scheduler.Scheduler.WorkSteal: is one step; `StealSections.StealIff` has the lock sections, with wakes, priority changes and stops between them but no further picks, starts or steals.
- Zswap.CompressedPool.LoadPage: is one step; the runs of `Zswap.Replay` also have its two lock sections as calls of their own.
- Seccomp.Run: programs and data are values; the instruction's code is a natural number whose bit groups are read off.
- Dirents.Getdents64: the directory does not change during a listing, and `readdir` does not fail.

Not modelled:

- `mprotect`, `brk`, `mremap`, device regions, huge pages and file-backed faults.
- Thread groups, close-on-exec and the closing of descriptors at process exit.
- Blocking, wait queues and wake-up order; timer ticks, context switches and virtual runtime.
- Filter chains, strict mode, action codes and the notification descriptor.
- Pool statistics, compression ratios and the global locks around the pool and the device.
- File systems, ELF loading, signals, terminals and the rest of userland.
