# Verified models of MansOS

MansOS is an operating system for sensor nodes, written in C, with SEAL, a small declarative language whose compiler
is written in Python. This project models its most intricate algorithms in Dafny and proves what they do:

- **The FAT16 driver** (`FatTable`, `FatFiles`, `FatTransfers`, `FatDriver`). The card is a sequence of 512-byte blocks,
  the driver an object with a one-block write-back cache and a pending write of the mirrored table. Card operations may
  fail at any time; a failed write may leave anything in its block, a failed read leaves the buffer alone. The image a
  reader would see (the card overlaid with the cache) is interpreted as cluster chains, directory slots and file
  contents. A write is proved to overwrite or extend exactly its own file, a read to return a slice of the contents, a
  seek to bring the handle in step with its chain.
- **The heap allocator** (`HeapSpec`, `FreeLinks`, `Heap`). Best fit over a circular, address-sorted, doubly linked free
  list in memory, refined to a row of physical blocks, about which conservation, coalescing and full recovery are proved
  for every run.
- **The SEAL compiler** (`SealSpec`, `SealCompiler`, `SealMachine`). The three traversals that flatten nested
  `when` / `elsewhen` / `else` blocks into numbered branches, the C expressions and callbacks generated from them, and
  the theorem that the generated event machine runs a block exactly when the nested program says it is active.
- **The integer square root** (`IntSqrt`), **the alarm list** (`Alarms`), **the packet queue** (`PacketQueue`, with
  `Lists`), **typed SEAL packets** (`SealPackets`), **the Jenkins hash** (`JenkinsHash`), **the MAC header**
  (`MacHeader`) and **the management protocol's codec** (`SmpCodec`).

`Arith`, `Bytes` and `Collections` hold nonlinear facts, byte layouts and shared notions of sequences. `dafny verify dfyconfig.toml` verifies everything.

Code that works in place is modelled by methods on objects and arrays, proved against functions on values; the laws are
lemmas about those functions. Where a proof works with hidden definitions, one-step unfolding lemmas say what it uses.

## Assumptions

- FAT volume (`FatTable.Layout.WellFormed`): one or two FATs large enough for all clusters, boot sector, tables, root
  directory and data in this order, clusters of at most 32 KiB, all data block numbers below 65536. The driver computes
  block numbers in `uint16_t`; `FatFiles.BlockNumberExact` shows that this bound is exactly what makes them right.
- A transfer is at most 512 bytes; the driver handles at most two blocks a call.
- Results about contents hold for calls during which no card operation fails; what holds regardless is stated without
  that condition. A chain reaches beyond the last byte of its file, which `fatFsWrite` establishes and
  keeps but for the write that ends the last cluster of a full volume.
- The heap region lies in a 16-bit address space and is not at address 0; blocks given back were handed out.
- SEAL trees are those the grammar builds; use cases do not re-enter the callbacks. CRC-16, time and callbacks are
  parameters.

## Where the code differs from its documentation or from the obvious law

Each is proved as an exact condition or shown on a concrete case.

- A read leaves the handle one cluster behind when it ends on a cluster boundary (`mos/fatfs/fatfs.c:584-600` moves on
  only for a second piece), and the next read then returns bytes one cluster size too early
  (`FatDriver.Driver.FatFsRead`, `FatDriver.SecondReadRepeatsFirst`).
- `fatFsRead` assigns the flags instead of testing them (`mos/fatfs/fatfs.c:536`): after a read every handle is open for
  reading and writing.
- `fatFsWrite` keeps the distance to the end of the file in 16 bits; the recorded size is right exactly under
  `FatFiles.SizeTracks`, and a write at the start of a 64 KiB file records too much (`FatFiles.GrownSizeWrong`).
- A fault-free write may store nothing, or only a first part, or leave the handle on no cluster. For a file with chain
  `ch`, a write of `n` bytes from position `p` stores nothing exactly if `ch` is empty and the volume full, and only what
  fits if and only if `ch` is not empty, `p + n` exceeds its capacity and the volume is full; then position and size move
  as if everything had been stored (`FatDriver.FullVolumeExample`). A write that stores everything leaves the handle out
  of step exactly if `p + n` is the capacity of `ch` and the volume was full, or, for an empty file, if `n` is a whole
  cluster and exactly one was free (`FatDriver.Driver.FatFsWrite`).
- A write from a handle that a read left behind stores its bytes one cluster size too early, over older data of the same
  file, while position and size move as for the right place; it stays behind (`FatDriver.Driver.FatFsWrite`). Seeking, and
  appending to a file whose end the handle is not at, bring it back in step.
- The comment that FAT16 serves 2 GB cards (`mos/fatfs/fatfs.h:37-40`) does not fit 16-bit block numbers.
- `memoryAlloc(65535)` wraps to a request of 0 bytes and may succeed (`HeapSpec.RoundedServes`), and rounding alone does
  not align: from a region at an even address, all blocks of all runs lie at even addresses if and only if its size is
  even or less than two headers (`HeapSpec.AlwaysEvenIff`).
- `intSqrt` rounds up for ten numbers only, not for every x^2 - 1 (`IntSqrt.ExceptionalValues`).
- `alarmsProcess` fires every due alarm but leaves every second one in the list, so the list is drained exactly when at
  most one was due (`Alarms.DrainedIff`). With 64-bit ticks, `hasAnyReadyAlarms` is true of every non-empty list.
- `encodeInt32` carries exactly the non-negative numbers, and `decodeInt32` spends the buffer it decodes
  (`SmpCodec.IntRoundTrip`, `SmpCodec.DecodesOnlyOnce`).
- Packet fields reach listeners under the right codes exactly when they were added in increasing order of codes
  (`SealPackets.FieldsInPlace`).

## Model

| member | source | states |
|---|---|---|
| FatTable.OverlayUpdate | mos/fatfs/fatfs.c:84-92 | Writing back the cached block, or its mirror, does not change what is seen |
| FatTable.OverlayClean | mos/fatfs/fatfs.c:103-111 | Exchanging a clean cached block for another does not change what is seen |
| FatTable.OverlayPut | mos/fatfs/fatfs.c:454-455 | Changing bytes in the cache changes the same bytes of the overlaid card and nothing else |
| FatTable.FatsAgreeUpdate | mos/fatfs/fatfs.c:84-92 | A block write keeps both FATs equal but for the pending block, if it is outside them, is the pending copy, or has its copy pending |
| FatTable.FatsAgreeDone | mos/fatfs/fatfs.c:88-93 | Once the pending copy is written, both FATs are equal everywhere |
| FatTable.PutFatEntry | mos/fatfs/fatfs.c:446-459 | Setting one table entry sets that entry and no other |
| FatTable.PutFatBytes | mos/fatfs/fatfs.c:446-459 | It sets two bytes of one block, the low one first, and no other byte of the card |
| FatTable.ChainOnCard | mos/fatfs/fatfs.c:714-725 | A chain, byte by byte: two bytes name the next cluster, and FFF8 to FFFF end it |
| FatTable.NoReturn | mos/fatfs/fatfs.c:714-725 | A chain that ends in an end mark never comes back to a cluster |
| FatTable.ChainIsAcyclic | mos/fatfs/fatfs.c:461-499 | All clusters of a chain are different |
| FatFiles.DataBlockInjective | mos/fatfs/structures.h:239-242 | Different cluster blocks are different card blocks |
| FatFiles.SectorInjective | mos/fatfs/fatfs.c:547-550 | Two bytes of a file lie in one card block exactly when they lie in one 512-byte slot |
| FatFiles.SectorDisjoint | mos/fatfs/fatfs.c:547-550 | Files with disjoint chains share no block |
| FatFiles.SectorAt | mos/fatfs/fatfs.c:623-626 | Masking by cluster size and then by block size finds the byte the chain says |
| FatFiles.SectorIs | mos/fatfs/structures.h:239-242 | The block of byte q in closed form: data start, cluster number minus 2 times the cluster's blocks, block in the cluster |
| FatFiles.BlockNumberExact | mos/fatfs/fatfs.c:625-626 | The 16-bit block number is the right one if and only if that number fits 16 bits |
| FatFiles.VolumeFrame | mos/fatfs/fatfs.c:605-712 | Chains depend on the first FAT only |
| FatFiles.PutBytesContent | mos/fatfs/fatfs.c:661 | Bytes stored into one slot of a file change exactly those bytes of the file |
| FatFiles.FreeNotInChain | mos/fatfs/fatfs.c:480 | A free cluster is in no chain |
| FatFiles.LinkedEntries | mos/fatfs/fatfs.c:483-492 | The two table updates of an allocation, entry by entry |
| FatFiles.LinkedBytes | mos/fatfs/fatfs.c:483-492 | ... and byte by byte: FF FF for the new cluster, its number for the old one |
| FatFiles.LinkedChain | mos/fatfs/fatfs.c:483-497 | Linking a free cluster makes the chain old chain ++ [new] |
| FatFiles.LinkedVolume | mos/fatfs/fatfs.c:483-497 | ... and keeps all chains ended, disjoint and otherwise unchanged |
| FatFiles.AllocationVolume | mos/fatfs/fatfs.c:461-499 | Allocation keeps the volume a set of disjoint acyclic chains |
| FatFiles.PutFreeVolume | mos/fatfs/fatfs.c:483-493 | A failure between the two updates breaks no chain |
| FatFiles.ProbeBijective | mos/fatfs/fatfs.c:464-481 | The circular scan looks at every cluster exactly once |
| FatFiles.FirstProbedIsNext | mos/fatfs/fatfs.c:464-481 | The first free cluster it meets is the next one behind the current cluster, around the end of the volume |
| FatFiles.PutDirFrame | mos/fatfs/fatfs.c:511-527 | Updating a directory slot sets its cluster and size and keeps all other slots and the table |
| FatFiles.PutDirBytes | mos/fatfs/fatfs.c:519-520 | It writes the cluster to bytes 26 and 27 of the 32-byte entry and the size to bytes 28 to 31, low bytes first, and no other byte of the card |
| FatFiles.GrownSizeExact | mos/fatfs/fatfs.c:628-632 | The size recorded by a write is right if and only if the 16-bit distance to the end tracks |
| FatFiles.GrownSizeWrong | mos/fatfs/fatfs.c:628-632 | Ten bytes at the start of a 64 KiB file are recorded as growth |
| FatTransfers.StoreWritten | mos/fatfs/fatfs.c:657-661 | A one-block store is a write of those bytes of the file |
| FatTransfers.StoreSlot | mos/fatfs/fatfs.c:657-661 | ... and touches no table, slot or other file |
| FatTransfers.OtherSlot | mos/fatfs/fatfs.c:511-527 | If no byte of the root directory changes but those six of one entry, every other slot keeps its cluster and size |
| FatTransfers.WrittenCompose | mos/fatfs/fatfs.c:657-689 | The two stores of a call make one contiguous write |
| FatTransfers.WrittenIsOverwrite | mos/fatfs/fatfs.c:605-712 | What the blocks hold after a write is Overwrite of the old contents, on a possibly longer chain |
| FatTransfers.ChainBound | mos/fatfs/fatfs.c:714-725 | No chain is longer than the volume, so cluster indices fit 16 bits |
| FatTransfers.GoToBound | mos/fatfs/fatfs.c:714-725 | Every position up to the file size has a cluster in the chain, the one a handle there needs |
| FatTransfers.AdvancedTracks | mos/fatfs/fatfs.c:664-706 | Moving to the next cluster, existing or fresh, brings the handle in step with the next position |
| FatTransfers.StoredIsOverwrite | mos/fatfs/fatfs.c:605-712 | A completed write as contents: this file is overwritten or extended |
| FatTransfers.OthersContent | mos/fatfs/fatfs.c:605-712 | Every other file keeps its chain and its contents |
| FatTransfers.OtherHandleKept | mos/fatfs/fatfs.c:605-712 | Handles of other files stay valid and in step |
| FatTransfers.ReadPlan | mos/fatfs/fatfs.c:547-600 | Where a read finds its one or two pieces and where it leaves the handle |
| FatTransfers.TwoPieces | mos/fatfs/fatfs.c:581-599 | The pieces, joined, are the file's bytes from the position on |
| FatTransfers.HasBytesIsSlice | mos/fatfs/fatfs.c:534-603 | Those bytes are a slice of the contents |
| FatTransfers.BehindIsNotInStep | mos/fatfs/fatfs.c:584-600 | A handle left at the previous cluster is out of step |
| FatTransfers.BehindStandsEarlier | mos/fatfs/fatfs.c:584-600 | Such a handle addresses the byte one cluster size earlier |
| FatTransfers.StoredBehind | mos/fatfs/fatfs.c:623-706 | Bytes written from such a handle end before the position they should start at, and it is still behind afterwards |
| FatTransfers.GrowthLinked | mos/fatfs/fatfs.c:461-499 | Taking a cluster fills the volume if and only if it was the only free one |
| FatTransfers.EndingExact | mos/fatfs/fatfs.c:663-706 | A transfer is cut short if and only if it needs a cluster behind the last one and the volume was full before it; otherwise it ends the chain of a full volume if and only if EndsFull says so of the state before it |
| FatTransfers.FirstEndingExact | mos/fatfs/fatfs.c:617-620 | The first cluster of an empty file always has room for the call, and fills the volume if it was the only free one |
| FatTransfers.WriteEnding | mos/fatfs/fatfs.c:605-712 | Both together: how a write ends is decided by chain, position, length and free clusters at its start |
| FatDriver.Driver.CacheFlush | mos/fatfs/fatfs.c:79-101 | Flushing changes nothing that is seen, keeps the mirror invariant even when it fails half way, and cleans the cache |
| FatDriver.Driver.CacheRawBlock | mos/fatfs/fatfs.c:103-117 | Loading a block changes nothing that is seen and keeps the mirror invariant |
| FatDriver.Driver.FatGet | mos/fatfs/fatfs.c:436-444 | Reads the two bytes of the table entry, fails only for a bad cluster or a bad card |
| FatDriver.Driver.FatPut | mos/fatfs/fatfs.c:446-459 | Sets the two bytes of one entry and no others, and schedules the copy of its block |
| FatDriver.Driver.FindFree | mos/fatfs/fatfs.c:464-481 | Finds the next free cluster behind the current one; without faults it fails only when the volume is full |
| FatDriver.Driver.LinkCluster | mos/fatfs/fatfs.c:483-498 | The two updates and the handle, with the exact state after each failure |
| FatDriver.Driver.AllocateCluster | mos/fatfs/fatfs.c:461-499 | The chosen cluster was the next free one, its entry is FF FF and the old end names it, the chain grows by it, and every chain survives any failure |
| FatDriver.Driver.CacheDirEntry | mos/fatfs/fatfs.c:501-509 | Loads the block of a slot, for writing |
| FatDriver.Driver.FileFlush | mos/fatfs/fatfs.c:511-527 | The entry holds the handle's cluster at bytes 26 and 27 and its size at bytes 28 to 31, no other byte changed, and the card is up to date |
| FatDriver.Driver.WalkChain | mos/fatfs/fatfs.c:716-721 | Follows the chain the given number of steps |
| FatDriver.Driver.GoToPosition | mos/fatfs/fatfs.c:714-725 | Inside the file, the handle ends in step with the new position |
| FatDriver.Driver.HonourAppend | mos/fatfs/fatfs.c:612-615 | With O_APPEND the write starts at the end of the file, in step even if the handle was not |
| FatDriver.Driver.EnsureCluster | mos/fatfs/fatfs.c:617-620 | An empty file gets its first cluster, or the volume is full and nothing changed; a file with clusters is left alone |
| FatDriver.Driver.AdvanceCluster | mos/fatfs/fatfs.c:665-678 | The next cluster of the chain, a fresh one behind its end, or a full volume |
| FatDriver.Driver.NextBlock | mos/fatfs/fatfs.c:664-684 | The block where the second piece goes |
| FatDriver.Driver.StoreRest | mos/fatfs/fatfs.c:663-706 | The second piece is stored, or there was no room and nothing changed |
| FatDriver.Driver.StoreData | mos/fatfs/fatfs.c:623-706 | Up to two pieces are one write of the file, or its first part when the volume is full |
| FatDriver.Driver.AdvancePosition | mos/fatfs/fatfs.c:628-634 | Position and size move before anything is stored |
| FatDriver.Driver.Transfer | mos/fatfs/fatfs.c:623-711 | Bookkeeping, stores and flush together |
| FatDriver.Driver.FatFsWrite | mos/fatfs/fatfs.c:605-712 | A write is Overwrite on this file and nothing on any other, and size and slot follow. With working I/O it stores nothing if and only if the file is empty and the volume full, a first part if and only if it needs a cluster behind the last one of a full volume, and all otherwise; then the handle ends in step if and only if there is a cluster for its position. From a handle left behind, the bytes go one cluster size too early. In the root directory only the entry's six bytes for cluster and size change, to the handle's |
| FatDriver.FullVolumeExample | mos/fatfs/fatfs.c:628-706 | On a full volume, 20 bytes appended to a file of 502 in its only cluster: 10 are stored, size and position become 522, and the handle is on no cluster |
| FatDriver.Driver.FetchRest | mos/fatfs/fatfs.c:584-600 | The second piece of a read |
| FatDriver.Driver.Fetch | mos/fatfs/fatfs.c:547-602 | The bytes at the position the handle's cluster stands for, and where the handle ends |
| FatDriver.Driver.FatFsRead | mos/fatfs/fatfs.c:534-603 | An in-step handle gets content[p .. min(p + n, size)) and stays in step unless that ends a cluster; one that is behind gets bytes one cluster early |
| FatDriver.Driver.Fseek | mos/fatfs/posix-stdio.c:160-189 | Succeeds exactly for positions within the file, counted from the start, the position or the end, and re-synchronises the handle |
| FatDriver.FlagBits | mos/fatfs/posix-file.h:70-78 | A handle is open for writing if one of the two lowest flag bits is set, and appends if bit 10 is |
| FatDriver.Driver.CleanCard | mos/fatfs/fatfs.c:79-101 | With a clean cache the card itself holds the image and both FATs are equal |
| FatDriver.SecondReadRepeatsFirst | mos/fatfs/fatfs.c:534-603 | With one-block clusters, the second of two consecutive reads returns the first block again |
| HeapSpec.TilesSorted | mos/hil/mem.c:164-165 | Blocks lie in address order without overlap |
| HeapSpec.Conservation | mos/hil/mem.c:56-63 | Headers and payloads of all blocks add up to the region |
| HeapSpec.RoundedServes | mos/hil/mem.c:78-81 | Even requests are not changed, odd ones become the next even number, and 65535 wraps to 0 |
| HeapSpec.TakeKeeps | mos/hil/mem.c:104-133 | Allocation keeps the row tiled and coalesced |
| HeapSpec.TakeSize | mos/hil/mem.c:102-133 | The block handed out has the rounded size and at most one header more |
| HeapSpec.TakeInUse | mos/hil/mem.c:104-133 | Allocation adds one block to those in use, a new one |
| HeapSpec.ReleaseKeeps | mos/hil/mem.c:152-214 | Freeing with two-sided joining keeps the row tiled and coalesced |
| HeapSpec.ReleaseInUse | mos/hil/mem.c:152-214 | Freeing removes exactly the block given back |
| HeapSpec.MergeFrees | mos/hil/mem.c:207-214 | Joining two free neighbours drops the second from the list |
| HeapSpec.AllFreeIsInitial | mos/hil/mem.c:56-63 | With nothing in use the heap is the one block memoryInit made |
| HeapSpec.StepKeeps | mos/hil/mem.c:65-199 | Every call keeps the heap well formed |
| HeapSpec.StepKeepsUsed | mos/hil/mem.c:65-199 | A block in use is neither moved nor resized by calls about other blocks |
| HeapSpec.StepKeepsAligned | mos/hil/mem.c:78-81 | A call keeps even headers and payload sizes even |
| HeapSpec.AlwaysEvenIff | mos/hil/mem.c:56-134 | From memoryInit on a region at an even address, every block of every run lies at an even address if and only if the region's size is even or less than two headers |
| HeapSpec.OddRegionMisaligns | mos/hil/mem.c:78-81 | From every region of odd size that can be split at all, a first request for 0 bytes gets an odd address |
| HeapSpec.EveryRunConserves | mos/hil/mem.c:56-199 | From memoryInit on, every run of calls keeps the heap well formed and its total constant, and is back at the start when nothing is in use |
| HeapSpec.FullRecovery | mos/hil/mem.c:152-199 | Freeing all blocks in use, in any order, gives the initial heap |
| FreeLinks.UnlinkLinked | mos/hil/mem.c:110-111 | Unlinking a node keeps the rest a circular doubly linked list |
| FreeLinks.InsertLinked | mos/hil/mem.c:175-178 | Inserting before a node keeps the list circular and doubly linked |
| Heap.FreesSorted | mos/hil/mem.c:164-165 | The free list is strictly sorted by address |
| Heap.TakeAllRepresents | mos/hil/mem.c:106-118 | Pulling a node out of memory's list is using its block |
| Heap.TakeTailRepresents | mos/hil/mem.c:127-129 | Cutting a node's tail off is splitting its block |
| Heap.BestOfList | mos/hil/mem.c:83-95 | The best node of the list is the best block of the heap |
| Heap.InsertedPending | mos/hil/mem.c:159-184 | The node is put at its place by address, also at the front and into an empty list |
| Heap.NextAdjacent | mos/hil/mem.c:188-189 | The address test holds exactly when the right neighbour is free |
| Heap.PrevAdjacent | mos/hil/mem.c:194-195 | The address test holds exactly when the left neighbour is free |
| Heap.CombinedPending | mos/hil/mem.c:207-214 | combine joins two physical neighbours, in the list and in size |
| Heap.Allocator.constructor | mos/hil/mem.c:56-63 | One free block that fills the region |
| Heap.Allocator.FindBest | mos/hil/mem.c:83-95 | The first smallest node that is large enough, or none is |
| Heap.Allocator.FlagBlock | mos/hil/mem.c:141-150 | Exactly the payload is filled with 0xEF |
| Heap.Allocator.MemoryAlloc | mos/hil/mem.c:65-134 | NULL if and only if no free block holds the request rounded up to an even number; otherwise the best fit, whole or its end, waste of at most one header, and only the payload flagged |
| Heap.FirstAllocation | mos/hil/mem.c:56-134 | In 16 bytes at 0x200, a request for 10 bytes is served at 0x206 |
| Heap.Allocator.FindPlace | mos/hil/mem.c:166-172 | The node behind the region in address order, or the head |
| Heap.Allocator.Combine | mos/hil/mem.c:207-214 | The list without the second node, whose space the first takes over |
| Heap.Allocator.MemoryFree | mos/hil/mem.c:152-199 | Memory stands for the heap with the block freed and joined on both sides |
| SealSpec.SameCount | tools/seal/structures.py:939-959 | One stack and one verdict for every block |
| SealSpec.StacksAscend | tools/seal/structures.py:173-194 | On every stack condition numbers ascend, so none occurs twice, and only a program's own stack is empty |
| SealSpec.EnteredFaithful | tools/seal/structures.py:939-959 | Entering a block: literals are true exactly when the block is active, and inverting the last one says that the chain's arms so far were not taken |
| SealSpec.MeaningKept | tools/seal/structures.py:939-1087 | For any block in any context: its stacks are satisfied exactly when its blocks are active |
| SealSpec.FlatteningKeepsMeaning | tools/seal/structures.py:939-1087 | For every program and truth assignment, a block is active under nested semantics exactly when all its literals are true |
| SealSpec.ActivityFollows | tools/seal/structures.py:939-1087 | The nested semantics itself: no nested block or later arm is forgotten, and an arm is active if and only if the block around it is, its condition holds and those of the arms before it do not |
| SealCompiler.FillAt | tools/seal/components.py:84-87 | setdefault keeps what the first pass found |
| SealCompiler.After | tools/seal/structures.py:961-964 | A when chain leaves the stack as it found it |
| SealCompiler.PassesCompile | tools/seal/structures.py:1089-1093 | After three passes: one branch per block, in preorder, with the block's literals and all its use cases, no other, in the order of their declarations |
| SealCompiler.StatementsRun | tools/seal/structures.py:1067-1073 | The k-th statement among the declarations is the k-th use case, and there are no others |
| SealCompiler.CompiledWellNumbered | tools/seal/structures.py:311-320 | Every branch but 0 waits for at least one condition, for none twice, and only for existing ones |
| SealCompiler.ConditionCollection.Add | tools/seal/structures.py:173-177 | Numbers a condition and pushes its literal |
| SealCompiler.ConditionCollection.InvertLast | tools/seal/structures.py:179-183 | Negates the last literal |
| SealCompiler.ConditionCollection.Pop | tools/seal/structures.py:191-194 | Drops the last n literals |
| SealCompiler.ConditionCollection.EnsureBranchIsPresent | tools/seal/structures.py:311-315 | Records the branch unless it is known |
| SealCompiler.ConditionCollection.NextBranch | tools/seal/structures.py:317-320 | The next branch number, once a branch was recorded |
| SealCompiler.BranchCollection.AddBranch | tools/seal/components.py:84-87 | A copy of the literals for a new branch, nothing for a known one |
| SealCompiler.BranchCollection.AddUseCase | tools/seal/components.py:89-91 | Appends to the branch |
| SealCompiler.BranchCollection.GetAssociatedBranches | tools/seal/components.py:132-138 | Exactly the branches that mention the condition, in order, each as often as it does |
| SealCompiler.AssociatedIff | tools/seal/components.py:132-138 | A branch is in that list if and only if one of its literals has the condition's number |
| SealCompiler.AssociatedAscend | tools/seal/components.py:132-138 | The branches are listed in ascending order |
| SealCompiler.EnterCodeBlock | tools/seal/structures.py:939-959 | The stack inside the block, by block type, and the branch recorded |
| SealCompiler.ExitCodeBlock | tools/seal/structures.py:961-964 | A when block drops everything its chain pushed |
| SealCompiler.Traverse | tools/seal/structures.py:967-1087 | A traversal has the effect computed from the tree, and shows each block's statements its stack and preorder number |
| SealCompiler.Compile | tools/seal/structures.py:1089-1093 | All three passes show the same stacks and numbers, and the branches are those of the program, with all use cases in order |
| SealMachine.FormatConditions | tools/seal/generator.py:31-44 | The C expression is true exactly when all literals are |
| SealMachine.FormatConditionsUndefined | tools/seal/generator.py:46-54 | The C expression is true exactly when some status is not known |
| SealMachine.SwitchInOrder | tools/seal/structures.py:231-235 | A switch keeps the Start and Stop calls of every branch alternating |
| SealMachine.SettledFrame | tools/seal/structures.py:229-235 | A condition a branch does not mention does not concern it |
| SealMachine.EventMachine.constructor | tools/seal/generator.py:99-104 | All conditions undefined, all branches but the first off |
| SealMachine.EventMachine.Evaluate | tools/seal/generator.py:138-146 | The conjunction, or the old status while a condition is unknown |
| SealMachine.EventMachine.AppMain | tools/seal/generator.py:156-181 | After start-up every branch has the status its conditions ask for; the program's own branch was started first, then exactly the others that are on, in ascending order |
| SealMachine.EventMachine.ConditionCallback | tools/seal/structures.py:207-237 | So it is after every callback, which stops or starts exactly the branches whose status changes, in ascending order; filtered or unchanged values change nothing |
| SealMachine.EventMachine.UpdateBranches | tools/seal/structures.py:228-236 | Re-evaluating the branches that mention the condition is enough, and switches them in ascending order |
| SealMachine.SwitchInTurn | tools/seal/structures.py:229-236 | Switching one more branch of an ascending list keeps the calls in ascending order, one for each changed branch |
| SealMachine.Generate | tools/seal/generator.py:138-151 | The machine generated from a compiled program has its branches' literals |
| SealMachine.MachineFollowsProgram | tools/seal/structures.py:207-237 | End to end: when the statuses are what a valuation says, a branch runs exactly when its block is active in the nested program |
| IntSqrt.NeverBelow | mos/lib/algo.c:59 | The iteration never falls below the root |
| IntSqrt.FallsAbove | mos/lib/algo.c:59 | Above the root it falls |
| IntSqrt.RestsAtRoot | mos/lib/algo.c:59-66 | At the root it rests, unless the number is one below the next square |
| IntSqrt.OnlyFromSuccessor | mos/lib/algo.c:65-69 | In that case the root is entered from its successor only, so the cycle test returns it |
| IntSqrt.ExceptionalValues | mos/lib/algo.c:27-31 | The exceptions are ten numbers |
| IntSqrt.NoOverflow | mos/lib/algo.c:59 | The 32-bit sum does not wrap |
| IntSqrt.Sqrt | mos/lib/algo.c:32-81 | Terminates for every 32-bit number with the root rounded down, or up for the exceptional ones |
| Alarms.WindowOrder | mos/include/defines.h:95-96 | Within half a circle the wrap-around comparison is the order of time |
| Alarms.AfterExact | mos/include/defines.h:95-96 | On the circle, up to half a turn ahead is after, half a turn included |
| Alarms.Place | mos/kernel/alarms.c:96-101 | The first place whose deadline the new one is not after |
| Alarms.ScheduleKeepsSorted | mos/kernel/alarms.c:95-102 | Insertion keeps the deadlines sorted while they fit in one window |
| Alarms.HeadDecides | mos/kernel/alarms_internal.h:76-82 | In a sorted list something is due exactly when the head is |
| Alarms.DueAreFirst | mos/kernel/alarms.c:53-63 | The due alarms are exactly the leading ones |
| Alarms.WithoutInOrder | mos/kernel/alarms.c:93 | Removal keeps the list in order |
| Alarms.ScheduledInOrder | mos/kernel/alarms.c:76-113 | So does scheduling |
| Alarms.DrainedIff | mos/kernel/alarms.c:42-74 | After processing nothing due is left if and only if at most one alarm was due |
| Alarms.AlarmList.RemoveSafe | mos/lib/list.h:89-102 | The list without the alarm, or unchanged if it is absent |
| Alarms.AlarmList.Insert | mos/lib/list.h:66-69 | The alarm becomes the entry behind the given link |
| Alarms.AlarmList.Schedule | mos/kernel/alarms.c:76-113 | The alarm leaves its old place and goes to its new one; the others keep order and deadlines; a list in order stays in order while all deadlines lie in one window |
| Alarms.AlarmList.Remove | mos/kernel/alarms.c:115-121 | The list without the alarm, still in order if it was |
| Alarms.AlarmList.HasAnyReadyAlarms | mos/kernel/alarms_internal.h:76-82 | Whether the head is due |
| Alarms.AlarmList.HasAnyReadyAlarmsLong | mos/kernel/alarms_internal.h:76-82 | With 64-bit ticks every non-empty list looks ready |
| Alarms.AlarmList.Process | mos/kernel/alarms.c:42-74 | Fires all due alarms in order, unlinks only every second one, and leaves a sound list |
| Lists.Unlinked | mos/lib/list.h:95-100 | Pointing past a node takes it out of the list |
| Lists.Inserted | mos/lib/list.h:66-69 | Two assignments put a node in |
| PacketQueue.PacketQueue.AddPacket | mos/net/net_queue.c:42-57 | Refuses a missing or used buffer and changes neither queue nor buffer; otherwise the packet and its bytes go to the end |
| PacketQueue.PacketQueue.InsertTail | mos/lib/list.h:161-165 | The new packet is last and the tail pointer is its link |
| PacketQueue.PacketQueue.Pop | mos/net/net_queue.c:59-68 | The oldest packet leaves and is free again |
| PacketQueue.PacketQueue.RemoveHead | mos/lib/list.h:189-193 | The tail pointer returns to the head when the queue runs empty |
| PacketQueue.PacketQueue.GetPacket | mos/net/net_queue.c:75-79 | The first packet that matches |
| PacketQueue.PacketQueue.RemovePacket | mos/net/net_queue.c:81-86 | The first match leaves from anywhere in the queue, and the rest stay in the order they arrived |
| PacketQueue.PacketQueue.RemoveIf | mos/lib/list.h:218-234 | The search, and the removal that keeps the tail pointer on the final link |
| SealPackets.FieldsInPlace | mos/net/seal_networking.c:237-245 | The k-th field added stands where readers look for its code, for all k, if and only if codes were added in increasing order |
| SealPackets.OutOfOrder | mos/net/seal_networking.c:237-245 | Two fields added out of order change places |
| SealPackets.SentIsComplete | mos/net/seal_networking.c:237-259 | A packet built in order has exactly the fields its mask promises, so receivers find all they read |
| SealPackets.Sender.AddField | mos/net/seal_networking.c:237-245 | The mask gains the code and the fields gain the value at the end |
| SealPackets.Sender.Finish | mos/net/seal_networking.c:247-259 | The frame: magic, checksum, mask, fields |
| SealPackets.Listener.IsSingleValued | mos/net/seal_networking.c:93-104 | Whether the mask has at most one bit |
| SealPackets.SingleTest | mos/net/seal_networking.c:110-111 | The test by the lowest bit agrees with counting bits |
| SealPackets.Listener.LowestCode | mos/net/seal_networking.c:110 | ffs: the lowest code of the mask |
| SealPackets.Listener.ReceivePacketData | mos/net/seal_networking.c:106-136 | The listener ends up with the packet's value for each of its codes |
| SealPackets.Listener.ReadValue | mos/net/seal_networking.c:269-291 | Reads the value stored for a code, single-valued or not |
| SealPackets.Receive | mos/net/seal_networking.c:138-173 | Exactly the used slots of the listener table whose codes are all present are served, with fields found behind any mask extensions, and no other changes |
| SealPackets.SkipExtensions | mos/net/seal_networking.c:158-164 | The fields start behind as many words as extend the mask |
| SealPackets.Delivered | mos/net/seal_networking.c:93-245 | End to end: what was added under a code is what every served listener holds for it |
| JenkinsHash.MixIsBijective | mos/lib/hash.c:79-133 | mix is a bijection on triples, with its inverse |
| JenkinsHash.RotBit | mos/lib/hash.c:79 | Bit i of the word is bit (i + k) mod 32 of the rotated word |
| JenkinsHash.RotBack | mos/lib/hash.c:79 | Rotating on by 32 - k undoes it |
| JenkinsHash.HashOfNothing | mos/lib/hash.c:204 | The empty key hashes to 0xdeadbeef plus the initial value |
| JenkinsHash.HashOfA | mos/lib/hash.c:160-169 | The key "a" hashes to 0x58d68708, which fixes the constants of final |
| JenkinsHash.HashOfThirteen | mos/lib/hash.c:125-169 | The key 1, 2, ..., 13 hashes to 0xe7d7a0e5, which fixes those of mix and the byte order |
| JenkinsHash.MixInPlace | mos/lib/hash.c:125-133 | The eighteen statements are six turns of one step |
| JenkinsHash.FinalInPlace | mos/lib/hash.c:160-169 | The fourteen statements are seven stirs |
| JenkinsHash.LaneAsWord | mos/lib/hash.c:222-245 | A masked aligned word is the key's bytes padded with zeros, whatever follows in memory |
| JenkinsHash.LaneAsHalves | mos/lib/hash.c:254-292 | So are the half words and bytes of the 16-bit reader |
| JenkinsHash.LaneAsBytes | mos/lib/hash.c:300-334 | So are the shifted bytes, in either order |
| JenkinsHash.HashWords | mos/lib/hash.c:207-247 | The 32-bit reader computes the hash of the key |
| JenkinsHash.HashHalves | mos/lib/hash.c:249-294 | So does the 16-bit reader |
| JenkinsHash.HashBytes | mos/lib/hash.c:296-337 | So does the byte reader |
| JenkinsHash.HashLittle | mos/lib/hash.c:198-341 | The hash depends on the key's bytes, length and initial value only, not on its address |
| JenkinsHash.KnownHashes | mos/lib/hash.c:198-341 | hashlittle returns these three values |
| MacHeader.CalcMacHeaderLen | mos/net/mac.c:156-194 | The end of the last field, at most 21, where the buffer reserves 30 |
| MacHeader.Fcf1Says | mos/net/mac.c:85-139 | The first control byte says exactly which fields follow, for every accepted pair of address types |
| MacHeader.Fcf2Says | mos/net/mac.c:85-88 | So does the second |
| MacHeader.LayoutIs | mos/net/mac.c:156-194 | The control bytes lay the fields out where the builder put them |
| MacHeader.HeaderRoundTrip | mos/net/mac.c:69-278 | Parsing a built header, whatever follows it, gives back all addresses, ports and counters and the ACK flag |
| MacHeader.SeqnumFound | mos/net/mac.c:284-315 | The shortcut finds the sequence number whenever there is one |
| MacHeader.BuildHeader | mos/net/mac.c:69-154 | Writes the header, or refuses exactly two long addresses and long immediate ones |
| MacHeader.ParseHeader | mos/net/mac.c:196-278 | Refuses exactly frames shorter than the header; otherwise consumes calcMacHeaderLen bytes |
| MacHeader.GetMacHeaderSeqnum | mos/net/mac.c:284-315 | The byte behind the addresses |
| MacHeader.KnownHeaders | mos/net/mac.c:69-154 | Three headers byte for byte: with everything, with a long source, and with a next hop |
| SmpCodec.EncodedIntShape | mos/smp/codec.c:115-158 | The first byte tells the length, and without its mark the bytes are the number |
| SmpCodec.KnownEncodings | mos/smp/codec.c:37-258 | One value of each type, byte for byte |
| SmpCodec.IntRoundTrip | mos/smp/codec.c:67-158 | An integer survives coding if and only if it is not negative |
| SmpCodec.IntSizes | mos/smp/codec.c:123-138 | One to five bytes, with thresholds at 2^7, 2^14, 2^21 and 2^28 |
| SmpCodec.DecodesOnlyOnce | mos/smp/codec.c:75-90 | A decoded buffer decodes again if and only if the number had one or five bytes |
| SmpCodec.VariantRoundTrip | mos/smp/codec.c:210-258 | A variant survives coding if and only if it is carried, that is, no negative integer and no blob; an empty blob comes back if a zero byte happens to follow |
| SmpCodec.BlobRoundTrip | mos/smp/codec.c:180-232 | What encodeBinary writes comes back, with its length byte in front, if and only if it was less than 255 bytes |
| SmpCodec.ListRoundTrip | mos/smp/codec.c:210-258 | Any list of carried variants comes back, consuming exactly its own bytes |
| SmpCodec.Cursor.EncodeInt32 | mos/smp/codec.c:115-158 | Writes the bytes, or fails; a failing five-byte number has lost one byte of room and written its first byte |
| SmpCodec.Cursor.EncodeFixed | mos/smp/codec.c:37-65 | Octets, 16-bit and 64-bit values: all bytes or none |
| SmpCodec.Cursor.EncodeVariant | mos/smp/codec.c:234-258 | Succeeds exactly when all bytes fit, and writes them |
| SmpCodec.Cursor.DecodeInt32 | mos/smp/codec.c:67-113 | Decodes, and takes the mark off in the buffer even when it fails for lack of bytes |
| SmpCodec.Cursor.ReadLow | mos/smp/codec.c:97-109 | The fall-through reads the bytes, the highest first |
| SmpCodec.Cursor.DecodeFixed | mos/smp/codec.c:27-55 | Octets, 16-bit and 64-bit values |
| SmpCodec.Cursor.DecodeBinary | mos/smp/codec.c:180-193 | Hands out the length byte and what it counts, itself included; fails exactly when they are not all there |
| SmpCodec.Cursor.DecodeVariant | mos/smp/codec.c:210-232 | Decodes what the codec's specification says, blobs included, and moves past it |

## Left out

- FAT names, search, create, remove and open, and mounting: they read past short extensions, stop after one sector or
  leave clusters allocated; files are taken as existing, well-formed entries.
- Files from other systems whose chain ends exactly at the file size on a cluster boundary: the driver does not cover them.
- FatDriver.Driver.FatFsWrite: does not say what the file holds after a failed card operation; what then survives is
  stated where it happens, for the cache, the table updates and the allocation.
- FatDriver.Driver.AdvanceCluster: after a failed table read the source goes on with an uninitialised variable, here any value.
- FatFsRead and FatFsWrite transfer at most 512 bytes, and one handle per file is considered.
- The heap's pointer arithmetic is on unbounded integers; all addresses involved are inside the 16-bit region, so nothing wraps.
- SEAL expressions are opaque conditions: their text, the parser, components, virtual sensors and implicit definitions are not modelled.
- SealCompiler.Traverse: statements are identities; what a pass does with a statement besides binding it is not modelled.
- The generated C is modelled as expressions and callbacks, not as text; sensor, packet and interrupt registration are not modelled.
- Alarm callbacks that schedule or remove alarms while the list is processed, locking, and thread wake-up.
- PacketQueue.PacketQueue.Pop: requires a non-empty queue, where the source asserts one; locking is not modelled.
- Packet masks are sets of bit positions; listener registration and unregistration and the callbacks' actions are not
  modelled.
- SealPackets.Receive: requires that an accepted frame holds the fields its listeners ask for and the end of its mask
  extensions, of which there are at most 61; the source reads on without a check.
- The hash's big-endian variant.
- MacHeader models SUPPORT_LONG_ADDR enabled; pointers into the frame and the send time are not fields of the model.
- encodeBinary is modelled by the bytes it writes, not by its test for room.
- Hardware, radio, serial, timers, sockets, kernel start-up, byte receivers, ring buffers and the Python tools around the compiler.
