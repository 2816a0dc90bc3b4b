# A model of the emulator's memory, instruction and process-support core

A Dafny model of the parts of an x86/ARM user-mode emulator on which everything else rests: its virtual memory
manager, the DOS allocator it emulates, the arithmetic and string loops of its x86 core, its caches of decoded code, and
the Windows loader lists and exception dispatch it stages in guest memory. `dafny verify dfyconfig.toml` checks it.

## How it is laid out

| files | what they model |
|---|---|
| `Alignment`, `Backing`, `Regions`, `RegionEdits`, `Layout`, `Allocations`, `Memory` | the virtual memory manager: a sorted list of regions, committed ones pointing at windows into shared byte buffers |
| `FlatMemory`, `GuestMemory` | memory as a flat map of committed bytes, which the manager is proved to be; all guest code below works on it |
| `McbChain`, `Mcb` | the DOS memory-control-block chain, as a list of blocks and as headers in guest memory |
| `Arith128`, `Bits`, `Alu`, `AluLaws` | 64x64-bit products, 128/64-bit quotients, the ALU operations and flags, and what conditions and carry chains decide |
| `StringSpec`, `StringMachine`, `StringFaults`, `StringLaws`, `X86Registers` | the x86 string instructions, their capped, resumable loops, what finished ones have compared, copied, stored or loaded, and what a fault leaves behind |
| `Arm64Spec`, `Arm64Cache`, `Arm64Machine`, `Arm64Flags`, `Arm64Decode`, `Arm64Stale` | AArch64 decoding and execution, stepping against running from the op cache, and when the two differ |
| `Arm64Laws`, `Arm64RegisterLaws`, `Arm64Encoding` | what AArch64 loads, stores, branches and register instructions do to registers and memory, and which words they are |
| `X86Blocks`, `X86Code`, `X86Stale` | translation blocks and their cache with its code-page filter |
| `LoaderRings`, `LoaderLists` | circular doubly linked module lists in guest memory |
| `SehSpec`, `SehDispatch`, `SehLaws`, `SehRuns` | structured exception dispatch on the guest stack, one call at a time, as a handler sees it in memory, and over whole runs |
| `MachineTypes`, `Division` | machine integers and facts about remainders |

Stateful C++ classes are classes here, with the same fields reassigned by methods with the same branches; each method's
contract ties the new state to the old one through specification functions, and lemmas say what those mean without
naming them again: as blocks and bytes at their addresses, bits, exact sums, or the elements of a string. `Valid()` is
what every public call keeps, so it holds in every state any sequence of calls can reach. A long source function is cut
into a few methods where its proof needs it; the table cites the lines each one covers.

Modelling choices that matter when reading the contracts:

- Addresses and register values are integers within their width. Where the source wraps around, `%` is written out.
- A region's windows refer to real arrays, so two windows can share one buffer, as in the source. That no two addresses
  share a byte is an invariant and not an assumption.
- `std::sort` on the region list is an insertion; `SortedPermutationUnique` says why that is the same.
- What holds for every decoder is stated for every decoder. For AArch64 that is any function of address and word, with
  register-only instructions any function of the registers; `Arm64Decode` is the source's own. For x86 it is any machine
  that fetches 1, 2, 4 or 8 bytes at a time, so that what a block depends on is proved; `ReadsX86` states the few
  encodings that the stale-block results use, and `SmallReaderIsX86` that a decoder can have them.
- An executing instruction is passed by value: a store may drop its own cache entry.
- Flags are records of the individual bits.

## What turned out not to hold as one might expect

- **AArch64 op cache.** An entry is dropped only when its first byte lies in the reported range. A byte stored into the
  middle of a cached word leaves the old instruction in the cache (`ByteStoreDiverges`), and a pair stored at the top of
  the address space reports a range that wraps around to nothing (`WrappedPairDiverges`). `StaleExactly` and
  `StaleInMappedMemory` give the exact condition, and `Run` equals stepping whenever no store meets it.
- **Two AArch64 branches.** RET X0 goes where x30 points, not x0 (`ReturnLaw`), and CBZ and CBNZ test all 64 bits of the
  register although the word asks for a W register (`CompareAndBranchLaw`).
- **x86 block cache.** A block that stopped at an unreadable byte in the middle of an instruction looked at readable
  bytes beyond its end, and a store there does not drop it (`TailGoesStale`, and bytes for it in `CutOffGoesStale`).
  That is the only way a block goes stale through a reported store (`OutsideTailStaysFresh`, `Store`). An empty block at
  address 0 sends the page loop through 2^52 pages (`PagesOfEmptyBlock`).
- **DOS allocation of 0 paragraphs** fails exactly when no block is free and then reports a largest block of 0, which is
  not smaller than the request (`FailureReport`). A program loaded high leaves such a chain (`NothingToHand`).
- **A faulting string iteration is not undone.** Its index registers move although the count is not reduced
  (`IndexesMove`, `WholeFault`); LODS overwrites the accumulator with 0, SCAS and CMPS replace the flags
  (`FaultRegisters`); and memory changes exactly when a copy cannot read its source, can write its destination, and the
  destination was not 0 (`FaultMemory`). `FaultingCopyStores` is such a copy. Resuming capped steps is exact all the
  same (`ResumedIsWhole` needs no assumption about faults).

The code was followed where comments say otherwise: `_memFree` joins the free blocks after the freed one at once (the
comment leaves that to a later allocation), and `_memResize` absorbs every free block that follows, not one.

## Model

| member | source | states |
|---|---|---|
| Alignment.AlignUpLeast | xemumemorymanager.cpp:70-85 | Rounding up yields the least multiple at or above the value, and 0 exactly when that multiple is 0 or needs more than 64 bits; an alignment of 0 leaves the value alone. |
| Alignment.NormalizeExact | xemumemorymanager.cpp:201-222 | A range normalises to all the pages it touches exactly when it is non-empty and those pages end at or below the address limit; every overflow check is covered. |
| Memory.MemoryManager.constructor | xemumemorymanager.cpp:31-39 | A new manager is in 64-bit mode, for addresses from 0x10000 to below 0x7FFFFFFF0000, is empty and satisfies every invariant. |
| Memory.MemoryManager.SetBits | xemumemorymanager.cpp:41-57 | The mode changes exactly between 32 and 64 and, once anything is mapped, not at all; the invariants survive. Addresses then start at 0x10000 and end below 0x7FFF0000 or below 0x7FFFFFFF0000. |
| Memory.MemoryManager.Clear | xemumemorymanager.cpp:64-68 | Every address is free afterwards and the counter is 0. |
| Memory.MemoryManager.FindContainingIndex | xemumemorymanager.cpp:96-108 | Returns the region that contains the address, or -1 exactly for a free address. |
| Allocations.InsertContents | xemumemorymanager.cpp:110-118 | Insertion keeps exactly the old regions and adds the new one. |
| Allocations.SortedPermutationUnique | xemumemorymanager.cpp:110-118 | Sorting the list by address has one possible outcome, which is why an insertion stands for append and sort. |
| Memory.MemoryManager.Split | xemumemorymanager.cpp:120-199 | Isolates a page range inside one region: succeeds exactly when the predicted growth fits the region limit, changes no address, grows the list by exactly the prediction, and on failure changes nothing. |
| RegionEdits.SplitKeepsLayout | xemumemorymanager.cpp:120-179 | Replacing a region by its pieces, windows cut to match, keeps the list sorted, disjoint and backed, and keeps what every address maps to. |
| RegionEdits.PieceGrowth | xemumemorymanager.cpp:181-199 | The regions that isolating a stretch adds are exactly the pending cuts at its two ends, which is what lets a dry run bound the real one. |
| Backing.AppendSliceAt | xemumemorymanager.cpp:233-256 | Extending the last window instead of appending a new one changes no byte's place. |
| Backing.MaximalUnique | xemumemorymanager.cpp:233-256 | A window list in which no window continues the one before is determined by the places it gives to its bytes. |
| Backing.CheckWindows | xemumemorymanager.cpp:258-283 | The validation loop accepts exactly the window lists that are in bounds and add up to the region's size, without overflowing on the way. |
| Backing.CutWindows | xemumemorymanager.cpp:285-323 | The slicing loop returns windows for exactly the requested byte range. |
| Backing.JoinWindows | xemumemorymanager.cpp:353-361 | Joining two window lists keeps every byte's place and leaves no window that continues another. |
| Memory.MemoryManager.Coalesce | xemumemorymanager.cpp:325-365 | Keeps what every address maps to and leaves no two neighbours that could be merged. |
| Regions.CanonicalUnique | xemumemorymanager.cpp:325-365 | Two coalesced lists with the same per-address meaning are equal, backing windows included: every reachable list is the unique coalesced form of its flat view. |
| Memory.MemoryManager.SplitThenCoalesce | xemumemorymanager.cpp:120-179 | Splitting a region and coalescing again restores a reachable list exactly, windows included. |
| Memory.MemoryManager.Reserve | xemumemorymanager.cpp:367-445 | Succeeds exactly when the limits allow it and the pages are free (for address 0: when a free 64 KiB slot exists, and then at the lowest one); failure changes nothing; success maps exactly those pages as reserved and changes no byte. |
| Memory.MemoryManager.FindAnywhere | xemumemorymanager.cpp:380-392 | For address 0 the chosen range is the lowest free, 64 KiB aligned one. |
| Allocations.FreshBase | xemumemorymanager.cpp:423-445 | A new allocation's base is the base of no mapped address. |
| Allocations.InsertKeepsGaps | xemumemorymanager.cpp:425-445 | Inserting a reservation with a fresh base leaves a coalesced list coalesced. |
| Memory.MemoryManager.MapFixed | xemumemorymanager.cpp:447-499 | Succeeds exactly when the touched pages are free and every limit holds; then exactly those pages are committed, zero-filled and named; failure leaves regions and counter as they were. |
| Memory.MemoryManager.Commit | xemumemorymanager.cpp:501-665 | Succeeds exactly when the page-rounded range lies in one allocation and the growth and both commit limits hold. Then the whole range is committed with the new flags, bytes that were committed keep their values, new ones are zero, every address outside is unchanged, and the counter rises by exactly the newly committed bytes. Failure changes nothing. |
| Memory.MemoryManager.CommitPreflight | xemumemorymanager.cpp:550-608 | The dry run passes exactly when the range lies in one allocation and the growth fits the region limit, and then returns exactly the regions that will be added and the bytes that will be newly committed; its running check against the total-commit limit cannot fire. |
| Memory.MemoryManager.CommitLoop | xemumemorymanager.cpp:617-660 | Once the dry run has passed, the mutating loop cannot fail: its rollback branches are unreachable. |
| Layout.BytesAfterCommit | xemumemorymanager.cpp:617-660 | Committing gives the old bytes over zeros: what was there stays, what is new is zero. |
| Memory.MemoryManager.Allocate | xemumemorymanager.cpp:667-691 | All or nothing: reserve and commit together, with the reservation rolled back exactly when the commit fails. |
| Allocations.WithoutInserted | xemumemorymanager.cpp:683-688 | Releasing a reservation just made restores the previous list exactly. |
| Memory.MemoryManager.Protect | xemumemorymanager.cpp:693-793 | Succeeds exactly when every touched page is committed and the growth fits; then only flags in the range change, no byte does; failure changes nothing. |
| Memory.MemoryManager.ProtectLoop | xemumemorymanager.cpp:758-788 | Once its dry run has passed, the mutating loop cannot fail. |
| Memory.MemoryManager.Release | xemumemorymanager.cpp:795-819 | Succeeds exactly for a mapped address and removes the whole allocation that contains it and nothing else: list, bytes and counter. |
| Allocations.WithoutKeepsGaps | xemumemorymanager.cpp:800-818 | Removing a whole allocation never makes two remaining regions mergeable. |
| Allocations.CommittedSumCounts | xemumemorymanager.cpp:800-818 | The sum of committed region sizes is the number of committed addresses, so subtracting sizes keeps the counter exact. |
| Memory.MemoryManager.FindFree | xemumemorymanager.cpp:821-859 | For every alignment, not only powers of two up to 64 KiB: returns the lowest aligned address at or above the start and the minimum whose page-rounded range is free and below the limit, and 0 for a non-zero size only when there is none. |
| Memory.MemoryManager.IsRangeCommitted | xemumemorymanager.cpp:861-900 | True exactly when every byte of the range is committed and the range does not overflow. |
| Memory.MemoryManager.IsRangeFree | xemumemorymanager.cpp:902-920 | True exactly when the touched pages exist and all are free. |
| Memory.MemoryManager.Read | xemumemorymanager.cpp:922-995 | Walking regions and then windows returns exactly the bytes of the flat map, or fails as a whole when one byte is missing or the size exceeds 512 MiB. |
| Memory.MemoryManager.Write | xemumemorymanager.cpp:997-1070 | Writes exactly the addressed bytes of the flat map, across region and window boundaries, or nothing when one byte is missing. |
| Backing.WriteWindows | xemumemorymanager.cpp:1030-1068 | No byte of any buffer other than the addressed ones changes. |
| Memory.MemoryManager.ReadValue | xemumemorymanager.cpp:1215-1328 | A typed read is the little-endian value of its bytes, or 0 and a failure. |
| Memory.MemoryManager.WriteValue | xemumemorymanager.cpp:1330-1375 | A typed write stores the little-endian bytes of the value, or nothing. |
| FlatMemory.LoadStored | xemumemorymanager.cpp:1215-1375 | A typed load after a store to the same place returns the stored value. |
| FlatMemory.LoadApart | xemumemorymanager.cpp:1215-1375 | A store changes no disjoint load. |
| FlatMemory.LoadAssembled | xemumemorymanager.cpp:1215-1375 | A wide load is the assembly of its narrower loads. |
| GuestMemory.Guest.ReadSized | xemumemorymanager.cpp:1215-1328 | Over the flat view: a load that finds a byte missing delivers 0 and fails. |
| GuestMemory.Guest.WriteSized | xemumemorymanager.cpp:1330-1375 | Over the flat view: a store that finds a byte missing changes nothing. |
| GuestMemory.Guest.IsCommitted | xemumemorymanager.cpp:861-900 | Over the flat view: all bytes there, and no overflow past the last address. |
| GuestMemory.Guest.Write | xemumemorymanager.cpp:997-1070 | Over the flat view: all bytes or none; nothing above 512 MiB. |
| Mcb.McbArena.McbWrite | os/msdos_int/xemumsdosint.cpp:106-112 | Writes one 5-byte header and disturbs no other header and no other byte. |
| Mcb.McbArena.McbSetup | os/msdos_int/xemumsdosint.cpp:114-131 | For any arguments, the two or three headers say what they should in 16 bits, the last written one counting where they coincide, and no other byte changes. From a contiguous environment and program layout they tile [first MCB, memory top) exactly, with the last one, and only it, marked as last. |
| Mcb.McbArena.MemAlloc | os/msdos_int/xemumsdosint.cpp:165-193 | The walk ends; it takes the first free block that fits, and on failure leaves memory untouched and reports the largest free block. The chain stays a tiling and no segment or size wraps. No owned block moves, changes size or loses a byte. |
| McbChain.FirstFitIs | os/msdos_int/xemumsdosint.cpp:165-193 | The block taken is free, fits, and no earlier free block fits; there is none exactly when no free block fits. |
| McbChain.LargestFreeIs | os/msdos_int/xemumsdosint.cpp:165-193 | The size reported on failure is that of a largest free block. |
| McbChain.FailureReport | os/msdos_int/xemumsdosint.cpp:165-193 | A failed request is larger than the size it reports exactly when it asked for at least one paragraph: a request for 0 fails exactly when no block is free, and then reports 0. |
| McbChain.NothingToHand | os/xemudos.cpp:813-821 | That happens in the chain set up for a program that owns everything up to the top. |
| McbChain.CarveSpan | os/msdos_int/xemumsdosint.cpp:172-183 | The block handed out has exactly the requested size or one paragraph more, and with its remainder takes up exactly the block it came from. |
| McbChain.CarveIs | os/msdos_int/xemumsdosint.cpp:172-183 | What is left over of two paragraphs or more becomes a free block; a single one stays with the block handed out. |
| McbChain.AllocKeepsSpan | os/msdos_int/xemumsdosint.cpp:165-193 | Allocation keeps the sum of 1 + size over the chain. |
| McbChain.AllocKeepsOthers | os/msdos_int/xemumsdosint.cpp:165-193 | Allocation leaves every owned block at its place and size. |
| Mcb.McbArena.MemFree | os/msdos_int/xemumsdosint.cpp:195-211 | An owned block gets owner 0, in its header too, and its old size plus 1 + size of every free block right after it; what then follows is owned or nothing, and every other block keeps place, size and owner. A block already free is left alone, memory and all. A request for as much as the block now has, or less, succeeds. No other owned block loses a byte. |
| McbChain.FreeAtMeans | os/msdos_int/xemumsdosint.cpp:195-211 | The same of the list of blocks: the stretch of free blocks after the freed one is the longest there is, and it and no more is swallowed. |
| McbChain.FreedIsMaximal | os/msdos_int/xemumsdosint.cpp:203-209 | The block after a freed one is owned, or there is none. |
| McbChain.FreedCanBeTaken | os/msdos_int/xemumsdosint.cpp:165-211 | Right after a free, an allocation of up to the freed block's new size finds a block. |
| McbChain.MergeStep | os/msdos_int/xemumsdosint.cpp:203-209 | Joining one more neighbour changes neither what can be reached nor what is left in the end. |
| McbChain.AbsorbedKeepsSpan | os/msdos_int/xemumsdosint.cpp:203-209 | Joining neighbours keeps the sum of 1 + size over the chain. |
| McbChain.AbsorbKeepsOthers | os/msdos_int/xemumsdosint.cpp:195-242 | Freeing or resizing one block leaves every other owned block at its place and size. |
| Mcb.McbArena.MemResize | os/msdos_int/xemumsdosint.cpp:214-242 | Succeeds exactly when the request fits what the block can reach over the free blocks after it; splits off what is left; on failure leaves the block at all it could reach and reports that. The kept prefix of its memory and every other owned block keep their bytes. |
| McbChain.ResizeSpan | os/msdos_int/xemumsdosint.cpp:214-242 | Resizing keeps the sum of 1 + size over the chain. |
| McbChain.ResizeIs | os/msdos_int/xemumsdosint.cpp:214-242 | A resized block keeps its owner and gets what it asks for out of all it can reach, what it gives up being free; asking for more leaves it with all of that. |
| Mcb.McbArena.McbClaim | os/msdos_int/xemumsdosint.cpp:136-161 | Makes the segment a block of its own out of the block that contains it, touching two headers at most; does nothing when no block contains it; the chain stays a tiling. |
| McbChain.ContainingIs | os/msdos_int/xemumsdosint.cpp:141-161 | The block found is one whose memory contains the segment; none is found exactly when none does. |
| McbChain.ClaimSpan | os/msdos_int/xemumsdosint.cpp:146-153 | Claiming keeps the sum of 1 + size over the chain. |
| McbChain.ClaimIs | os/msdos_int/xemumsdosint.cpp:146-153 | The claimed block starts at the segment, ends where the block around it ended and has the new owner; what lies before it keeps the old one; no other block differs. |
| Mcb.AllocOwnedKept | os/msdos_int/xemumsdosint.cpp:165-193 | No byte of any owned block lies in what an allocation rewrites. |
| Mcb.AbsorbOwnedKept | os/msdos_int/xemumsdosint.cpp:195-242 | No byte of any other owned block lies in what a free or resize rewrites. |
| Arith128.MultiplyUnsigned64 | arch/xemux86.cpp:29-38 | The two halves are the exact 128-bit product, and every intermediate fits 64 bits. |
| Arith128.MultiplySigned64 | arch/xemux86.cpp:40-45 | The two halves, read as two's complement, are the exact signed product. |
| Arith128.ImulOverflowExact | arch/xemux86.cpp:4164-4167 | The 64-bit IMUL overflow test is true exactly when the signed product does not fit, and otherwise the low half is the product. |
| Arith128.DivideUnsigned128 | arch/xemux86.cpp:47-67 | Succeeds exactly when the divisor is non-zero and the quotient fits 64 bits, and then returns the exact quotient and remainder. |
| Arith128.DivideBits | arch/xemux86.cpp:54-66 | The bit loop is exact although its remainder register wraps. |
| Arith128.DivideSigned128 | arch/xemux86.cpp:69-85 | Succeeds exactly when the divisor is non-zero and the truncated quotient fits a signed 64-bit value, and returns it with the numerator-signed remainder (IDIV, Intel SDM Volume 2A, section 3.3). |
| Arith128.TruncIs | arch/xemux86.cpp:69-85 | That quotient and remainder are the only ones with n = q*d + r, |r| < |d| and r of the numerator's sign. |
| Arith128.DivideProduct | arch/xemux86.cpp:29-67 | Dividing a product by one of its factors gives back the other with remainder 0. |
| AluLaws.ImulNarrowExact | arch/xemux86.cpp:4168-4172 | For operands narrower than 64 bits the product never leaves a signed 64-bit register, and the flag is set exactly when it does not fit the operand size. |
| Alu.X86Alu.Parity | arch/xemux86.cpp:500-509 | True exactly when an even number of the byte's bits is set. |
| Alu.X86Alu.SetFlagsAdd | arch/xemux86.cpp:2821-2839 | The bit tricks set CF exactly when the unsigned sum does not fit, OF when the signed sum does not, AF when the low digits carry, and ZF, SF and PF from the result. |
| Alu.X86Alu.SetFlagsSub | arch/xemux86.cpp:2841-2855 | The same for differences and borrows. |
| Alu.X86Alu.SetFlagsAdc | arch/xemux86.cpp:2857-2881 | The same for a sum with an incoming carry, for every width. |
| Alu.X86Alu.SetFlagsSbb | arch/xemux86.cpp:2883-2901 | The same for a difference with an incoming borrow. |
| Alu.X86Alu.SetFlagsLogic | arch/xemux86.cpp:2903-2912 | CF, OF and AF are cleared and ZF, SF and PF follow the result. |
| Alu.X86Alu.SetFlagsIncDec | arch/xemux86.cpp:2914-2926 | The flags of adding or subtracting 1, except that CF is kept. |
| Alu.X86Alu.AluCompute | arch/xemux86.cpp:2928-2946 | Each of the eight operations yields the masked result and flags of its meaning; only CMP stores nothing. |
| AluLaws.ArithmeticCodes | arch/xemux86.cpp:2928-2946 | Codes 0, 2, 3, 5 and 7 yield a + b, a + b + CF, a - b - CF and twice a - b, modulo 2 to the operand's bits. |
| AluLaws.BitwiseCodes | arch/xemux86.cpp:2928-2946 | Bit by bit and for every width, code 1 yields the OR of the operands, 4 the AND and 6 the XOR, with no bit above the operand size. |
| AluLaws.BitwiseFlags | arch/xemux86.cpp:2903-2946 | These three clear CF, OF and AF; ZF tells a result of 0 and SF its top bit. |
| AluLaws.WithItself | arch/xemux86.cpp:2928-2946 | XOR of an operand with itself is 0 and sets ZF; OR and AND of an operand with itself give it back. |
| Alu.AddedByBits | arch/xemux86.cpp:2821-2881 | Sign and overflow read off with masks agree with the signed sum of the operands not fitting. |
| Alu.SubtractedByBits | arch/xemux86.cpp:2841-2901 | Sign and overflow read off with masks agree with the signed difference of the operands not fitting. |
| Alu.HalfCarry | arch/xemux86.cpp:2831-2831 | Bit 4 of a ^ b ^ result tells that the low digits carried. |
| AluLaws.CompareDecides | arch/xemux86.cpp:3068-3089 | After CMP or SUB of any width, conditions B, AE, BE, A, E and NE decide the unsigned order and equality and L, GE, LE and G the signed order (Intel SDM Volume 1, section 3.4.3.1). |
| AluLaws.SignConditions | arch/xemux86.cpp:3068-3089 | O and NO tell whether the signed difference fits, S and NS its top bit. |
| AluLaws.AddChainExact | arch/xemux86.cpp:2821-2881 | ADD of the lowest limbs followed by ADC of the rest computes the exact sum of two numbers of any length and width, with CF the carry out. |
| AluLaws.SubChainExact | arch/xemux86.cpp:2841-2901 | SUB followed by SBB computes the exact difference, with CF set exactly when it is negative. |
| AluLaws.SubUndoesAdd | arch/xemux86.cpp:2821-2901 | Subtracting an addend from a sum gives the other one back and borrows exactly when the addition carried. |
| StringMachine.X86String.Pass | arch/xemux86.cpp:4358-4410 | One pass through the loop body is the specified iteration: accesses in the order of the source, comparison flags, index registers and fault. |
| StringMachine.X86String.Exec | arch/xemux86.cpp:4324-4435 | One step performs the loop up to its 65536-iteration cap and leaves the program counter past the instruction, back on it after a cap, or unmoved on a fault. |
| StringSpec.CapReduces | arch/xemux86.cpp:4422-4433 | A capped step has used up exactly 65536 of the count, left the rest, more than 0, in RCX: RCX is the measure that makes stepping end. |
| StringSpec.StepIsPrefix | arch/xemux86.cpp:4357-4434 | A step is the whole uncapped loop or a front part of it from which the uncapped loop goes on to the same end. |
| StringSpec.ResumedIsWhole | arch/xemux86.cpp:4324-4435 | Stepped until it is no longer capped, a string instruction that does not overwrite itself ends exactly as the uncapped loop does: registers, flags, memory, program counter, early REPE/REPNE exit or fault. |
| StringSpec.ScasFindsFirst | arch/xemux86.cpp:4378-4384 | REPNE SCAS stops right after the first element equal to the accumulator, or compares all; RCX tells how many it compared and ZF whether the last one was equal. |
| StringLaws.CompareFindsFirst | arch/xemux86.cpp:4377-4421 | REPE CMPS and SCAS stop right after the first unequal pair, REPNE right after the first equal one, or compare all; RCX tells how many are left, the flags are those of comparing the last pair, the index registers point past it and nothing else changes, memory included. |
| StringLaws.StoresAll | arch/xemux86.cpp:4364-4395 | A finished REP MOVS, STOS or INS with elements that do not overlap has put the source element, the accumulator or all ones into each of the n elements and changed no other byte. |
| StringLaws.LoadsAll | arch/xemux86.cpp:4373-4399 | A finished REP LODS leaves the last of the n elements in the accumulator, a narrow one keeping the upper part, and no byte of memory changed; OUTS changes none either. |
| StringLaws.FinishedRegisters | arch/xemux86.cpp:4357-4421 | After a finished REP MOVS, STOS, LODS, INS or OUTS, RCX is 0, the index registers of the instruction are n elements on, modulo the address size, and other registers and the flags are kept. |
| StringLaws.Elements | arch/xemux86.cpp:4357-4421 | Where the elements lie: the segment base plus the index register, moved by the element size forward or backward, modulo the address size, modulo 2^64, and in real mode modulo 1 MiB. |
| StringLaws.OnceIsFirst | arch/xemux86.cpp:4402-4411 | Without a prefix the instruction does what a repeated one does with a count of 1, and leaves RCX alone. |
| StringLaws.WholeIs | arch/xemux86.cpp:4324-4435 | A whole instruction is the loop over the low part of RCX, or one pass without a prefix; the program counter ends up past the instruction, or where it was on a fault. |
| StringFaults.FaultMemory | arch/xemux86.cpp:4368-4372 | An iteration that faults leaves memory alone, except that a copy from unreadable to writable memory stores 0 there; memory then is the same exactly when it was 0 already. |
| StringFaults.FaultRegisters | arch/xemux86.cpp:4367-4407 | A faulting iteration keeps the accumulator, except that LODS loads 0; the flags, except that SCAS and CMPS compare with 0 what they could not read; and RCX, direction, program counter and all registers but RSI and RDI. |
| StringFaults.IndexesMove | arch/xemux86.cpp:4367-4407 | Each index register of the instruction moves by one element, modulo the address size, whether or not the access works. |
| StringFaults.FaultsExactly | arch/xemux86.cpp:4357-4413 | A repeated instruction ends in a fault exactly when some iteration is reached and faults. |
| StringFaults.WholeFault | arch/xemux86.cpp:4324-4435 | Then it is the state after the n completed iterations plus the effects of the faulting one: RCX is short by n, the index registers have moved n + 1 times, the program counter has not moved. |
| StringFaults.FaultingCopyStores | arch/xemux86.cpp:4368-4372 | REP MOVSB from an unmapped page: it faults, and yet the destination byte is 0 and both index registers have moved. |
| Arm64Machine.OpCache.Insert | arch/xemuopcache.h:45-49 | What was inserted is what is found at its address, and nothing else is found differently. |
| Arm64Machine.OpCache.Invalidate | arch/xemuopcache.h:56-64 | Nothing is found in the range afterwards, and everything outside it is found as before. |
| Arm64Machine.Arm64.NoteWrite | arch/xemuarm64.h:121-129 | Drops exactly the cached instructions that start in the reported range, whose end may wrap around, and keeps the others as they are. |
| Arm64Machine.Arm64.ExecAccess | arch/xemuarm64.cpp:453-516 | Loads, stores and pairs: registers, memory, write-back, fault and dropped entries, including what happens when only half a pair is there. |
| Arm64Machine.Arm64.Exec | arch/xemuarm64.cpp:360-569 | One decoded instruction: new registers, memory, program counter and result, and the dropped entries. |
| Arm64Laws.LoadLaw | arch/xemuarm64.cpp:453-479 | A load puts the little-endian value at base plus offset into its register, cut to 32 bits when narrow, or 0 and a fault where a byte is missing; every other register, the flags and memory stay. |
| Arm64Laws.StoreLaw | arch/xemuarm64.cpp:453-479 | A store puts its register's low bytes at base plus offset, or nothing and a fault; no register but the program counter changes. |
| Arm64Laws.PairLoads | arch/xemuarm64.cpp:480-516 | A pair load puts the value at the address into the first register and the one 4 or 8 bytes on into the second, whatever the other is. |
| Arm64Laws.PairStores | arch/xemuarm64.cpp:480-516 | A pair store puts the first register at the address and the second 4 or 8 bytes on, each where memory is there for it. |
| Arm64Laws.PairWriteBack | arch/xemuarm64.cpp:480-516 | Pre- and post-index move the base, stack pointer or register, by the offset; a pair changes nothing else but the registers it loads. |
| Arm64Laws.SavedIsRestored | arch/xemuarm64.cpp:480-516 | STP and then LDP from the same place brings both values back, into whatever two registers and whatever happened to the others between. |
| Arm64Laws.BranchLaw | arch/xemuarm64.cpp:517-545 | B, BL, BR and BLR: where they go, that BL and BLR set x30 to the next instruction and BLR reads its register first, and that nothing else changes. |
| Arm64Laws.CallReturns | arch/xemuarm64.cpp:521-549 | A RET through an x30 left alone since a BL goes on right after the call. |
| Arm64Laws.ReturnLaw | arch/xemuarm64.cpp:546-549 | RET goes where its register points, except that RET X0 goes where x30 points. |
| Arm64Laws.CompareAndBranchLaw | arch/xemuarm64.cpp:530-536 | CBZ branches when the register is 0 and CBNZ when it is not, in all 64 bits even for a W register. |
| Arm64Laws.ConditionalBranchLaw | arch/xemuarm64.cpp:138-157 | A conditional branch is taken exactly when its condition holds, each code of a single flag and its opposite spelt out; 14 and 15 always hold. |
| Arm64Laws.OtherLaw | arch/xemuarm64.cpp:550-569 | Register instructions have their effect and go on, HLT stops behind itself, an unknown word changes nothing. |
| Arm64Laws.DroppedLaw | arch/xemuarm64.cpp:453-508 | A store drops the cached instructions that start in the bytes it covers, counted from its address; nothing else drops any. |
| Arm64RegisterLaws.AddImmediateLaw | arch/xemuarm64.cpp:389-406 | ADD and SUB with an immediate compute the exact sum or difference modulo 2^64 or 2^32 and, when asked to, N, Z, C and V of it; index 31 is the stack pointer, except for a result that comes with flags, which is dropped. |
| Arm64RegisterLaws.AddRegisterLaw | arch/xemuarm64.cpp:407-422 | The same of two registers, where index 31 is 0 and is never written. |
| Arm64RegisterLaws.LogicLaw | arch/xemuarm64.cpp:423-442 | Bit by bit, AND, ORR, EOR and ANDS; ANDS sets N and Z from the result and clears C and V. |
| Arm64RegisterLaws.ShiftLaw | arch/xemuarm64.cpp:94-111 | Bit by bit, the shifted operand: left and right with zeros, right with the sign, in both widths. |
| Arm64RegisterLaws.MoveWideLaw | arch/xemuarm64.cpp:376-388 | Bit by bit, MOVZ places its 16 bits among zeros, MOVN complements that and MOVK keeps all other bits. |
| Arm64Machine.Arm64.Step | arch/xemuarm64.cpp:571-587 | Fetch, decode, execute, without the cache. |
| Arm64Laws.RunLaw | arch/xemuarm64.cpp:571-625 | Up to n steps visit states one step apart, all plain but perhaps the last, and end early only with one that is not. |
| Arm64Laws.ReportLaw | arch/xemuarm64.cpp:571-587 | What a step reports, and that one that cannot fetch its instruction changes nothing. |
| Arm64Machine.Arm64.Run | arch/xemuarm64.cpp:589-625 | From a coherent cache, when every store that writes into a cached instruction word reports its first byte, a run of n has the registers, memory, count and final result of up to n steps and leaves the cache coherent. |
| Arm64Cache.ExecuteAt | arch/xemuarm64.cpp:453-508 | An instruction changes exactly the bytes its store covers with memory behind them, each half of a pair on its own, and leaves there the bytes of the stored registers. |
| Arm64Cache.CoherenceKept | arch/xemuarm64.cpp:453-508 | Such a store leaves every cached instruction equal to what decoding current memory gives. |
| Arm64Cache.CachedRunIsSteps | arch/xemuarm64.cpp:571-625 | Running from a coherent cache and stepping agree, for every decoder, memory and number of instructions. |
| Arm64Cache.AlignedStoresCover | arch/xemuarm64.h:121-129 | Aligned word, doubleword and pair stores that do not wrap around report the first byte of every aligned word they touch. |
| Arm64Cache.AlignedRunIsClean | arch/xemuarm64.cpp:453-508 | So a run whose instructions and stores are aligned meets the condition of Run. |
| Arm64Stale.StaleExactly | arch/xemuarm64.h:121-129 | The condition is exact for memory of every shape: some program and contents make a store leave a cached instruction stale if and only if the store writes into its word without reporting its first byte. |
| Arm64Stale.StaleInMappedMemory | arch/xemuarm64.h:121-129 | For memory the manager can map, whole pages below its limit: stale entries arise if and only if the word lies below the limit, a part of the store that lies below the limit overlaps it, and its first byte is not reported; the part may be the second half of a pair that wrapped around to address 0. |
| Arm64Stale.ByteStoreDiverges | arch/xemuarm64.cpp:467-472 | A program of NOP, B and STRB, run from an empty cache: the byte store turns the NOP into a halt, stepping halts there, and the cached run executes the NOP. |
| Arm64Stale.WrappedPairDiverges | arch/xemuarm64.cpp:497-508 | An STP at the top of the address space: its second half lands at address 0 while the reported range drops nothing; resumed at 0, the cached run executes the old NOP where stepping halts. |
| Arm64Flags.AddWithCarryMeans | arch/xemuarm64.cpp:113-136 | Value, N, Z, C and V are those of the exact addition with carry, in both widths. |
| Arm64Flags.CompareDecides | arch/xemuarm64.cpp:138-157 | After a comparison the condition codes decide equality and the unsigned and signed orders. |
| Arm64Decode.ComparisonDecides | arch/xemuarm64.cpp:407-422 | A decoded CMP makes the branch conditions compare its operands, signed and unsigned, and changes no register. |
| Arm64Decode.ConstantLoaded | arch/xemuarm64.cpp:376-388 | A MOVZ and three MOVKs put any 64-bit value together out of its four parts. |
| Arm64Decode.DecodedStoreAligned | arch/xemuarm64.cpp:247-286 | For every word that decodes to a store of a word or more, a base aligned to 8 bytes makes the store aligned, as AlignedRunIsClean needs it. |
| Arm64Encoding.PairEncoding | arch/xemuarm64.cpp:247-268 | Every LDP and STP word, put together from its fields, decodes to that pair with its offset scaled and signed. |
| Arm64Encoding.SingleEncoding | arch/xemuarm64.cpp:270-286 | The same for LDR, STR and their narrower forms with an unsigned scaled offset. |
| Arm64Encoding.JumpEncoding | arch/xemuarm64.cpp:288-299 | B and BL go to the instruction's address plus four times the signed 26-bit field. |
| Arm64Encoding.ConditionalEncoding | arch/xemuarm64.cpp:301-312 | B.cond, with its signed 19-bit field. |
| Arm64Encoding.CompareEncoding | arch/xemuarm64.cpp:314-326 | CBZ and CBNZ. |
| Arm64Encoding.IndirectEncoding | arch/xemuarm64.cpp:328-346 | BR, BLR and RET. |
| Arm64Encoding.HaltEncoding | arch/xemuarm64.cpp:348-353 | Every word with 0xD4 on top halts. |
| Arm64Encoding.WideEncoding | arch/xemuarm64.cpp:175-184 | MOVN, MOVZ and MOVK, for every value, place and register. |
| Arm64Encoding.AddImmediateEncoding | arch/xemuarm64.cpp:186-200 | ADD, ADDS, SUB and SUBS with a 12-bit immediate, shifted by 12 or not. |
| Arm64Encoding.AddressEncoding | arch/xemuarm64.cpp:202-216 | ADR and ADRP, with the offset in two parts. |
| Arm64Encoding.PcRelativeIs | arch/xemuarm64.cpp:443-452 | ADR adds its offset to the instruction's address; ADRP adds pages to that address with its low 12 bits cleared. |
| Arm64Encoding.AddRegisterEncoding | arch/xemuarm64.cpp:218-230 | ADD, ADDS, SUB and SUBS of registers, with the second one shifted. |
| Arm64Encoding.LogicEncoding | arch/xemuarm64.cpp:232-245 | AND, ORR, EOR and ANDS of registers, with the second one shifted; the inversion bit is not looked at. |
| X86Blocks.TranslateBlock | arch/xemux86.cpp:2108-2141 | The loop builds the block of at most 256 instructions: each is what is decoded where the one before ends; only the last is a jump, call, return or other terminator, or the fault marker where nothing can be decoded, and it is one of these unless there are 256; the block ends where the last instruction does. |
| X86Blocks.DecodeLocal | arch/xemux86.cpp:1424-1475 | Decoding with fetches of 1, 2, 4 or 8 bytes depends on nothing but the bytes read before the first fetch that fails. |
| X86Blocks.OpsLocal | arch/xemux86.cpp:2108-2141 | A block, its end and its reach depend on nothing beyond what its translation looked at. |
| X86Code.BlockCache.Invalidate | arch/xemutb.h:251-263 | Removes exactly the blocks that overlap the range. |
| X86Code.X86Code.Lookup | arch/xemux86.cpp:4597-4611 | For any program counter, mapped or not: returns the cached or a new block and files a new one under exactly its pages; every block with an instruction stays filed under all of its; from fresh blocks the one returned is what translating current memory gives. |
| X86Code.X86Code.NoteWrite | arch/xemux86.cpp:454-468 | Through the page filter: removes every block that holds a written byte and no other block that holds any byte; a write that would reach the end of the address space or wrap around removes none. |
| X86Code.NothingToDrop | arch/xemux86.cpp:454-468 | When no page of a write is a code page, no block holds a written byte. |
| X86Code.X86Code.Store | arch/xemux86.cpp:2241-2254 | A store keeps every remaining block equal to a fresh translation, when it misses the bytes that truncated blocks looked at beyond their end. |
| X86Code.PrunedStaysFresh | arch/xemux86.cpp:2363-2383 | The same for any blocks and any bytes. |
| X86Stale.TailGoesStale | arch/xemux86.cpp:2117-2127 | The exception is real: for every decoder that takes operand-size prefixes, NOP and RET as x86 does, wherever a translation ends and whatever page end beyond that it stopped at, a RET stored to any byte between leaves the block cached and stale. |
| X86Stale.CutOffGoesStale | arch/xemux86.cpp:2117-2127 | An input: 0x0F in the last byte of a page gives an empty block, which stays cached and stale when that byte becomes a RET. |
| X86Stale.OutsideTailStaysFresh | arch/xemux86.cpp:2117-2127 | And it is the only one: a store anywhere else drops the block or leaves it fresh. |
| X86Stale.PagesOfEmptyBlock | arch/xemux86.cpp:4606-4609 | A block without instructions is filed under at most one page, except at address 0, where the loop goes through all 2^52 pages. |
| LoaderRings.Loader.WritePtr | os/xemuwindows.cpp:216-223 | A pointer write changes that pointer and no other byte, keeps the low half in a 32-bit process, and changes nothing when bytes are missing. |
| LoaderRings.Loader.LinkList | os/xemuwindows.cpp:862-883 | Builds the well-formed ring for any list of entries, the empty one included, touching only links. |
| LoaderRings.Loader.LdrAppend | os/xemuwindows.cpp:1358-1368 | Turns the ring of a list into the ring of that list with the new link at the tail. |
| LoaderRings.Loader.LdrMoveToFront | os/xemuwindows.cpp:1448-1473 | Turns the ring of a list into the ring of the list with one entry in front and the others in their order; null arguments change nothing. |
| LoaderRings.Loader.FindLdrEntryByBase | os/xemuwindows.cpp:1415-1446 | Returns the first entry, among the first 128, that names the module base, or 0. |
| LoaderRings.FirstWithBaseIs | os/xemuwindows.cpp:1427-1445 | What "first among the first 128" means, both ways. |
| LoaderRings.RingFramed | os/xemuwindows.cpp:1358-1368 | A ring stays one while its links' bytes do. |
| LoaderLists.RingApart | os/xemuwindows.cpp:1410-1412 | An operation on one ring leaves every ring with links apart from it a ring. |
| LoaderLists.ModuleLists.Build | os/xemuwindows.cpp:1539-1541 | The three lists are rings through the same entries and no two links overlap. |
| LoaderLists.ModuleLists.AddLinks | os/xemuwindows.cpp:1410-1412 | Adding a module extends all three rings at the tail although they share its entry. |
| LoaderLists.ModuleLists.PromoteSystemModules | os/xemuwindows.cpp:1875-1891 | When both modules are listed, ntdll is first and kernel32 second in initialization order; the other two rings are unchanged. |
| LoaderLists.NamesFound | os/xemuwindows.cpp:1415-1446 | The module promoted is the first, among the first 128, whose entry holds the base asked for. |
| LoaderLists.ListsWalked | os/xemuwindows.cpp:1476-1541 | Walking any of the three lists by pointers at the offsets of the 32-bit or the 64-bit loader data, from the head and back to it, meets exactly the entries in their order, and backwards the same. |
| SehDispatch.Seh.Dispatch | os/xemuwindows.cpp:555-629 | Dispatches exactly when a handler exists past the nested records, the nesting is below 16 after reclaiming, and the stack has room; refuses once at the re-raised fault; a refusal leaves registers and memory alone. The stack of dispatches stays nested and CONTEXTs in flight stay what they are. |
| SehDispatch.Seh.Reclaim | os/xemuwindows.cpp:578-581 | Drops exactly the dispatches whose staged region the stack pointer has left behind. |
| SehDispatch.Seh.FindHandler | os/xemuwindows.cpp:587-610 | Walks past nested records to the first other one. |
| SehSpec.SearchSkips | os/xemuwindows.cpp:601-610 | Only records of dispatches in flight are skipped, and the search stops at the first that is not one unless it has skipped 32; it fails exactly at such a record, reached before that, whose establisher cannot be read. |
| SehDispatch.Deeper | os/xemuwindows.cpp:578-629 | A dispatch staged below the reclaimed stack keeps at most 16 of them, strictly deeper each, with CONTEXTs that never overlap. |
| SehDispatch.Seh.BuildFrame | os/xemuwindows.cpp:631-679 | Succeeds exactly when the span below the stack pointer is committed; then, each at its own address in memory, the exception record holds code, faulting program counter, access kind and fault address, the CONTEXT every register, segment, flag and the program counter of the fault, the nested record leads to the chain, and fs:[0] leads to the nested record; failure writes nothing. |
| SehLaws.RoomIs | os/xemuwindows.cpp:636-645 | That room is there exactly when the stack pointer is at least 0x35C and every byte is committed from 0x90 below the CONTEXT, which takes the 0x2CC bytes below the stack pointer, aligned down to 16, up to the stack pointer. |
| SehSpec.StagingOrder | os/xemuwindows.cpp:636-645 | CONTEXT, exception record and call frame are aligned, disjoint and below the stack pointer; a stack pointer too low for them is caught by the wrap-around test. |
| SehDispatch.Seh.WriteContext | os/xemuwindows.cpp:681-702 | All seventeen fields are stored, the rest of the CONTEXT is zero, and nothing outside it changes. |
| SehDispatch.Seh.LoadContext | os/xemuwindows.cpp:704-716 | General registers, flags, stack pointer and program counter come from the CONTEXT; nothing else changes. |
| SehSpec.ContextRoundTrip | os/xemuwindows.cpp:681-716 | Loading an untouched CONTEXT brings back the fault's eight general registers, flags and program counter in 32 bits and leaves the rest. |
| SehDispatch.Seh.CallHandler | os/xemuwindows.cpp:718-745 | Pushes the four arguments and the trap address, each where memory is there for it and around the end of the address space if need be, and jumps to the record's handler. |
| SehDispatch.Seh.HandlerReturned | os/xemuwindows.cpp:747-798 | Continue: fs:[0] and, from an untouched CONTEXT, the registers are restored. Search: the next record's handler is called. Exhausted: the exact register snapshot and the saved fs:[0] head are restored, and a trap terminates while a fault is re-raised. |
| SehLaws.HandlerSees | os/xemuwindows.cpp:555-745 | Entering a handler, with fs:[0] elsewhere: [sp] is the trap, [sp+4] leads to a record with the code at 0, the faulting program counter at 0xC, 2 or 0 at 0x10 and the fault address at 0x18, [sp+8] is its establisher record, [sp+0xC] leads to a CONTEXT with every register and segment of the fault at its own offset; fs:[0] leads to a record that leads to the old chain; nothing outside that span changes. |
| SehLaws.ContextTakenBack | os/xemuwindows.cpp:704-766 | A handler that continues execution gets exactly the registers, flags and program counter that its CONTEXT holds by then, edited or not, from the offsets they were put at. |
| SehLaws.NextHandlerSees | os/xemuwindows.cpp:768-798 | A handler that passes the exception on is followed by that of the next record, entered with the same exception record and CONTEXT and that record as establisher. |
| SehLaws.NoHandlerThere | os/xemuwindows.cpp:611-620 | A chain ends at 0, at 0xFFFFFFFF and at a record that is not all there. |
| SehDispatch.IntactAfter | os/xemuwindows.cpp:555-679 | A dispatch overwrites no CONTEXT of the dispatches already in flight. |
| SehRuns.FrameKeptThrough | os/xemuwindows.cpp:555-798 | Through any run of guest code, nested faults and handler returns, a dispatch in flight keeps its frame, saved registers and saved chain head included, and everything below it. |
| SehRuns.SearchEndsInFault | os/xemuwindows.cpp:555-798 | Whatever happens between, when its chain is exhausted at last the exact registers of the fault are back, the stack of dispatches is what the fault left of it, fs:[0] is what the fault saw, and the fault is raised again or the trap terminates. |
| SehRuns.ContinueEndsInFault | os/xemuwindows.cpp:555-798 | And when a handler continues execution with the CONTEXT untouched, the guest goes on with the fault's general registers, flags and program counter. |

## Left out

- Memory manager: Qt signals, translated messages, callbacks, region queries by value, null buffers passed to read and write, and host allocation failure (a fresh buffer always exists, so the rollbacks it would trigger do not arise).
- Memory.MemoryManager.Read: sizes above 512 MiB fail as in the source; the host pointer and integer-conversion checks have no counterpart.
- Mcb.McbArena.MemFree: a segment that is not a block's is not modelled, nor are headers that the guest has overwritten; the same goes for resizing.
- Arith128.DivideUnsigned128: the 8-, 16- and 32-bit DIV and IDIV forms, which use the host's operators and do not check for overflow, are not modelled.
- Alu.X86Alu.AluCompute: shifts, rotates, the flags of multiplication beyond CF and OF, and code run on the host processor for undefined flags are not modelled.
- Arm64Machine.Arm64.Run: runs without an instruction limit are not modelled, since they need not end; mnemonics and code hooks are left out.
- X86Code.X86Code.Lookup: what `run` does when a block is dropped or left in the middle of its own execution, real-mode address wrap-around in the block cache, the real-mode code map, and stores that do not report themselves.
- Arm64Decode: an arithmetic right shift of a 32-bit value by 32 or more, which the source's language leaves undefined, shifts by its amount.
- X86Blocks: the x86 instruction tables.
- StringSpec.ResumedIsWhole: single-step traps; the instruction must not overwrite itself.
- LoaderRings.Loader.LdrMoveToFront: entries outside the ring, and rings the guest has corrupted, are not modelled.
- LoaderLists.ModuleLists.Build: the entries' names, sizes and entry points are not modelled, only their links and module bases.
- SehDispatch.Seh.Dispatch: what is staged is stated for an fs:[0] cell outside the staged span; a cell inside it would overwrite its own records.
- SehDispatch.IntactAfter: an fs:[0] cell inside a CONTEXT in flight or inside the span being staged is excluded; there the new head of the chain overwrites part of it.
- SehRuns.FrameKeptThrough: what guest code does between two events is unrestricted but for the emulator's own stack of dispatches, which it cannot reach.
- 64-bit Windows exceptions, process and thread set-up tables, file formats, the DOS file API, BIOS services, Linux and BSD system calls, MMX, SSE and x87.
