# psprism verification model

A Dafny model of the parts of psprism that have to agree with each other, with
proofs that they do. psprism recompiles PSP (Allegrex) binaries to C++; around
the recompiler stand a reference interpreter, relocation tooling, a runtime with
a guest heap and a guest execution lock, a bridge for patches, and disc and
project tooling.

Verify with `dafny verify dfyconfig.toml` (Dafny 4.11).

How the model is laid out:

- **Machine.** `Words`, `Machine` and `Vfpu` give 32-bit words as integers with
  explicit wrap-around, the guest machine as a value, and the vector unit. Host
  floating point is a record of unknown functions (`FloatUnit`), so results hold
  for any host arithmetic; conversions to integers are computed on the bits of
  the float (`FloatConversion`). `State` is the runtime's mutable object, each method
  tied to the value specification.
- **Recompiler.** `Decoder`, `Interpreter` and `Emitter` are the decoder, the
  step semantics and the lowering. The printed C++ is a small statement language
  with an evaluator. `Simulation`, `GeneratedRun` and `FlowFrames` prove that
  evaluating what is emitted is interpreting, for one word, one step and whole
  runs; `VectorTransfers` tells relocated vector loads and stores apart. `ElfImage`, `ControlFlow` and `DispatcherCompleteness` cover static
  discovery of block entries.
- **Memory.** `MemoryModel` states what loads and stores promise, `ByteLoops` and
  `EndianSwaps` what big-endian hosts run instead.
- **Relocations.** `RelocationCodec`, `RelocationApply` and `RelocatedPairs`;
  `LoadedCode` and `LoadedFlow` join them to the generated run and to block
  discovery.
- **Runtime.** `Alignment`, `GuestHeap`, `GuestHeapRuns`, `GuestLock` and `Eabi`.
- **Tooling.** `ByteWrites`, `IsoDirectory`, `IsoPatch`, `IsoWrites`, `IsoLayout`
  and `IsoReadBack` for the ISO patcher; `Publish`, `Sha256`, `CodeMap` and
  `SaveData`.

Where the code does not do what its comments or names suggest, the model follows
the code and says exactly when it does:

- `emit_cpp` lowers unrelocated J and JAL for preferred base 0 whatever the
  image says, so such jumps are right only for memory bases on a 256 MiB
  boundary (`Simulation.DefaultBaseAgreesWhere`, `Simulation.DefaultBaseMisses`).
- `jalr` that names one register twice jumps to its own return address in
  generated code (`Simulation.JalrConditionIsExact`, `Simulation.JalrMisses`).
- `round.w.s` rounds halves away from zero in the interpreter and to the even
  neighbour in generated code, so 0.5 gives 1 and 0. Outside 32 bits generated
  code gives 0x80000000 for it and for `trunc.w.s`, where the interpreter's cast
  is up to the host (`Simulation.FloatConditionIsExact`,
  `Simulation.RoundDiffersOnHalf`).
- A relocated vector load or store keeps the displacement it was translated with
  in generated code, while the interpreter reads the relocated word. Under a LO16
  the two agree exactly if guest base plus target address is a multiple of 64 KiB,
  which the usual load address 0x08804000 is not
  (`Simulation.TransferConditionIsExact`, `LoadedCode.LowOnTransferIsExact`,
  `Simulation.TransferMisses`).
- A reserved word ends generated code with an invalid pc and the interpreter with
  an unsupported instruction.
- The ISO patcher skips padding when a file did not fit and its old extent
  happens to be the next free sector (`IsoWrites.PaddingIsExact`). The image then
  ends inside a sector if that is the last file appended
  (`IsoWrites.WholeImageIsExact`, `IsoWrites.OneByteEndsRagged`); it reads back
  all the same.
- A thread stack size that wraps when it is rounded to 64 bytes, such as
  0xffffffff, gets an address without room (`GuestHeapRuns.StackRoomIsExact`,
  `GuestHeapRuns.StackWithoutRoom`). The heap cursor would be rewound in the same
  way, but with the runtime's alignments it never comes near enough to 2^32
  (`GuestHeapRuns.CursorNeverWraps`).
- The two parameter-file readers differ on values with an embedded NUL
  (`SaveData.ReadersAgreeExactly`, `SaveData.ReadersDiffer`).

Dafny proves what is stated here about the model; the C++ itself was read, not
executed.

## Model

| member | source | states |
|---|---|---|
| GeneratedRun.RunsAgree | src/emitter/cpp_output.cpp:36-90 | For every image, start state, return address and step count: as long as the executed words still equal the image up to relocation and are lowered faithfully, the generated `run` loop and repeated `interpret_allegrex` end in the same machine; on a reserved word they differ only in stop reason and fault report |
| GeneratedRun.StepsAgree | src/emitter/cpp_output.cpp:71-86 | One turn of the generated loop is one interpreted step, delay slot and hardwired zero register included, and keeps what the next turn needs |
| GeneratedRun.EmittedAgrees | src/emitter/instruction.cpp:161-1224 | For every decodable word, relocated or not, running the emitted statement is executing the fetched word, up to register 0, whenever the three conditions below hold and the fetched word differs at most in fields that generated code reads again (`SameShape`): none in an unrelocated word, and in a relocated vector transfer none that the transfer reads |
| GeneratedRun.ReservedStepsAgree | src/emitter/instruction.cpp:173-177 | A reserved word stops generated code with an invalid pc and the interpreter with an unsupported instruction, all else equal |
| GeneratedRun.FaithfulWords | src/emitter/cpp_output.cpp:44-47 | What can be read off word, address and base alone to know that an instruction is lowered faithfully: for an unrelocated J or JAL any base on a 256 MiB boundary below which the code stays |
| LoadedCode.LoadedRunsAgree | include/psprecomp/relocation.hpp:299-390 | The pipeline as one statement: relocations encoded as a compact stream and applied from it, then the generated `run` loop and the interpreter agree on every run over loaded words that are not overwritten, that their records suit and that are lowered faithfully; other words of the code sections may hold anything, relocated pointers included |
| LoadedCode.CodeStaysIntact | include/psprecomp/relocation.hpp:226-293 | After a successful relocation every code word that its records suit keeps the shape that generated code relies on, and if it is a branch it is exactly what block discovery computes with, R_MIPS_26 applied to J and JAL |
| LoadedCode.LowOnTransferIsExact | include/psprecomp/vfpu.hpp:415-485 | A vector transfer under a LO16 with aligned guest base and target reads like the translated one if and only if their sum is a multiple of 64 KiB |
| LoadedFlow.LoadedRunsLandOnEntries | src/emitter/analysis.cpp:131-303 | Over every such run control moves at every step to the next word or to a block entry, as long as relocated jumps stay in reach and jr and jalr go to entries |
| LoadedFlow.PointersHaveEntries | src/emitter/analysis.cpp:276-301 | After relocation a R_MIPS_32 word outside code is a guest address that has an entry if it is executable: jumps through it are covered |
| LoadedFlow.PairsHaveEntries | src/emitter/analysis.cpp:227-275 | The same for the address that a relocated HI16 and LO16 pair spells |
| GeneratedRun.Run | src/emitter/cpp_output.cpp:58-90 | The emitted loop, preferred-base prologue and step budget included, computes the specified run |
| GeneratedRun.EmitCases | src/emitter/cpp_output.cpp:36-50 | The two nested loops give one case per code word of the image, later sections winning |
| Simulation.JumpConditionIsExact | src/emitter/instruction.cpp:82-96 | The target baked in for an unrelocated J or JAL is where the CPU jumps if and only if base and preferred base differ by exactly the difference of the two 256 MiB regions |
| Simulation.DefaultBaseAgreesWhere | src/emitter/cpp_output.cpp:42-47 | With the default preferred base 0 the baked target is right exactly for memory bases on a 256 MiB boundary |
| Simulation.DefaultBaseMisses | src/emitter/cpp_output.cpp:42-47 | A concrete unrelocated J that the default base sends elsewhere |
| Simulation.OwnBaseAgrees | src/emitter/instruction.cpp:82-96 | Baking in the memory base itself is always right |
| Simulation.JalrConditionIsExact | src/emitter/instruction.cpp:300-308 | jalr is lowered faithfully if and only if it does not overwrite its own target register, or that register already holds the return address |
| Simulation.JalrMisses | src/emitter/instruction.cpp:300-308 | jalr $31, $31 at address 0 with 0x1000 in $31 goes to 8 in generated code |
| Simulation.FloatConditionIsExact | src/emitter/instruction.cpp:806-967 | Scalar float operations are lowered faithfully if and only if: for round.w the operand is in the 32-bit range and not half-way above an even integer, for trunc.w it is in range, or, out of range, the host cast gives 0x80000000 |
| Simulation.RoundDiffersOnHalf | include/psprecomp/interpreter.hpp:283-286 | round.w.s of 0.5 gives 1 in the interpreter and 0 in generated code |
| FloatConversion.RoundCastIsExact | include/psprecomp/runtime.hpp:824-848 | For every word: std::round and a cast give what rounded_word in mode 0 gives exactly under that condition on sign, exponent and fraction |
| FloatConversion.TruncateCastIsExact | include/psprecomp/interpreter.hpp:287-290 | The same for std::trunc and mode 1 |
| FloatConversion.RoundingIsNearest | include/psprecomp/runtime.hpp:826-829 | Both roundings give a nearest integer of the fraction; half-way one goes away from zero, the other to the even neighbour |
| Simulation.BranchIfAgrees | src/emitter/instruction.cpp:68-80 | Conditional branches, likely ones nullifying their slot, do what the interpreter does |
| Simulation.RegimmAgrees | src/emitter/instruction.cpp:590-617 | bltz, bgez and their linking and likely forms agree, the link written before the test as the interpreter does |
| Simulation.CompareBranchAgrees | src/emitter/instruction.cpp:630-677 | The eight comparing branches agree for relocated and unrelocated offsets |
| Simulation.ImmediateAgrees | src/emitter/instruction.cpp:728-805 | Immediate operations agree, the immediate re-read from guest memory when the word is relocated |
| Simulation.HiLoAgrees | include/psprecomp/interpreter.hpp:105-217 | Multiply, divide and accumulate into HI and LO agree, division by zero and overflow included |
| Simulation.Special3Agrees | src/emitter/instruction.cpp:1110-1218 | ext, ins, seb, seh, wsbw, wsbh, bitrev agree |
| Simulation.MemoryLoadsAgree | src/emitter/instruction.cpp:968-1055 | All loads, unaligned and linked ones included, agree, register 0 discarded |
| Simulation.MemoryStoresAgree | src/emitter/instruction.cpp:1056-1109 | All stores agree, sc storing and setting its register |
| Simulation.VectorAgrees | src/emitter/instruction.cpp:123-159 | The vector call and its guarded fast path agree with the interpreter's execute_vfpu |
| Simulation.TransferConditionIsExact | src/emitter/instruction.cpp:182-187 | For a relocated vector load or store with the same upper half: the emitted call does what the interpreter does with the fetched word on every machine with register 0 zero if and only if the two words agree on the bits that the transfer reads |
| Simulation.TransferMisses | include/psprecomp/vfpu.hpp:415-427 | lv.s S000, 0($2) relocated for 0x08804000: the interpreter loads from $2 + 0x4000, generated code from $2 |
| VectorTransfers.Separate | include/psprecomp/vfpu.hpp:415-485 | Two transfers that differ in a bit that is read do different things on some machine: displacement, register, row or column, and direction |
| VectorTransfers.AlikeAgree | include/psprecomp/vfpu.hpp:415-485 | Two that agree on those bits do the same on every machine, masks and faults included |
| VfpuProofs.GuardedLoweringAgrees | include/psprecomp/vfpu.hpp:509-565 | With identity prefixes the prefix-free path gives the state of execute_vfpu for add, sub, mul, dot and mov at every size and register choice, aliasing included |
| VfpuProofs.ReadAgrees | include/psprecomp/vfpu.hpp:214-241 | The fast vector read equals the general one for every register number and size |
| VfpuProofs.WriteAgrees | include/psprecomp/vfpu.hpp:243-266 | The masked fast write equals the general one |
| VfpuMatrix.MatrixRoundTrip | include/psprecomp/vfpu.hpp:302-342 | A matrix of side 2 to 4 written to the register file reads back, and registers outside its block are unchanged |
| VfpuMatrix.WriteMatrix | include/psprecomp/vfpu.hpp:323-342 | The nested loops leave every cell in its register and touch nothing else |
| VfpuMatrix.CellsAreApart | include/psprecomp/vfpu.hpp:329-339 | No two cells of a block share a register, transposed or not |
| GuestState.State.Interpret | include/psprecomp/interpreter.hpp:14-418 | The in-place step on the state object is the specified step: fetch, delayed branch, fault and unsupported exits |
| GuestState.State.ExecuteMemory | include/psprecomp/interpreter.hpp:381-410 | Loads and stores on the object, through the fast paths, are the specified ones |
| GuestState.State.Load32 | include/psprecomp/runtime.hpp:349-398 | The word fast path and the region search agree with mapped_address, alignment fault included |
| GuestState.State.Store | include/psprecomp/runtime.hpp:457-568 | A store through either path writes the little-endian bytes to the mapped region or faults |
| GuestState.State.Locate | include/psprecomp/runtime.hpp:198-224 | The host pointer of an address is its region and offset; the whole width lies inside |
| MemoryModel.AliasesAgree | include/psprecomp/runtime.hpp:177-220 | Cached, uncached and kernel addresses of one byte load and store alike |
| MemoryModel.StoreThenLoad | include/psprecomp/runtime.hpp:263-568 | A store is read back, cut to its width, without a fault |
| MemoryModel.StoreFrames | include/psprecomp/runtime.hpp:457-568 | A store leaves every load from other canonical bytes unchanged, under any alias |
| MemoryModel.UnalignedRoundTrip | include/psprecomp/runtime.hpp:616-770 | At any mapped address swl with swr and then lwl with lwr is the identity whatever the register held |
| MemoryModel.StoreUnalignedWrites | include/psprecomp/runtime.hpp:697-770 | swl with swr writes exactly the four bytes of the word |
| ByteLoops.LoadWordLeftByBytes | include/psprecomp/runtime.hpp:642-652 | The byte loop of a big-endian host merges the same bytes as the memcpy form on mapped addresses |
| ByteLoops.LoadWordRightByBytes | include/psprecomp/runtime.hpp:681-691 | The same for lwr |
| ByteLoops.StoreWordLeftByBytes | include/psprecomp/runtime.hpp:726-733 | The same for swl |
| ByteLoops.StoreWordRightByBytes | include/psprecomp/runtime.hpp:760-768 | The same for swr |
| ByteLoops.WithByteReplaces | include/psprecomp/runtime.hpp:643-648 | Masking, shifting and or-ing one byte replaces exactly that byte of the register |
| EndianSwaps.SwappedAccessesAgree | include/psprecomp/runtime.hpp:301-568 | memcpy in the order of a big-endian host with byte_swap or byte_swap16 loads and stores what the little-endian forms do, faults included |
| EndianSwaps.SwapWordReverses | include/psprecomp/runtime.hpp:292-297 | The masks, shifts and ors of byte_swap reverse the four bytes |
| RelocationCodec.DecodeUndoesEncode | src/emitter/relocations.cpp:27-153 | For every record list decoding the encoded bytes yields those records and consumes all bytes, at most 10 per record |
| RelocationCodec.RecordRoundTrip | include/psprecomp/relocation.hpp:79-211 | Each record is decoded from its own bytes whatever follows; a one-byte form never is 0xff |
| RelocationCodec.CompactRelocations | src/emitter/relocations.cpp:35-151 | The encoder's loop with its previous offsets and metadata emits the specified bytes |
| RelocationApply.CompactRelocationDecoder.Next | include/psprecomp/relocation.hpp:79-198 | On arbitrary bytes a successful call moves the cursor forward inside the buffer and updates the remembered state as specified; a failure invalidates the decoder |
| RelocationApply.AppliersAgree | include/psprecomp/relocation.hpp:217-390 | The compact applier on the encoded list gives the result code and memory of the plain applier on the list, for every list, segment table and memory, errors included |
| RelocationApply.PartnersAgree | include/psprecomp/relocation.hpp:338-366 | Looking ahead with a copied decoder finds the LO16 that the plain applier finds |
| RelocationApply.ApplyPspRelocations | include/psprecomp/relocation.hpp:217-294 | Patching memory in place computes the specified memory and outcome |
| RelocationApply.ApplyCompactPspRelocations | include/psprecomp/relocation.hpp:299-390 | The same for the compact stream |
| RelocatedPairs.PairsSpellTheAddress | include/psprecomp/relocation.hpp:226-293 | For distinct patch words, each HI16 and its first following LO16 of the same segment spell the original address plus guest base plus target address, and opcode halves stay |
| RelocatedPairs.PairsMeetDiscovery | src/emitter/analysis.cpp:227-275 | Static discovery finds the address of every such pair, and the relocated pair spells the guest base plus that address |
| RelocatedPairs.EveryWordRelocated | include/psprecomp/relocation.hpp:226-293 | After a run over distinct words each word is its own original word relocated |
| RelocatedPairs.UnpatchedBytesKept | include/psprecomp/relocation.hpp:226-293 | Bytes that no record patches are unchanged, whatever the result code |
| DispatcherCompleteness.DispatcherIsComplete | src/emitter/analysis.cpp:131-303 | After a direct branch of an unmodified image and its slot, or a nullified likely branch, the next pc is a block entry if it is executable, even if the branch itself fills the slot of another |
| DispatcherCompleteness.RunsLandOnEntries | src/emitter/analysis.cpp:131-303 | Over whole runs: at every step control moves to the next word or to a block entry, if it is executable at all, as long as branches are those of the image and jr and jalr go to entries |
| DispatcherCompleteness.StepLandsOnEntry | src/emitter/analysis.cpp:131-303 | One step from a state whose pending branch, if any, waits for an entry leaves such a state and moves to the next word or to an entry |
| DispatcherCompleteness.ReturnsAreEntries | src/emitter/analysis.cpp:170-197 | The return address any call leaves, jalr included, is a block entry if it is executable |
| DispatcherCompleteness.DiscoveryCommutes | src/emitter/analysis.cpp:81-112 | The run-time target of the relocated branch is the guest base plus the statically discovered target |
| DispatcherCompleteness.PlainStepFallsThrough | src/emitter/format.cpp:118-120 | A word without the delayed-branch flag goes to pc + 4, or to the target of the branch whose slot it fills |
| ControlFlow.EveryBranchCovered | src/emitter/analysis.cpp:131-303 | Every branch of the image has its return point and its direct target among the entries |
| ControlFlow.FoundAreEntries | src/emitter/analysis.cpp:131-303 | Every executable address that a pass comes across is an entry: the entry point, those of the code map, each HI16 and LO16 pair, each R_MIPS_32 pointer, and the raw words of an image without relocations |
| ControlFlow.PotentialBlockEntries | src/emitter/analysis.cpp:131-303 | The set-filling passes compute the specified entry set |
| ControlFlow.JumpRelocationBases | src/emitter/analysis.cpp:60-79 | A pc has a base if and only if some R_MIPS_26 record with known segments patches it, and the base is the target segment address of the last such record |
| FlowFrames.DirectBranchOutcome | include/psprecomp/interpreter.hpp:40-49 | A direct branch is pending, falls into its slot, or skips it, and does nothing else to control flow |
| GuestHeapRuns.RunsAreSound | refract/src/runtime.cpp:744-794 | Over every permitted run of allocations, frees and stacks: no byte has two owners, the cursors never cross, heap bytes are conserved up to cursor padding, stacks stay above the cursor |
| GuestHeapRuns.ConfiguredRunsAreSound | refract/src/runtime.cpp:1276-1288 | In particular from the configured allocator, the gap below the image in its free list, for every machine that has room for the image |
| GuestHeapRuns.FreeLeavesMergedList | refract/src/runtime.cpp:768-787 | After a free the list is ascending, no two blocks touch, and it owns the freed bytes besides the old ones |
| GuestHeapRuns.LiveBlocksApart | refract/src/runtime.cpp:744-794 | Live blocks overlap no other live block, no free block and no stack |
| GuestHeapRuns.AllocatedIsAligned | refract/src/runtime.cpp:744-766 | With an aligned memory base every returned address is aligned |
| GuestHeapRuns.CoalesceKeeps | refract/src/runtime.cpp:776-786 | The merging loop keeps order and owners and leaves gaps |
| GuestHeapRuns.CursorWrapsExactly | refract/src/runtime.cpp:66-68 | Aligning the heap cursor stays above it exactly when it does not wrap |
| GuestHeapRuns.StackRoomIsExact | refract/src/runtime.cpp:788-794 | A stack that is handed out has room for the requested size if and only if rounding the size up to 64 bytes does not wrap |
| GuestHeapRuns.StackWithoutRoom | refract/src/stubs/kernel/sceKernelCreateThread.cpp:5-6 | A requested size of 0xffffffff gets the old stack cursor and no room |
| GuestHeapRuns.CursorNeverWraps | refract/src/runtime.cpp:744-766 | In no sound state does an alignment up to the memory base, so 8 or 64, wrap the heap cursor |
| Alignment.AlignsUp | refract/src/runtime.cpp:66-68 | The masked sum is the next multiple of a power of two modulo 2^32 |
| GuestHeap.Allocator.Allocate | refract/src/runtime.cpp:744-766 | The first block that fits is split in place, otherwise the cursor moves, otherwise 0 is returned |
| GuestHeap.Allocator.Free | refract/src/runtime.cpp:768-787 | Push, sort and merge in place |
| GuestHeap.Allocator.AllocateThreadStack | refract/src/runtime.cpp:788-794 | The stack cursor moves down by the rounded size or nothing changes |
| GuestHeap.FirstFit | refract/src/runtime.cpp:746-751 | The chosen block fits and no earlier one does |
| GuestLock.InterleavingsAreSafe | refract/src/runtime.cpp:882-943 | In every interleaving of acquire, release, nested pauses and exit at most one thread has guest_execution_locked |
| GuestLock.StartedInterleavingsAreSafe | refract/src/runtime.cpp:882-943 | In particular in every interleaving from the initial state of any number of threads |
| GuestLock.StepIsSafe | refract/src/runtime.cpp:882-943 | Each step keeps: one holder at most; before exit, scopes nested properly and waiting tickets exactly those after the one served |
| GuestLock.EntersInTurn | refract/src/runtime.cpp:882-895 | Before exit a waiter with ticket t enters after exactly t - serving releases |
| GuestLock.EarlierTicketFirst | refract/src/runtime.cpp:882-895 | Before exit nobody enters before an earlier ticket |
| GuestLock.SomeoneCanEnter | refract/src/runtime.cpp:885-888 | Before exit a free lock with waiters has a waiter that can enter: no ticket is lost |
| GuestLock.ExitOnlyUnlocks | refract/src/runtime.cpp:889-903 | After exit the unbalanced releases of failed re-acquires give the lock to nobody |
| Eabi.ArgumentsRoundTrip | include/psprecomp/patch.hpp:601-693 | Whatever is injected without a fault is extracted again, from every later state that kept the argument registers and stack words |
| Eabi.CalleeGetsArguments | include/psprecomp/patch.hpp:857-886 | The callee entered through the bridge extracts exactly the caller's arguments |
| Eabi.CountForetellsStack | include/psprecomp/patch.hpp:696-719 | The compile-time count gives the stack words that injection uses although it advances the register cursor on overflow too |
| Eabi.InjectTouchesOnly | include/psprecomp/patch.hpp:653-693 | Injection writes general registers 4 to 11, float registers 12 to 19 and the counted stack words, and no other byte under any alias |
| Eabi.CallerIsRestored | include/psprecomp/patch.hpp:824-906 | Stack pointer, return address, pc and pending branch come back on every path whatever the callee did |
| Eabi.AbiCursor.Inject | include/psprecomp/patch.hpp:653-693 | The cursor object moves as specified while one argument is placed |
| Eabi.InjectArguments | include/psprecomp/patch.hpp:721-726 | Placing the arguments one by one is the specified injection |
| Eabi.StackWordsForArguments | include/psprecomp/patch.hpp:714-719 | Counting the arguments one by one is the specified count |
| IsoReadBack.PatchPreservesLayout | src/iso_patch.cpp:181-291 | For an image the reader accepts with disjoint extents, patching distinct files succeeds, its directories read back with exactly the replaced records changed, and the image stays a whole number of sectors if and only if the last appended file is padded or needs no padding |
| IsoReadBack.FileKept | src/iso_patch.cpp:217-277 | Every file that is not replaced reads back from its old place with its old bytes |
| IsoReadBack.ReplacementReadsBack | src/iso_patch.cpp:240-277 | Every replaced file reads back as its new content, in its old extent if it fits and behind the old image otherwise, extent and size stored in both byte orders; only an appended empty file may lie behind an end inside a sector |
| IsoReadBack.VolumeReadsBack | src/iso_patch.cpp:279-284 | The declared volume size is the sector count of the grown image, in both byte orders, a partly filled last sector counted |
| IsoReadBack.TreeReadBack | src/iso.cpp:160-228 | Re-walking the patched image finds every record with its old name and place |
| IsoReadBack.RecordsApart | src/iso_patch.cpp:139-174 | Two records of the tree never share a byte |
| IsoLayout.StrictWalk | src/iso_patch.cpp:110-177 | The patcher's index holds what the reader's stricter walk finds |
| IsoWrites.PatchIsSeparate | src/iso_patch.cpp:256-284 | No write of a patch meets another |
| IsoWrites.PaddingIsExact | src/iso_patch.cpp:248-267 | The written content fills whole sectors unless the file did not fit and its old extent happens to be the next free sector |
| IsoWrites.WholeImageIsExact | src/iso_patch.cpp:246-284 | The patched image is a whole number of sectors if and only if the last file appended with any content is not appended at its own old extent or fills its sectors |
| IsoWrites.OneByteEndsRagged | src/iso_patch.cpp:253-267 | A zero-length file whose extent is the first free sector, replaced by one byte, grows the image by one byte |
| IsoPatch.PatchIso | src/iso_patch.cpp:181-291 | The patch loop with its growing append sector writes the specified image or fails as specified |
| IsoDirectory.WalkTree | src/iso_patch.cpp:110-177 | The worklist walk with pending and visited finds the specified records or rejects the image |
| Publish.PublishReplacements | src/project/hydrate.cpp:106-131 | Whichever forward steps throw: after a failure every destination is what it was or absent again, after a success every destination holds its staged tree and every backup the old one |
| Publish.Install | src/project/hydrate.cpp:108-117 | Each forward step leaves the replacement in a phase that can be rolled back and other trees untouched |
| Publish.RollBack | src/project/hydrate.cpp:120-129 | From every phase rolling back restores the destination |
| Sha256.HashChunks | src/hash.cpp:148-169 | Hashing a file in chunks of any lengths gives the digest of the joined bytes |
| Sha256.Hasher.Finish | src/hash.cpp:43-66 | The digest is that of FIPS 180-4 over everything fed since construction, however it was split: section 6.2 over the section 5.1.1 padding |
| Sha256.Hasher.Update | src/hash.cpp:32-41 | Feeding bytes extends the message, full blocks hashed and less than a block pending |
| Sha256.Hasher.Transform | src/hash.cpp:69-121 | Schedule array and eight working variables compute the compression of section 6.2.2 |
| Sha256.PaddedHash | src/hash.cpp:43-56 | The padded message ends in the one or two blocks that finish builds |
| Sha256.PaddingIsLeast | src/hash.cpp:44-55 | The padded message is whole blocks and no fewer zeros would do |
| CodeMap.OverlapCheckIsExact | src/elf/code_map.cpp:206-217 | After the sort, whatever it does with equal begins, the neighbour check passes if and only if the original ranges are pairwise disjoint |
| CodeMap.IndexIsNaive | src/elf/code_map.cpp:231-250 | Merged exclusions cover exactly the addresses of the original ones and keep gaps |
| CodeMap.Contains | src/elf/image.cpp:39-53 | The binary search answers whether no exclusion covers the address |
| CodeMap.FunctionContaining | src/elf/image.cpp:65-79 | The binary search returns the one range that covers the address, or none if none does |
| CodeMap.MergeExclusions | src/elf/code_map.cpp:236-249 | The loop computes the specified merge |
| CodeMap.NeighboursApart | src/elf/code_map.cpp:211-217 | The loop rejects exactly lists with touching-over neighbours |
| SaveData.SaveDataRoundTrip | refract/src/utility_data.cpp:60-105 | For NUL-free texts of any length both readers return each of the three values cut to its capacity less one |
| SaveData.SfoRoundTrip | refract/src/utility_data.cpp:24-59 | The same for any list of distinct NUL-free keys whose tables fit their fields |
| SaveData.ReadersAgreeExactly | src/iso.cpp:116-156 | On arbitrary values the two readers give the same text if and only if only NULs follow the first NUL |
| SaveData.ReadersDiffer | src/iso.cpp:148-154 | On 41 00 42 one reader gives one byte and the other three |
| SaveData.ReadIsoSfoString | src/iso.cpp:116-156 | The disc reader, its scans for the end of a key and for trailing NULs included, computes its specification |
| SaveData.MakeSavedataSfo | refract/src/utility_data.cpp:60-105 | The sizing loops and the writing loop build the file that the round trip is about |
| SaveData.ReadSfoString | refract/src/utility_data.cpp:24-59 | The scan returns the first usable entry with the key, or nothing |

## Left out

- Floating-point numerics: host operations other than conversions to integers are unknown functions, and nearbyint rounds in the default direction; negation and absolute value are taken to flip or clear the IEEE 754 sign bit in both back ends.
- Vector instructions other than the five lowered ones, transfers, moves, branches and prefixes: one unknown function shared by both sides, because generated code and interpreter call the same routine.
- VFPU and scalar register files are sequences inside the state object; the arithmetic part of `GuestState.State.ExecuteVfpu` is taken from the value specification, only its loads and stores run in place.
- C++ text formatting, `emit_project` and its templates: sharding, coverage, instruction maps, platform files.
- `direct_memory_access` host pointers, profiling counters, dispatch hints and null state pointers.
- ByteLoops.LoadWordLeftByBytes: only for mapped bytes; on an unmapped range the byte loop faults byte by byte and zeroes what the memcpy form leaves alone. The other three loops likewise.
- LoadedCode.LoadedRunsAgree: no two records patch bytes of one word, and the records of an executed word suit it: R_MIPS_26 on J and JAL, HI16 and LO16 on immediate and memory instructions, LO16 on a vector transfer that reads alike, R_MIPS_32 where the shape stays. Generated code runs any other executed word as it was translated.
- GeneratedRun.RunsAgree: speaks of runs whose executed words memory still holds; self-modifying code is outside it. Syscalls and breakpoints end a run.
- DispatcherCompleteness.RunsLandOnEntries: targets of jr and jalr are data and are taken to have entries; return addresses, relocated pointers and relocated pairs are proved to, that registers hold one of them is not. Overlay and symbol inputs enter as given sets.
- std::sort is modelled by insertion sort in the heap, where all addresses differ, and by any sorted permutation in the code map.
- Thread scheduling below one mutex section, condition-variable wake-ups, memory ordering, 64-bit ticket wrap-around, and the slice loop of `execute_guest` with its executor.
- Pointer arguments and results of the bridge, whose host addresses are translated before they are placed; patch lookup and bypass bookkeeping.
- Publish.PublishReplacements: a throwing step is taken to leave no trace but directories made by earlier steps, rollback steps succeed, and paths do not nest; file contents are opaque.
- Streams and files of the ISO patcher are byte sequences; reading a replacement file cannot fail in the model. Byte offsets are unbounded.
- ISO extraction, disc metadata and the sorted lookup by path of the reader.
- Code map parsing, symbols, register metadata and overlays; only the range lists are modelled.
- The hexadecimal form of a digest.
- ELF parsing, NID lookup, decryption, GE, audio, dialogs and SCE stubs: not part of this model.
