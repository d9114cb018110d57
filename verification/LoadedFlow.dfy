/** Block discovery against the loaded image: the run on relocated code lands on
    entries, and so do the code pointers that relocation leaves in memory. */
module LoadedFlow {
  import opened Wrappers
  import opened Words
  import opened GuestMachine
  import opened Vfpu
  import opened VectorTransfers
  import opened Decoder
  import opened ElfImage
  import opened RelocationCodec
  import opened RelocationApply
  import opened RelocatedPairs
  import opened Simulation
  import opened GeneratedRun
  import opened ControlFlow
  import opened DispatcherCompleteness
  import opened LoadedCode
  import I = Interpreter

  // ----- runs -----

  /** A relocated word starts a delayed branch exactly if the translated one does. */
  lemma SameShapeSameBranch(word: Word, fetched: Word, relocated: bool)
    requires SameShape(word, fetched, relocated)
    ensures StartsDelayedBranch(word) <==> StartsDelayedBranch(fetched)
  {
    if fetched != word {
      hide VfpuOpcodeSupported, StaticOperation, ValidSpecial, ValidSpecial3, FunctionCode, ReadsAlike;
      if I.FamilyOf(Op(word)).Vector? {
        SameTopHalf(word, fetched);
        TransferIsNoBranch(word);
        TransferIsNoBranch(fetched);
      } else {
        if !I.FamilyOf(Op(word)).Jump? {
          SameTopHalf(word, fetched);
        }
        NotVector(word);
        NotVector(fetched);
      }
    }
  }

  /** The run executes loaded words that nobody has overwritten; direct branches
      are in reach, and jr and jalr go to addresses that have an entry. */
  ghost predicate FlowsOnLoaded(fpu: FloatUnit, image: Image, inputs: Inputs, guestBase: Word, loaded: seq<Byte>,
                                m: Machine, steps: nat)
    requires Usable(image, inputs)
    decreases steps
  {
    steps == 0 ||
    (RunsLoaded(image, guestBase, loaded, m) &&
     (var pc := Sub(m.pc, guestBase);
      var word := Code(image)[pc];
      StartsDelayedBranch(word) ==>
        if Op(word) == 0 then HasEntry(image, inputs, guestBase, m.gpr[Rs(word)])
        else InReach(guestBase, pc, word, Bases(image), image.preferredBase)) &&
     (InterpretedStep(fpu, m).stop == Running ==>
       FlowsOnLoaded(fpu, image, inputs, guestBase, loaded, InterpretedStep(fpu, m), steps - 1)))
  }

  /** Such a machine is about to run a known word. */
  lemma LoadedIsKnown(image: Image, inputs: Inputs, memory: seq<Byte>, guestBase: Word, m: Machine)
    requires Usable(image, inputs) && m.stop == Running
    requires WellLinked(image, memory) && Loaded(image, memory, guestBase).0 == Success
    requires guestBase % 4 == 0 && guestBase + |memory| <= 0x2000_0000
    requires RunsLoaded(image, guestBase, Loaded(image, memory, guestBase).1, m)
    requires var pc := Sub(m.pc, guestBase);
      var word := Code(image)[pc];
      StartsDelayedBranch(word) ==>
        if Op(word) == 0 then HasEntry(image, inputs, guestBase, m.gpr[Rs(word)])
        else InReach(guestBase, pc, word, Bases(image), image.preferredBase)
    ensures OnKnownWord(image, inputs, m, m.Load(m.pc, 4).0)
  {
    hide CodeFrom, RelocatedWords, Machine.Load, ReadWord, PlainApply, DistinctWords, RecordsSuit, SameShape;
    hide JumpBasesFrom, HasEntry, InReach, Classify, RelocateJump;
    var pc := Sub(m.pc, guestBase);
    var word, fetched := Code(image)[pc], m.Load(m.pc, 4).0;
    LoadedFetch(image, memory, guestBase, m);
    SameShapeSameBranch(word, fetched, pc in RelocatedWords(image));
    SameShapeSameFamily(word, fetched, pc in RelocatedWords(image));
    SubThenAdd(m.pc, guestBase);
  }

  lemma {:induction false} FlowsOnKnownWords(fpu: FloatUnit, image: Image, inputs: Inputs, memory: seq<Byte>, guestBase: Word,
                                             m: Machine, steps: nat)
    requires Usable(image, inputs) && m.stop == Running
    requires WellLinked(image, memory) && Loaded(image, memory, guestBase).0 == Success
    requires guestBase % 4 == 0 && guestBase + |memory| <= 0x2000_0000
    requires FlowsOnLoaded(fpu, image, inputs, guestBase, Loaded(image, memory, guestBase).1, m, steps)
    ensures StaysOnKnownWords(fpu, image, inputs, m, steps)
    decreases steps
  {
    hide Usable, WellLinked, RunsLoaded, PlainApply, CodeFrom, OnKnownWord, HasEntry, InReach, Machine.Load, InterpretedStep, Decode;
    hide JumpBasesFrom;
    if steps > 0 {
      LoadedIsKnown(image, inputs, memory, guestBase, m);
      var next := InterpretedStep(fpu, m);
      if next.stop == Running {
        FlowsOnKnownWords(fpu, image, inputs, memory, guestBase, next, steps - 1);
      }
    }
  }

  /** From the compact stream to the dispatcher: at every step of a run over the
      loaded code control moves to the next word or to a block entry. */
  lemma LoadedRunsLandOnEntries(fpu: FloatUnit, image: Image, inputs: Inputs, memory: seq<Byte>, guestBase: Word,
                                m: Machine, steps: nat)
    requires Usable(image, inputs) && m.stop == Running && Settled(image, inputs, m)
    requires WellLinked(image, memory) && guestBase % 4 == 0 && guestBase + |memory| <= 0x2000_0000
    requires var rs := image.relocations;
      var (outcome, loaded) := CompactApply(memory, guestBase, image.segments, Encode(rs, START), |rs|, START);
      outcome == Success && FlowsOnLoaded(fpu, image, inputs, guestBase, loaded, m, steps)
    ensures LandsOnEntries(fpu, image, inputs, m, steps)
  {
    hide WellLinked, FlowsOnLoaded, CompactApply, PlainApply, Encode, StaysOnKnownWords, LandsOnEntries, Settled, Usable;
    AppliersAgree(memory, guestBase, image.segments, image.relocations, START);
    FlowsOnKnownWords(fpu, image, inputs, memory, guestBase, m, steps);
    RunsLandOnEntries(fpu, image, inputs, m, steps);
  }

  // ----- code pointers -----

  lemma ListedHasEntry(image: Image, inputs: Inputs, guestBase: Word, address: Word)
    requires Usable(image, inputs) && Listed(image, Entries(image, inputs), address)
    ensures HasEntry(image, inputs, guestBase, Add(guestBase, address))
  {
    hide Entries, IsExecutableWord;
    AddThenSub(address, guestBase);
  }

  /** A R_MIPS_32 outside code leaves a guest address with an entry, as far as it
      is executable: a call through it goes where the dispatcher can go. */
  lemma PointersHaveEntries(image: Image, inputs: Inputs, guestBase: Word, k: nat)
    requires Usable(image, inputs) && k < |image.relocations| && image.relocations[k].kind == 2
    requires |inputs.memory| <= TWO32 && DistinctWords(image.relocations, image.segments, |inputs.memory|)
    requires Loaded(image, inputs.memory, guestBase).0 == Success
    ensures PatchOffset(image.relocations[k], image.segments, |inputs.memory|).Some?
    ensures var at := PatchOffset(image.relocations[k], image.segments, |inputs.memory|).value;
      at < TWO32 && (!IsExecutableWord(image, at) ==>
        HasEntry(image, inputs, guestBase, ReadWord(Loaded(image, inputs.memory, guestBase).1, at)))
  {
    hide PatchOffset, PlainApply, DistinctWords, ReadWord, IsExecutableWord, Entries, LoadedOffset, Usable, FindSegment;
    var rs, memory := image.relocations, inputs.memory;
    EveryWordRelocated(memory, guestBase, image.segments, rs, k);
    TargetKnown(memory, guestBase, image.segments, rs, k);
    SameOffset(image, rs[k], memory);
    FoundAreEntries(image, inputs);
    var at := PatchOffset(rs[k], image.segments, |memory|).value;
    if !IsExecutableWord(image, at) {
      assert rs[k] in rs && PointerAddress(image, rs[k], memory).Some?;
      ListedHasEntry(image, inputs, guestBase, PointerAddress(image, rs[k], memory).value);
      Regroup(ReadWord(memory, at), guestBase, FindSegment(image.segments, rs[k].targetSegment).value.address);
    }
  }

  /** So does every relocated HI16 and LO16 pair. */
  lemma PairsHaveEntries(image: Image, inputs: Inputs, guestBase: Word, i: nat, j: nat)
    requires Usable(image, inputs) && |inputs.memory| <= TWO32
    requires var rs := image.relocations;
      i < j < |rs| && rs[i].kind == 5 && DistinctWords(rs, image.segments, |inputs.memory|) &&
      IsPartner(rs[j], rs[i].targetSegment) && forall k :: i < k < j ==> !IsPartner(rs[k], rs[i].targetSegment)
    requires Loaded(image, inputs.memory, guestBase).0 == Success
    ensures var size := |inputs.memory|;
      PatchOffset(image.relocations[i], image.segments, size).Some? && PatchOffset(image.relocations[j], image.segments, size).Some?
    ensures var rs, out := image.relocations, Loaded(image, inputs.memory, guestBase).1;
      var high, low := PatchOffset(rs[i], image.segments, |out|).value, PatchOffset(rs[j], image.segments, |out|).value;
      HasEntry(image, inputs, guestBase, FullAddress(ReadWord(out, high), ReadWord(out, low)))
  {
    hide PatchOffset, PlainApply, DistinctWords, ReadWord, IsExecutableWord, Entries, PairAddress, FullAddress, Usable, HasEntry;
    PairsMeetDiscovery(inputs.memory, guestBase, image, i, j);
    FoundAreEntries(image, inputs);
    ListedHasEntry(image, inputs, guestBase, PairAddress(image, image.relocations[i..], inputs.memory).value);
  }
}
