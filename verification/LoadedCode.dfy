/** From the loader to the run: what the relocation applier leaves of the code is
    what the translator and the block discovery took for granted. */
module LoadedCode {
  import opened Wrappers
  import opened Words
  import opened GuestMachine
  import opened Vfpu
  import opened VectorTransfers
  import opened Decoder
  import opened ElfImage
  import opened RelocationCodec
  import opened RelocationApply
  import opened RelocatedPairs
  import opened Simulation
  import opened GeneratedRun
  import opened ControlFlow
  import opened DispatcherCompleteness
  import I = Interpreter

  /** What a record adds to the word it patches. */
  function RelocateTo(guestBase: Word, segments: seq<Segment>, r: Relocation): Word {
    match FindSegment(segments, r.targetSegment)
    case None => 0
    case Some(target) => Add(guestBase, target.address)
  }

  /** Records that leave what generated code and discovery took from the word:
      R_MIPS_26 on J and JAL, HI16 and LO16 on immediates and displacements that
      generated code reads again, LO16 on a vector transfer that reads alike, and
      R_MIPS_32 where the sum keeps the shape and no branch is meant. */
  predicate SuitsWord(r: Relocation, word: Word, relocateTo: Word) {
    var family := I.FamilyOf(Op(word));
    r.kind == 0 || (r.kind == 4 && family.Jump?) ||
    ((r.kind == 5 || r.kind == 6) && (family.Immediate? || family.MemoryAccess?)) ||
    (r.kind == 6 && IsTransfer(word) && ReadsAlike(word, RelocateLow(word, relocateTo))) ||
    (r.kind == 2 && !StartsDelayedBranch(word) && SameShape(word, Add(word, relocateTo), true))
  }

  lemma LowHalfOnly(word: Word, relocateTo: Word)
    ensures RelocateLow(word, relocateTo) / 0x1_0000 == word / 0x1_0000
    ensures RelocateLow(word, relocateTo) % 0x1_0000 == (word % 0x1_0000 + relocateTo) % 0x1_0000
  {
    var low: int := (SignExtend16(word) + relocateTo) % 0x1_0000;
    TopHalfKept(word, low);
    assert SignExtend16(word) == word % 0x1_0000 || SignExtend16(word) == word % 0x1_0000 + 0x1_0000 * 0xffff;
    ModShift(word % 0x1_0000 + relocateTo, 0xffff);
  }

  /** A vector transfer under a LO16 is lowered faithfully exactly if guest base
      and target address sum to a multiple of 64 KiB; generated code does not read
      the displacement again. */
  lemma LowOnTransferIsExact(word: Word, relocateTo: Word)
    requires IsTransfer(word)
    ensures relocateTo % 0x1_0000 == 0 ==> RelocateLow(word, relocateTo) == word
    ensures relocateTo % 4 == 0 ==> (ReadsAlike(word, RelocateLow(word, relocateTo)) <==> relocateTo % 0x1_0000 == 0)
  {
    hide ReadsAlike, RelocateLow, Op;
    var fetched := RelocateLow(word, relocateTo);
    LowHalfOnly(word, relocateTo);
    HalfMoves(word % 0x1_0000, relocateTo);
    if fetched % 0x1_0000 == word % 0x1_0000 {
      assert fetched == word;
      SameReads(word);
    } else if ReadsAlike(word, fetched) && relocateTo % 4 == 0 {
      SameFourth(word, fetched);
      SameLowBits(word, fetched, relocateTo);
    }
  }

  lemma SameReads(word: Word)
    ensures ReadsAlike(word, word)
  {
  }

  lemma HalfMoves(low: int, step: int)
    requires 0 <= low < 0x1_0000 && 0 <= step
    ensures (low + step) % 0x1_0000 == low <==> step % 0x1_0000 == 0
  {
  }

  lemma SameLowBits(word: int, fetched: int, step: int)
    requires 0 <= word && 0 <= fetched && 0 <= step && step % 4 == 0 && fetched % 0x1_0000 == (word % 0x1_0000 + step) % 0x1_0000
    requires fetched / 4 == word / 4
    ensures fetched == word
  {
    LowQuarter(word);
    LowQuarter(fetched);
    LowQuarter(word % 0x1_0000 + step);
    assert (word % 0x1_0000 + step) % 4 == word % 0x1_0000 % 4;
  }

  lemma LowQuarter(x: int)
    requires 0 <= x
    ensures x % 0x1_0000 % 4 == x % 4
  {
    ModOfMod(x % 0x1_0000, x / 0x1_0000, 0x4000, 4);
    assert x == x / 0x1_0000 * (0x4000 * 4) + x % 0x1_0000;
  }

  /** The code lies in the loaded bytes, and records patch words of their own. */
  ghost predicate WellLinked(image: Image, memory: seq<Byte>) {
    WholeWords(image) && |memory| <= TWO32 &&
    DistinctWords(image.relocations, image.segments, |memory|) &&
    forall pc :: pc in Code(image) ==> CodeAt(memory, pc, Code(image)[pc])
  }

  predicate CodeAt(memory: seq<Byte>, pc: Word, word: Word) {
    pc % 4 == 0 && pc + 4 <= |memory| && ReadWord(memory, pc) == word
  }

  /** A record patches all of the word at `pc`, in a way that suits it, or none. */
  predicate SuitsAt(image: Image, size: nat, guestBase: Word, r: Relocation, pc: Word, word: Word) {
    var offset := PatchOffset(r, image.segments, size);
    offset.Some? ==>
      !Overlap(offset.value, pc) ||
      (offset.value == pc && SuitsWord(r, word, RelocateTo(guestBase, image.segments, r)))
  }

  ghost predicate RecordsSuit(image: Image, size: nat, guestBase: Word, pc: Word)
    requires WholeWords(image) && pc in Code(image)
  {
    forall r :: r in image.relocations ==> SuitsAt(image, size, guestBase, r, pc, Code(image)[pc])
  }

  predicate PatchesAt(image: Image, r: Relocation, size: nat, pc: Word) {
    PatchOffset(r, image.segments, size) == Some(pc)
  }

  /** A record that gives a base to `pc` patches the word there. */
  lemma GivingIsPatching(image: Image, r: Relocation, size: nat, pc: Word)
    requires size <= TWO32 && PatchOffset(r, image.segments, size).Some?
    ensures GivesBase(image, r, pc) ==> PatchesAt(image, r, size, pc)
    ensures PatchesAt(image, r, size, pc) ==> PatchesWord(image, r) && PatchedWord(image, r) == pc
    ensures PatchesAt(image, r, size, pc) && r.kind == 4 && FindSegment(image.segments, r.targetSegment).Some? ==>
      GivesBase(image, r, pc)
  {
  }

  /** What the relocated value of a word keeps. */
  lemma NewWordShape(guestBase: Word, segments: seq<Segment>, r: Relocation, word: Word, low: Word)
    requires SuitsWord(r, word, RelocateTo(guestBase, segments, r)) && FindSegment(segments, r.targetSegment).Some?
    ensures SameShape(word, NewWord(guestBase, segments, r, word, low), true)
  {
    hide FindSegment, FullAddress, ReadsAlike, Decode;
    HalvesStay(word);
    LowHalfOnly(word, RelocateTo(guestBase, segments, r));
    TransferIsVector(word);
  }

  lemma TransferIsVector(word: Word)
    ensures IsTransfer(word) ==> I.FamilyOf(Op(word)).Vector?
  {
  }

  /** Of branch words only J and JAL change, by R_MIPS_26. */
  lemma NewBranch(guestBase: Word, segments: seq<Segment>, r: Relocation, word: Word, low: Word)
    requires SuitsWord(r, word, RelocateTo(guestBase, segments, r)) && FindSegment(segments, r.targetSegment).Some?
    requires StartsDelayedBranch(word)
    ensures r.kind == 0 || (r.kind == 4 && I.FamilyOf(Op(word)).Jump?)
    ensures NewWord(guestBase, segments, r, word, low)
         == if r.kind == 4 then RelocateJump(word, RelocateTo(guestBase, segments, r)) else word
  {
    hide FindSegment, FullAddress, ReadsAlike, Decode, SameShape;
    BranchFamilies(word);
    TransferIsNoBranch(word);
  }

  lemma TransferIsNoBranch(word: Word)
    ensures IsTransfer(word) ==> !StartsDelayedBranch(word)
  {
    hide And;
  }

  lemma HalvesStay(word: Word)
    ensures forall half: Word {:trigger word - word % 0x1_0000 + half} :: half < 0x1_0000 ==>
      (word - word % 0x1_0000 + half) / 0x1_0000 == word / 0x1_0000
    ensures forall field: Word {:trigger word - word % 0x400_0000 + field} :: field < 0x400_0000 ==>
      (word - word % 0x400_0000 + field) / 0x400_0000 == word / 0x400_0000
  {
  }

  function Loaded(image: Image, memory: seq<Byte>, guestBase: Word): (Outcome, seq<Byte>) {
    PlainApply(memory, guestBase, image.segments, image.relocations)
  }

  /** Only one record patches the word at `pc`. */
  lemma OnlyRecord(image: Image, memory: seq<Byte>, i: nat, j: nat, pc: Word)
    requires WellLinked(image, memory)
    requires i < |image.relocations| && PatchesAt(image, image.relocations[i], |memory|, pc)
    requires j < |image.relocations| && PatchesAt(image, image.relocations[j], |memory|, pc)
    ensures i == j
  {
    hide PatchOffset, CodeFrom;
    var rs := image.relocations;
    assert Overlap(PatchOffset(rs[i], image.segments, |memory|).value, PatchOffset(rs[j], image.segments, |memory|).value);
  }

  /** Of the word at `pc` the base map knows what its one record says. */
  lemma BaseIsOwn(image: Image, memory: seq<Byte>, guestBase: Word, pc: Word, k: nat)
    requires WellLinked(image, memory) && Loaded(image, memory, guestBase).0 == Success
    requires k < |image.relocations| && PatchesAt(image, image.relocations[k], |memory|, pc)
    ensures FindSegment(image.segments, image.relocations[k].targetSegment).Some?
    ensures pc in Bases(image) <==> image.relocations[k].kind == 4
    ensures pc in Bases(image) ==>
      Bases(image)[pc] == FindSegment(image.segments, image.relocations[k].targetSegment).value.address
  {
    hide PatchOffset, CodeFrom, DistinctWords, PlainApply, GivesBase, JumpBasesFrom;
    var rs := image.relocations;
    BasesHold(image);
    TargetKnown(memory, guestBase, image.segments, rs, k);
    forall j: nat | j < |rs| && GivesBase(image, rs[j], pc) ensures j == k && rs[k].kind == 4 {
      GivesIsPatched(image, memory, guestBase, pc, j);
      OnlyRecord(image, memory, j, k, pc);
      KindOfGiving(image, rs[j], pc);
    }
    GivingIsPatching(image, rs[k], |memory|, pc);
    if rs[k].kind == 4 {
      assert rs[k] in rs && LastGivingBase(image, rs, k, pc);
    }
  }

  lemma KindOfGiving(image: Image, r: Relocation, pc: Word)
    requires GivesBase(image, r, pc)
    ensures r.kind == 4
  {
  }

  lemma GivesIsPatched(image: Image, memory: seq<Byte>, guestBase: Word, pc: Word, j: nat)
    requires WellLinked(image, memory) && Loaded(image, memory, guestBase).0 == Success
    requires j < |image.relocations| && GivesBase(image, image.relocations[j], pc)
    ensures PatchesAt(image, image.relocations[j], |memory|, pc)
  {
    hide PatchOffset, CodeFrom, DistinctWords, PlainApply, GivesBase;
    EveryWordRelocated(memory, guestBase, image.segments, image.relocations, j);
    GivingIsPatching(image, image.relocations[j], |memory|, pc);
  }

  lemma BranchFamilies(word: Word)
    requires StartsDelayedBranch(word)
    ensures var family := I.FamilyOf(Op(word));
      !family.Immediate? && !family.MemoryAccess? && (family.Jump? <==> Op(word) == 0x02 || Op(word) == 0x03)
  {
    hide VfpuOpcodeSupported, StaticOperation, ValidSpecial, ValidSpecial3, ValidFloat;
    hide Op, Rs, Rt, Rd, Shift, FunctionCode;
    if VfpuOpcodeSupported(word) {
      VectorFamily(word);
    }
  }

  lemma VectorFamily(word: Word)
    requires VfpuOpcodeSupported(word)
    ensures I.FamilyOf(Op(word)).Vector?
  {
  }

  /** A word that a record patches. */
  lemma PatchedCode(image: Image, memory: seq<Byte>, guestBase: Word, pc: Word, k: nat)
    requires WellLinked(image, memory) && Loaded(image, memory, guestBase).0 == Success && pc in Code(image)
    requires RecordsSuit(image, |memory|, guestBase, pc)
    requires k < |image.relocations| && PatchesAt(image, image.relocations[k], |memory|, pc)
    ensures pc + 4 <= |memory| && IsIntact(image, guestBase, pc, ReadWord(Loaded(image, memory, guestBase).1, pc))
  {
    hide CodeFrom, ReadWord, NewWord, RelocateJump, DistinctWords, PlainApply, SameShape, Decode, FindSegment;
    hide GivesBase, JumpBasesFrom, SuitsWord;
    var rs, word := image.relocations, Code(image)[pc];
    EveryWordRelocated(memory, guestBase, image.segments, rs, k);
    BaseIsOwn(image, memory, guestBase, pc, k);
    assert SuitsAt(image, |memory|, guestBase, rs[k], pc, word);
    assert CodeAt(memory, pc, word);
    NewWordShape(guestBase, image.segments, rs[k], word, LowWord(memory, image.segments, rs, k));
    GivingIsPatching(image, rs[k], |memory|, pc);
    assert pc in RelocatedWords(image);
    if StartsDelayedBranch(word) {
      BranchFamilies(word);
      NewBranch(guestBase, image.segments, rs[k], word, LowWord(memory, image.segments, rs, k));
    }
  }

  /** A word that no record patches. */
  lemma UnpatchedCode(image: Image, memory: seq<Byte>, guestBase: Word, pc: Word)
    requires WellLinked(image, memory) && Loaded(image, memory, guestBase).0 == Success && pc in Code(image)
    requires RecordsSuit(image, |memory|, guestBase, pc)
    requires forall k: nat :: k < |image.relocations| ==> !PatchesAt(image, image.relocations[k], |memory|, pc)
    ensures pc + 4 <= |memory| && IsIntact(image, guestBase, pc, ReadWord(Loaded(image, memory, guestBase).1, pc))
  {
    hide CodeFrom, ReadWord, DistinctWords, PlainApply, SameShape, Decode, PatchOffset, SuitsWord;
    hide GivesBase, JumpBasesFrom;
    var rs, word := image.relocations, Code(image)[pc];
    assert CodeAt(memory, pc, word);
    forall k: nat | k < |rs| && PatchOffset(rs[k], image.segments, |memory|).Some?
      ensures !Overlap(PatchOffset(rs[k], image.segments, |memory|).value, pc)
    {
      assert SuitsAt(image, |memory|, guestBase, rs[k], pc, word);
    }
    FirstWordStays(memory, guestBase, image.segments, rs, pc);
    SameWordSameShape(word, pc in RelocatedWords(image));
    BasesHold(image);
    if pc in Bases(image) {
      var j: nat :| j < |rs| && GivesBase(image, rs[j], pc);
      GivesIsPatched(image, memory, guestBase, pc, j);
    }
  }

  lemma SameWordSameShape(word: Word, relocated: bool)
    ensures SameShape(word, word, relocated)
  {
  }

  /** The word in memory is the image's, up to relocation: enough for the
      generated code, and for branches exactly what discovery computes with. */
  predicate IsIntact(image: Image, guestBase: Word, pc: Word, now: Word)
    requires WholeWords(image) && pc in Code(image)
  {
    var word := Code(image)[pc];
    SameShape(word, now, pc in RelocatedWords(image)) &&
    (StartsDelayedBranch(word) ==> now == RelocatedBranch(guestBase, pc, word, Bases(image)))
  }

  /** A successful run of the relocation applier leaves every code word intact
      that its records suit. */
  lemma CodeStaysIntact(image: Image, memory: seq<Byte>, guestBase: Word, pc: Word)
    requires WellLinked(image, memory) && Loaded(image, memory, guestBase).0 == Success && pc in Code(image)
    requires RecordsSuit(image, |memory|, guestBase, pc)
    ensures pc + 4 <= |memory| && IsIntact(image, guestBase, pc, ReadWord(Loaded(image, memory, guestBase).1, pc))
  {
    hide WellLinked, PlainApply, PatchesAt, IsIntact, CodeFrom, RecordsSuit;
    if k: nat :| k < |image.relocations| && PatchesAt(image, image.relocations[k], |memory|, pc) {
      PatchedCode(image, memory, guestBase, pc, k);
    } else {
      UnpatchedCode(image, memory, guestBase, pc);
    }
  }

  // ----- from the compact stream to the run -----

  /** The machine was loaded at `guestBase` and is about to run a code word that
      is still what loading left there, under records that suit it. */
  ghost predicate RunsLoaded(image: Image, guestBase: Word, loaded: seq<Byte>, m: Machine)
    requires WholeWords(image)
  {
    var pc := Sub(m.pc, guestBase);
    m.mem.base == guestBase && m.pc == guestBase + pc && pc in Code(image) &&
    |m.mem.main| == |loaded| && pc + 4 <= |loaded| && ReadWord(m.mem.main, pc) == ReadWord(loaded, pc) &&
    RecordsSuit(image, |loaded|, guestBase, pc)
  }

  lemma FetchFromMain(m: Machine, pc: Word)
    requires m.mem.base % 4 == 0 && pc % 4 == 0
    requires pc + 4 <= |m.mem.main| && m.mem.base + |m.mem.main| <= 0x2000_0000
    ensures var address := m.mem.base + pc;
      address % 4 == 0 && Sub(address, m.mem.base) == pc && m.Load(address, 4) == (ReadWord(m.mem.main, pc), m)
  {
    hide FromBytes;
    var address := m.mem.base + pc;
    assert Canonical(address) == address;
    assert MappedAddress(m.mem, address, 4) == Mapped(Main, pc);
  }

  /** The run executes loaded words that nobody has overwritten, and words that
      are lowered faithfully. */
  ghost predicate StaysOnLoaded(fpu: FloatUnit, image: Image, guestBase: Word, loaded: seq<Byte>,
                                m: Machine, returnAddress: Word, steps: nat)
    requires WholeWords(image)
    decreases steps
  {
    steps == 0 || AtReturn(m, returnAddress) ||
    (var pc := Sub(m.pc, guestBase);
     RunsLoaded(image, guestBase, loaded, m) &&
     LowersFaithfully(fpu, m, pc, Code(image)[pc], pc in RelocatedWords(image)) &&
     (InterpretedStep(fpu, m).stop == Running ==>
       StaysOnLoaded(fpu, image, guestBase, loaded, InterpretedStep(fpu, m), returnAddress, steps - 1)))
  }

  /** What such a machine fetches. */
  lemma LoadedFetch(image: Image, memory: seq<Byte>, guestBase: Word, m: Machine)
    requires WellLinked(image, memory) && Loaded(image, memory, guestBase).0 == Success
    requires guestBase % 4 == 0 && guestBase + |memory| <= 0x2000_0000
    requires RunsLoaded(image, guestBase, Loaded(image, memory, guestBase).1, m)
    ensures var pc := Sub(m.pc, guestBase);
      m.pc % 4 == 0 && Sub(m.pc, m.mem.base) == pc && m.Load(m.pc, 4).1 == m &&
      IsIntact(image, guestBase, pc, m.Load(m.pc, 4).0)
  {
    hide CodeFrom, RelocatedWords, Machine.Load, ReadWord, PlainApply, DistinctWords, RecordsSuit, IsIntact;
    var pc := Sub(m.pc, guestBase);
    CodeStaysIntact(image, memory, guestBase, pc);
    assert CodeAt(memory, pc, Code(image)[pc]);
    FetchFromMain(m, pc);
  }

  lemma {:induction false} LoadedStaysOnCode(fpu: FloatUnit, image: Image, memory: seq<Byte>, guestBase: Word,
                                             m: Machine, returnAddress: Word, steps: nat)
    requires WellLinked(image, memory) && Loaded(image, memory, guestBase).0 == Success
    requires guestBase % 4 == 0 && guestBase + |memory| <= 0x2000_0000
    requires StaysOnLoaded(fpu, image, guestBase, Loaded(image, memory, guestBase).1, m, returnAddress, steps)
    ensures StaysOnCode(fpu, image, m, returnAddress, steps)
    decreases steps
  {
    hide InterpretedStep, LowersFaithfully, PlainApply, CodeFrom, RelocatedWords, RecordsSuit, Machine.Load, SameShape;
    hide Decode, DistinctWords, JumpBasesFrom, ReadWord;
    if steps > 0 && !AtReturn(m, returnAddress) {
      LoadedFetch(image, memory, guestBase, m);
      if InterpretedStep(fpu, m).stop == Running {
        LoadedStaysOnCode(fpu, image, memory, guestBase, InterpretedStep(fpu, m), returnAddress, steps - 1);
      }
    }
  }

  /** The shipped pipeline as a whole: relocations written as a compact stream and
      applied from it, then the generated run function on the loaded code, reach
      what interpreting the loaded code reaches. */
  lemma LoadedRunsAgree(fpu: FloatUnit, image: Image, memory: seq<Byte>, guestBase: Word,
                        m: Machine, returnAddress: Word, steps: nat)
    requires WellLinked(image, memory) && guestBase % 4 == 0 && guestBase + |memory| <= 0x2000_0000
    requires m.stop == Running && m.gpr[0] == 0
    requires var rs := image.relocations;
      var (outcome, loaded) := CompactApply(memory, guestBase, image.segments, Encode(rs, START), |rs|, START);
      outcome == Success && StaysOnLoaded(fpu, image, guestBase, loaded, m, returnAddress, steps)
    ensures SameOutcome(RunGenerated(fpu, Cases(image), m, returnAddress, steps),
                        RunInterpreted(fpu, m, returnAddress, steps))
  {
    hide StaysOnLoaded, CompactApply, PlainApply, RunGenerated, RunInterpreted, StaysOnCode, CodeFrom, Encode;
    AppliersAgree(memory, guestBase, image.segments, image.relocations, START);
    LoadedStaysOnCode(fpu, image, memory, guestBase, m, returnAddress, steps);
    RunsAgree(fpu, image, m, returnAddress, steps);
  }
}
