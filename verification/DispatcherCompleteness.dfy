/** The dispatcher has an entry for every place a direct branch can lead to. */
module DispatcherCompleteness {
  import opened Wrappers
  import opened Words
  import opened GuestMachine
  import opened Vfpu
  import opened Decoder
  import opened ElfImage
  import opened RelocationApply
  import opened ControlFlow
  import opened FlowFrames
  import opened GeneratedRun
  import I = Interpreter

  /** The branch word in guest memory: the image's own, or the image's J or JAL
      after R_MIPS_26 at `base`. */
  function RelocatedBranch(base: Word, pc: Word, word: Word, bases: map<Word, Word>): Word {
    if (Op(word) == 0x02 || Op(word) == 0x03) && pc in bases then RelocateJump(word, Add(base, bases[pc])) else word
  }

  /** A relocated J or JAL stays below 2^28, an unrelocated one runs where it was
      linked to run. */
  predicate InReach(base: Word, pc: Word, word: Word, bases: map<Word, Word>, preferred: Word) {
    Op(word) == 0x02 || Op(word) == 0x03 ==>
      if pc in bases then
        preferred == 0 && base % 4 == 0 && bases[pc] % 4 == 0 &&
        base + pc + 4 < 0x1000_0000 && base + bases[pc] + word % 0x400_0000 * 4 < 0x1000_0000
      else base == preferred
  }

  predicate IntactBranch(base: Word, pc: Word, word: Word, fetched: Word, bases: map<Word, Word>, preferred: Word) {
    fetched == RelocatedBranch(base, pc, word, bases) && InReach(base, pc, word, bases, preferred)
  }

  lemma IntactSameKind(base: Word, pc: Word, word: Word, fetched: Word, bases: map<Word, Word>, preferred: Word)
    requires IntactBranch(base, pc, word, fetched, bases, preferred)
    requires StartsDelayedBranch(word)
    ensures Op(fetched) == Op(word) && StartsDelayedBranch(fetched)
    ensures Decode(word).Valid() ==> Decode(fetched).Valid()
  {
    hide VfpuOpcodeSupported, StaticOperation;
    if fetched != word {
      assert fetched / 0x400_0000 == word / 0x400_0000;
      JumpIsNotVector(word);
      JumpIsNotVector(fetched);
    }
  }

  lemma JumpIsNotVector(word: Word)
    requires Op(word) == 0x02 || Op(word) == 0x03
    ensures !VfpuOpcodeSupported(word)
  {
    hide And;
  }

  lemma RelocatedField(base: int, target: int, field: int)
    requires 0 <= base && 0 <= target && 0 <= field && base % 4 == 0 && target % 4 == 0
    requires base + target + field * 4 < 0x1000_0000
    ensures (field + (base + target) / 4) % 0x400_0000 * 4 == field * 4 + base + target
    ensures (field + target / 4) % 0x400_0000 * 4 == field * 4 + target
  {
  }

  /** The 26-bit field that the applier leaves in the word. */
  lemma PatchedField(word: Word, relocateTo: Word, moved: int)
    requires moved == (word % 0x400_0000 + relocateTo / 4) % 0x400_0000
    ensures RelocateJump(word, relocateTo) % 0x400_0000 == moved
  {
    ReplaceField(word, moved);
  }

  lemma ReplaceField(word: int, field: int)
    requires 0 <= field < 0x400_0000
    ensures (word - word % 0x400_0000 + field) % 0x400_0000 == field
  {
  }

  /** Below 2^28 the region part of a jump target is zero. */
  lemma LowRegionTarget(pc: Word, word: Word, field: int)
    requires pc + 4 < 0x1000_0000 && word % 0x400_0000 == field
    ensures I.JumpTarget(pc, word) == field * 4
  {
    assert Add(pc, 4) == pc + 4;
  }

  lemma RelocatedJump(base: Word, pc: Word, word: Word, target: Word)
    requires base % 4 == 0 && target % 4 == 0
    requires base + pc + 4 < 0x1000_0000 && base + target + word % 0x400_0000 * 4 < 0x1000_0000
    ensures var offset := (word % 0x400_0000 + target / 4) % 0x400_0000 * 4;
      I.JumpTarget(Add(base, pc), RelocateJump(word, Add(base, target))) == base + offset &&
      offset < 0x1000_0000 && Add(Add(pc, 0), 4) < 0x1000_0000
  {
    hide RelocateJump, I.JumpTarget;
    var field: int := word % 0x400_0000;
    RelocatedField(base, target, field);
    assert Add(base, target) == base + target && Add(base, pc) == base + pc;
    var moved: int := (field + (base + target) / 4) % 0x400_0000;
    PatchedField(word, base + target, moved);
    LowRegionTarget(base + pc, RelocateJump(word, base + target), moved);
  }

  lemma FixedJump(base: Word, pc: Word, word: Word)
    ensures I.JumpTarget(Add(base, pc), word) == Add(base, Sub(I.JumpTarget(Add(pc, base), word), base))
  {
    SubThenAdd(I.JumpTarget(Add(pc, base), word), base);
    assert Add(base, pc) == Add(pc, base);
  }

  /** Discovery commutes with relocation: the run-time target of the relocated
      word is the guest base plus the statically discovered target. */
  lemma DiscoveryCommutes(base: Word, pc: Word, word: Word, fetched: Word, bases: map<Word, Word>, preferred: Word)
    requires StartsDelayedBranch(word) && Op(word) != 0
    requires IntactBranch(base, pc, word, fetched, bases, preferred)
    ensures DirectControlTarget(pc, word, bases, preferred).Some?
    ensures DirectTarget(Add(base, pc), fetched) == Add(base, DirectControlTarget(pc, word, bases, preferred).value)
  {
    hide Decode, RelocateJump, I.JumpTarget, BranchTarget, Sub, Add;
    if Op(word) == 0x02 || Op(word) == 0x03 {
      IntactSameKind(base, pc, word, fetched, bases, preferred);
      StaticJump(pc, word, bases, preferred);
      if pc in bases {
        RelocatedJump(base, pc, word, bases[pc]);
        SmallSum(base, (word % 0x400_0000 + bases[pc] / 4) % 0x400_0000 * 4);
      } else {
        FixedJump(base, pc, word);
      }
    } else {
      BranchTargetShift(base, pc, word);
    }
  }

  lemma SmallSum(a: Word, b: Word)
    requires a + b < TWO32
    ensures Add(a, b) == a + b
  {
  }

  lemma StaticJump(pc: Word, word: Word, bases: map<Word, Word>, preferred: Word)
    requires StartsDelayedBranch(word) && (Op(word) == 0x02 || Op(word) == 0x03)
    ensures var target := DirectControlTarget(pc, word, bases, preferred);
      target.Some? &&
      (pc !in bases ==> target.value == Sub(I.JumpTarget(Add(pc, preferred), word), preferred)) &&
      (pc in bases && preferred == 0 && Add(Add(pc, 0), 4) < 0x1000_0000 ==>
        target.value == (word % 0x400_0000 + bases[pc] / 4) % 0x400_0000 * 4)
  {
    hide Decode;
  }

  /** One interpreted branch of the image. */
  ghost predicate AtBranch(image: Image, inputs: Inputs, m: Machine, pc: Word, fetched: Word)
    requires Usable(image, inputs)
  {
    pc in Code(image) && m.pc == Add(m.mem.base, pc) && m.stop == Running &&
    StartsDelayedBranch(Code(image)[pc]) && Decode(Code(image)[pc]).Valid() &&
    IntactBranch(m.mem.base, pc, Code(image)[pc], fetched, Bases(image), image.preferredBase)
  }

  /** The entries hold the guest address, as far as it is executable. */
  predicate HasEntry(image: Image, inputs: Inputs, base: Word, address: Word)
    requires Usable(image, inputs)
  {
    IsExecutableWord(image, Sub(address, base)) ==> Sub(address, base) in Entries(image, inputs)
  }

  /** A branch that waits for the end of its slot waits for an entry. */
  predicate Settled(image: Image, inputs: Inputs, m: Machine)
    requires Usable(image, inputs)
  {
    m.branchPending ==> HasEntry(image, inputs, m.mem.base, m.branchTarget)
  }

  lemma AddThenSub(a: Word, b: Word)
    ensures Sub(Add(b, a), b) == a
  {
  }

  lemma NextAfterBranch(image: Image, inputs: Inputs, m: Machine, pc: Word, fetched: Word)
    requires Usable(image, inputs) && AtBranch(image, inputs, m, pc, fetched)
    ensures HasEntry(image, inputs, m.mem.base, Add(m.pc, 8))
    ensures Op(fetched) != 0 ==> HasEntry(image, inputs, m.mem.base, DirectTarget(m.pc, fetched))
  {
    hide Entries, IsExecutableWord, CodeFrom, Decode, JumpBasesFrom, DirectControlTarget, DirectTarget, IntactBranch;
    var word := Code(image)[pc];
    var base := m.mem.base;
    EveryBranchCovered(image, inputs, pc);
    AddAssociative(base, pc, 8);
    AddThenSub(Add(pc, 8), base);
    IntactSameKind(base, pc, word, fetched, Bases(image), image.preferredBase);
    if Op(fetched) != 0 {
      DiscoveryCommutes(base, pc, word, fetched, Bases(image), image.preferredBase);
      AddThenSub(DirectControlTarget(pc, word, Bases(image), image.preferredBase).value, base);
    }
  }

  /** Stepping a direct branch: a taken one is pending towards an entry, an
      untaken one falls into its slot or, if likely, skips to an entry.  A branch
      that was pending already lands first. */
  lemma BranchStep(fpu: FloatUnit, image: Image, inputs: Inputs, m: Machine, pc: Word, fetched: Word)
    requires Usable(image, inputs) && AtBranch(image, inputs, m, pc, fetched) && Op(fetched) != 0
    ensures var next := I.Step(fpu, m, fetched, m.pc);
      next.mem == m.mem && next.stop == Running &&
      Settled(image, inputs, next) &&
      (if m.branchPending then next.pc == m.branchTarget
       else next.pc == Add(m.pc, 4) ||
            (next.pc == Add(m.pc, 8) && !next.branchPending && HasEntry(image, inputs, m.mem.base, next.pc)))
  {
    hide Entries, IsExecutableWord, Code, Decode, JumpBasesFrom, DirectTarget, IntactBranch, I.Execute, HasEntry;
    var started := m.(branchPending := false, pc := Add(m.pc, 4));
    IntactSameKind(m.mem.base, pc, Code(image)[pc], fetched, Bases(image), image.preferredBase);
    NextAfterBranch(image, inputs, m, pc, fetched);
    DirectBranchOutcome(fpu, started, fetched, m.pc);
  }

  /** Whatever instruction sits in the delay slot, if the machine still runs the
      pending branch has landed. */
  lemma SlotLands(fpu: FloatUnit, m: Machine, slot: Word)
    requires m.branchPending && m.stop == Running && I.Step(fpu, m, slot, m.pc).stop == Running
    ensures I.Step(fpu, m, slot, m.pc).pc == m.branchTarget
  {
    hide I.Execute, Decode;
  }

  /** After a direct branch of an unmodified image and its delay slot, or after a
      nullified likely branch, the next pc is a dispatcher entry if it is
      executable at all, even if the branch itself fills a slot. */
  lemma DispatcherIsComplete(fpu: FloatUnit, image: Image, inputs: Inputs, m: Machine, pc: Word, fetched: Word, slot: Word)
    requires Usable(image, inputs) && AtBranch(image, inputs, m, pc, fetched) && Op(fetched) != 0
    requires Settled(image, inputs, m)
    ensures var next := I.Step(fpu, m, fetched, m.pc);
      var landed := I.Step(fpu, next, slot, next.pc);
      (next.branchPending && landed.stop == Running ==> HasEntry(image, inputs, m.mem.base, landed.pc)) &&
      (next.pc != Add(m.pc, 4) ==> HasEntry(image, inputs, m.mem.base, next.pc))
  {
    hide I.Step, HasEntry, AtBranch;
    BranchStep(fpu, image, inputs, m, pc, fetched);
    var next := I.Step(fpu, m, fetched, m.pc);
    if next.branchPending && I.Step(fpu, next, slot, next.pc).stop == Running {
      SlotLands(fpu, next, slot);
    }
  }

  /** Every call of an unmodified image leaves a return address that is a
      dispatcher entry if it is executable at all, jalr included. */
  lemma ReturnsAreEntries(fpu: FloatUnit, image: Image, inputs: Inputs, m: Machine, pc: Word, fetched: Word)
    requires Usable(image, inputs) && AtBranch(image, inputs, m, pc, fetched)
    requires Decode(fetched).call && LinkRegister(fetched) != 0
    ensures LinkRegister(fetched) < 32
    ensures HasEntry(image, inputs, m.mem.base, I.Step(fpu, m, fetched, m.pc).gpr[LinkRegister(fetched)])
  {
    hide Entries, IsExecutableWord, Code, Classify, JumpBasesFrom, IntactBranch, I.Execute, HasEntry;
    var started := m.(branchPending := false, pc := Add(m.pc, 4));
    IntactSameKind(m.mem.base, pc, Code(image)[pc], fetched, Bases(image), image.preferredBase);
    NextAfterBranch(image, inputs, m, pc, fetched);
    CallsLink(fpu, started, fetched, m.pc);
  }

  /** A word without the delayed-branch flag moves on to pc + 4, or to the target
      of the branch whose slot it fills. */
  lemma PlainStepFallsThrough(fpu: FloatUnit, m: Machine, word: Word)
    requires Decode(word).Valid() && !StartsDelayedBranch(word)
    requires I.Step(fpu, m, word, m.pc).stop == Running
    ensures var next := I.Step(fpu, m, word, m.pc);
      !next.branchPending && next.pc == if m.branchPending then m.branchTarget else Add(m.pc, 4)
  {
    hide I.Execute, Classify;
    PlainKeepsFlow(fpu, m.(branchPending := false, pc := Add(m.pc, 4)), word, m.pc);
  }

  // ----- whole runs -----

  /** What a run may meet: branches of the unmodified image, jr and jalr to
      addresses that have an entry, and any other words. */
  ghost predicate OnKnownWord(image: Image, inputs: Inputs, m: Machine, fetched: Word)
    requires Usable(image, inputs)
  {
    Decode(fetched).Valid() && StartsDelayedBranch(fetched) ==>
      if Op(fetched) == 0 then HasEntry(image, inputs, m.mem.base, m.gpr[Rs(fetched)])
      else AtBranch(image, inputs, m, Sub(m.pc, m.mem.base), fetched)
  }

  lemma RegisterJump(fpu: FloatUnit, m: Machine, word: Word, pc: Word)
    requires Decode(word).Valid() && StartsDelayedBranch(word) && Op(word) == 0
    ensures var next := I.Execute(fpu, m, word, pc);
      next.branchPending && next.branchTarget == m.gpr[Rs(word)] && next.pc == m.pc && next.mem == m.mem
  {
    hide I.ArithmeticValue, I.ShiftValue, I.ExecuteHiLo, VfpuOpcodeSupported, StaticOperation;
    NotVectorSpecial(word);
  }

  lemma NotVectorSpecial(word: Word)
    requires Op(word) == 0
    ensures !VfpuOpcodeSupported(word)
  {
    hide And;
  }

  /** One step from a settled state: control moves to the next word or to an
      entry, and the state stays settled. */
  lemma StepLandsOnEntry(fpu: FloatUnit, image: Image, inputs: Inputs, m: Machine, fetched: Word)
    requires Usable(image, inputs) && m.stop == Running
    requires Settled(image, inputs, m) && OnKnownWord(image, inputs, m, fetched)
    requires I.Step(fpu, m, fetched, m.pc).stop == Running
    ensures var next := I.Step(fpu, m, fetched, m.pc);
      next.mem.base == m.mem.base && Settled(image, inputs, next) &&
      (next.pc == Add(m.pc, 4) || HasEntry(image, inputs, m.mem.base, next.pc))
  {
    hide HasEntry, AtBranch, I.Execute, Classify;
    var started := m.(branchPending := false, pc := Add(m.pc, 4));
    if !Decode(fetched).Valid() {
    } else if !StartsDelayedBranch(fetched) {
      PlainKeepsFlow(fpu, started, fetched, m.pc);
    } else if Op(fetched) == 0 {
      RegisterJump(fpu, started, fetched, m.pc);
    } else {
      BranchStep(fpu, image, inputs, m, Sub(m.pc, m.mem.base), fetched);
    }
  }

  /** Every word that the run executes is known in this sense. */
  ghost predicate StaysOnKnownWords(fpu: FloatUnit, image: Image, inputs: Inputs, m: Machine, steps: nat)
    requires Usable(image, inputs)
    decreases steps
  {
    steps == 0 ||
    (var next := InterpretedStep(fpu, m);
     OnKnownWord(image, inputs, m, m.Load(m.pc, 4).0) &&
     (next.stop == Running ==> StaysOnKnownWords(fpu, image, inputs, next, steps - 1)))
  }

  /** At every step of the run control moves to the next word or to an entry. */
  ghost predicate LandsOnEntries(fpu: FloatUnit, image: Image, inputs: Inputs, m: Machine, steps: nat)
    requires Usable(image, inputs)
    decreases steps
  {
    steps == 0 ||
    (var next := InterpretedStep(fpu, m);
     next.stop == Running ==>
       (next.pc == Add(m.pc, 4) || HasEntry(image, inputs, m.mem.base, next.pc)) &&
       LandsOnEntries(fpu, image, inputs, next, steps - 1))
  }

  lemma {:induction false} RunsLandOnEntries(fpu: FloatUnit, image: Image, inputs: Inputs, m: Machine, steps: nat)
    requires Usable(image, inputs) && m.stop == Running && Settled(image, inputs, m)
    requires StaysOnKnownWords(fpu, image, inputs, m, steps)
    ensures LandsOnEntries(fpu, image, inputs, m, steps)
    decreases steps
  {
    hide Usable, Settled, OnKnownWord, HasEntry, InterpretedStep, Machine.Load, I.Step;
    if steps > 0 {
      var next := InterpretedStep(fpu, m);
      if next.stop == Running {
        InterpretedIsStep(fpu, m);
        StepLandsOnEntry(fpu, image, inputs, m, m.Load(m.pc, 4).0);
        RunsLandOnEntries(fpu, image, inputs, next, steps - 1);
      }
    }
  }

  lemma InterpretedIsStep(fpu: FloatUnit, m: Machine)
    requires m.stop == Running && InterpretedStep(fpu, m).stop == Running
    ensures InterpretedStep(fpu, m) == I.Step(fpu, m, m.Load(m.pc, 4).0, m.pc)
  {
    hide I.Step, MappedAddress, Peek;
  }
}
