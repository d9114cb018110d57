/** The `run` function that emit_cpp writes (src/emitter/cpp_output.cpp),
    beside the same loop with every block left to the interpreter
    (src/emitter/project_output/dispatch.inc). */
module GeneratedRun {
  import opened Wrappers
  import opened Words
  import opened GuestMachine
  import opened Vfpu
  import opened Decoder
  import opened GeneratedCode
  import opened Emitter
  import opened ElfImage
  import opened VectorTransfers
  import opened Simulation
  import opened FlowFrames
  import I = Interpreter

  /** emit_cpp lowers every word with the default preferred base of 0. */
  function Cases(image: Image): map<Word, Stmt>
    requires WholeWords(image)
  {
    CasesOf(image, Code(image))
  }

  function CasesOf(image: Image, code: map<Word, Word>): map<Word, Stmt> {
    map pc | pc in code :: EmitInstruction(pc, code[pc], pc in RelocatedWords(image), 0)
  }

  /** The nested loops of emit_cpp. */
  method EmitCases(image: Image) returns (cases: map<Word, Stmt>)
    requires WholeWords(image)
    ensures cases == Cases(image)
  {
    hide EmitInstruction, RelocatedWords;
    var relocated := RelocatedWords(image);
    cases := map[];
    ghost var code: map<Word, Word> := map[];
    var index := 0;
    while index < |image.sections|
      invariant 0 <= index <= |image.sections|
      invariant cases == CasesOf(image, code)
      invariant CodeFrom(image.sections[index..], code) == Code(image)
    {
      var section := image.sections[index];
      var offset := 0;
      ghost var before := code;
      while offset < |section.bytes|
        invariant 0 <= offset <= |section.bytes| && offset % 4 == 0
        invariant cases == CasesOf(image, code)
        invariant SectionCode(section, offset, code) == SectionCode(section, 0, before)
      {
        NextWordFits(offset, |section.bytes|);
        var pc: Word := Wrap(section.address + offset);
        var word := WordAt(section, offset);
        cases := cases[pc := EmitInstruction(pc, word, pc in relocated, 0)];
        code := code[pc := word];
        offset := offset + 4;
      }
      index := index + 1;
    }
  }

  // ----- the two loops -----

  predicate AtReturn(m: Machine, returnAddress: Word) {
    m.pc == returnAddress && !m.branchPending
  }

  /** One turn of the generated loop, from the switch on. */
  function GeneratedStep(fpu: FloatUnit, cases: map<Word, Stmt>, m: Machine): Machine {
    var current := m.pc;
    var started := m.(branchPending := false, pc := Add(current, 4));
    var offset := Sub(current, m.mem.base);
    if offset !in cases then started.(stop := InvalidPc, faultAddress := current)
    else I.Finish(Exec(fpu, started, current, cases[offset]), m.branchPending, m.branchTarget)
  }

  function RunGenerated(fpu: FloatUnit, cases: map<Word, Stmt>, m: Machine, returnAddress: Word, steps: nat): Machine
    decreases steps
  {
    if steps == 0 then m.(stop := StepLimit)
    else if AtReturn(m, returnAddress) then m.(stop := Returned)
    else
      var next := GeneratedStep(fpu, cases, m);
      if next.stop != Running then next else RunGenerated(fpu, cases, next, returnAddress, steps - 1)
  }

  /** A state without a memory base gets the image's preferred one. */
  function Entered(start: Machine, preferredBase: Word): Machine {
    start.(stop := Running,
           mem := if start.mem.base == 0 then start.mem.(base := preferredBase) else start.mem)
  }

  /** The loop itself, on a state that it updates. */
  method Run(fpu: FloatUnit, cases: map<Word, Stmt>, preferredBase: Word, start: Machine, returnAddress: Word, maxSteps: nat)
    returns (state: Machine)
    ensures state == RunGenerated(fpu, cases, Entered(start, preferredBase), returnAddress, maxSteps)
  {
    hide Exec;
    state := start.(stop := Running);
    if preferredBase != 0 {
      if state.mem.base == 0 {
        state := state.(mem := state.mem.(base := preferredBase));
      }
    }
    for step := 0 to maxSteps
      invariant state.stop == Running
      invariant RunGenerated(fpu, cases, state, returnAddress, maxSteps - step)
             == RunGenerated(fpu, cases, Entered(start, preferredBase), returnAddress, maxSteps)
    {
      if state.pc == returnAddress && !state.branchPending {
        return state.(stop := Returned);
      }
      var applyDelayedBranch, delayedTarget := state.branchPending, state.branchTarget;
      var currentPc := state.pc;
      state := state.(branchPending := false, pc := Add(currentPc, 4));
      var offset := Sub(currentPc, state.mem.base);
      if offset !in cases {
        return state.(stop := InvalidPc, faultAddress := currentPc);
      }
      state := Exec(fpu, state, currentPc, cases[offset]);
      state := state.(gpr := state.gpr[0 := 0]);
      if state.stop != Running {
        return;
      }
      if applyDelayedBranch {
        state := state.(pc := delayedTarget);
      }
    }
    state := state.(stop := StepLimit);
  }

  function InterpretedStep(fpu: FloatUnit, m: Machine): Machine {
    var (next, handled) := I.Interpret(fpu, m, m.pc);
    if !handled && next.stop == Running then next.(stop := InvalidPc, faultAddress := m.pc, faultPc := m.pc)
    else next
  }

  function RunInterpreted(fpu: FloatUnit, m: Machine, returnAddress: Word, steps: nat): Machine
    decreases steps
  {
    if steps == 0 then m.(stop := StepLimit)
    else if AtReturn(m, returnAddress) then m.(stop := Returned)
    else
      var next := InterpretedStep(fpu, m);
      if next.stop != Running then next else RunInterpreted(fpu, next, returnAddress, steps - 1)
  }

  // ----- when they agree -----

  /** The one instruction is lowered faithfully in this state: no jalr that
      overwrites its own target, no unrelocated jump that the missing preferred
      base sends elsewhere, no cast on which the two conversions differ. */
  predicate LowersFaithfully(fpu: FloatUnit, m: Machine, pc: Word, word: Word, relocated: bool) {
    (Op(word) == 0x00 && FunctionCode(word) == 0x09 ==> JalrAgrees(m, Decode(word), m.pc)) &&
    ((Op(word) == 0x02 || Op(word) == 0x03) && !relocated ==> JumpsAgree(m.mem.base, pc, 0)) &&
    FloatCastsAgree(fpu, m, Decode(word))
  }

  /** What of it can be read off the word and the base alone. */
  lemma FaithfulWords(fpu: FloatUnit, m: Machine, pc: Word, word: Word, relocated: bool)
    requires Op(word) == 0x00 && FunctionCode(word) == 0x09 ==> Rd(word) == 0 || Rd(word) != Rs(word)
    requires Op(word) == 0x02 || Op(word) == 0x03 ==>
      relocated || m.mem.base == 0 ||
      (m.mem.base % 0x1000_0000 == 0 && pc + 4 < 0x1000_0000 && m.mem.base + pc + 4 < TWO32)
    requires Op(word) == 0x11 && Rs(word) == 0x10 ==> FunctionCode(word) != 0x0c && FunctionCode(word) != 0x0d
    ensures LowersFaithfully(fpu, m, pc, word, relocated)
  {
    hide Classify, JumpsAgree;
    if m.mem.base == 0 {
      OwnBaseAgrees(0, pc);
    } else if m.mem.base + pc + 4 < TWO32 && pc + 4 < 0x1000_0000 {
      DefaultBaseAgreesWhere(m.mem.base, pc);
    }
  }

  /** The machine is about to run a word of the image that memory still holds,
      up to relocation, and that is lowered faithfully. */
  ghost predicate OnCode(fpu: FloatUnit, image: Image, m: Machine)
    requires WholeWords(image)
  {
    var pc := Sub(m.pc, m.mem.base);
    pc in Code(image) && m.pc % 4 == 0 &&
    m.Load(m.pc, 4).1 == m &&
    SameShape(Code(image)[pc], m.Load(m.pc, 4).0, pc in RelocatedWords(image)) &&
    LowersFaithfully(fpu, m, pc, Code(image)[pc], pc in RelocatedWords(image))
  }

  /** The interpreter's own run executes such words only. */
  ghost predicate StaysOnCode(fpu: FloatUnit, image: Image, m: Machine, returnAddress: Word, steps: nat)
    requires WholeWords(image)
    decreases steps
  {
    steps == 0 || AtReturn(m, returnAddress) ||
    (OnCode(fpu, image, m) &&
     (InterpretedStep(fpu, m).stop == Running ==>
       StaysOnCode(fpu, image, InterpretedStep(fpu, m), returnAddress, steps - 1)))
  }

  /** A reserved word stops both, with different stop reasons and fault reports. */
  predicate SameOutcome(generated: Machine, interpreted: Machine) {
    generated == interpreted ||
    (interpreted.stop == UnsupportedInstruction && generated.stop == InvalidPc &&
     generated == interpreted.(stop := InvalidPc, faultAddress := generated.faultAddress,
                               faultInstruction := generated.faultInstruction, faultPc := generated.faultPc))
  }

  lemma NotVector(word: Word)
    requires !I.FamilyOf(Op(word)).Vector?
    ensures !VfpuOpcodeSupported(word)
  {
    hide And;
  }

  lemma SameShapeSameFamily(word: Word, fetched: Word, relocated: bool)
    requires SameShape(word, fetched, relocated)
    ensures Op(word) == Op(fetched)
    ensures Decode(word).Valid() <==> Decode(fetched).Valid()
  {
    if fetched != word {
      hide VfpuOpcodeSupported, StaticOperation, ValidSpecial, ValidSpecial3, FunctionCode, ScalarFloat, Rd, Shift;
      hide ReadsAlike;
      if !I.FamilyOf(Op(word)).Jump? {
        SameTopHalf(word, fetched);
      }
      if I.FamilyOf(Op(word)).Vector? {
        TransferIsValid(word);
        TransferIsValid(fetched);
      } else {
        NotVector(word);
        NotVector(fetched);
      }
    }
  }

  lemma FinishForgetsZero(a: Machine, b: Machine, pending: bool, target: Word)
    requires a.Set(0, 0) == b.Set(0, 0)
    ensures I.Finish(a, pending, target) == I.Finish(b, pending, target)
  {
  }

  /** One emitted case against one interpreted word. */
  lemma EmittedAgrees(fpu: FloatUnit, m: Machine, pc: Word, current: Word, word: Word, fetched: Word, relocated: bool, preferred: Word)
    requires At(m, pc, current) && Fetches(m, current, fetched) && m.stop == Running && m.gpr[0] == 0
    requires Decode(word).Valid() && SameShape(word, fetched, relocated)
    requires Op(word) == 0x00 && FunctionCode(word) == 0x09 ==> JalrAgrees(m, Decode(word), current)
    requires (Op(word) == 0x02 || Op(word) == 0x03) && !relocated ==> JumpsAgree(m.mem.base, pc, preferred)
    requires FloatCastsAgree(fpu, m, Decode(word))
    ensures Decode(fetched).Valid()
    ensures Exec(fpu, m, current, EmitInstruction(pc, word, relocated, preferred)).Set(0, 0)
         == I.Execute(fpu, m, fetched, current).Set(0, 0)
  {
    hide Exec, Eval, Classify;
    hide EmitSpecial, EmitRegimm, EmitJump, EmitCompareBranch, EmitImmediate, EmitFloat, EmitVfpu, EmitSpecial2, EmitSpecial3, EmitMemory;
    hide I.ExecuteSpecial, I.ExecuteRegimm, I.ExecuteJump, I.ExecuteCompareBranch, I.ExecuteImmediate, I.ExecuteFloat,
         ExecuteVfpu, I.ExecuteSpecial2, I.ExecuteSpecial3, I.ExecuteMemory;
    SameShapeSameFamily(word, fetched, relocated);
    match I.FamilyOf(Op(word)) {
      case Special => ValidParts(word); SpecialAgrees(fpu, m, pc, current, word);
      case Regimm => RegimmAgrees(fpu, m, pc, current, word, fetched, relocated);
      case Jump => JumpAgrees(fpu, m, pc, current, word, fetched, relocated, preferred);
      case CompareBranch => CompareBranchAgrees(fpu, m, pc, current, word, fetched, relocated);
      case Immediate => ImmediateAgrees(fpu, m, current, word, fetched, relocated);
      case Float => FloatAgrees(fpu, m, pc, current, word, fetched, relocated);
      case Vector => RelocatedVectorAgrees(fpu, m, pc, current, word, fetched, relocated);
      case Special2 => Special2Agrees(fpu, m, current, word);
      case Special3 => ValidParts(word); Special3Agrees(fpu, m, current, word);
      case MemoryAccess =>
        ValidParts(word);
        if Op(word) in {0x20, 0x21, 0x22, 0x23, 0x24, 0x25, 0x26, 0x30, 0x31} {
          MemoryLoadsAgree(fpu, m, current, word, fetched, relocated);
        } else {
          MemoryStoresAgree(fpu, m, current, word, fetched, relocated);
        }
    }
  }

  lemma ValidParts(word: Word)
    requires Decode(word).Valid()
    ensures Op(word) == 0x00 ==> ValidSpecial(word)
    ensures Op(word) == 0x1f ==> ValidSpecial3(word)
    ensures I.FamilyOf(Op(word)).MemoryAccess? ==>
      Op(word) in {0x20, 0x21, 0x22, 0x23, 0x24, 0x25, 0x26, 0x30, 0x31} ||
      Op(word) in {0x28, 0x29, 0x2a, 0x2b, 0x2e, 0x2f, 0x38, 0x39}
  {
    hide ValidSpecial, ValidSpecial3, ValidFloat, StaticOperation, And;
  }

  // ----- one step, then whole runs -----

  lemma StartedLowers(fpu: FloatUnit, m: Machine, pc: Word, word: Word, relocated: bool)
    requires LowersFaithfully(fpu, m, pc, word, relocated)
    ensures var started := m.(branchPending := false, pc := Add(m.pc, 4));
      (Op(word) == 0x00 && FunctionCode(word) == 0x09 ==> JalrAgrees(started, Decode(word), m.pc)) &&
      ((Op(word) == 0x02 || Op(word) == 0x03) && !relocated ==> JumpsAgree(m.mem.base, pc, 0)) &&
      FloatCastsAgree(fpu, started, Decode(word))
  {
    hide Classify, JumpsAgree;
  }

  lemma ValidStepsAgree(fpu: FloatUnit, image: Image, m: Machine, pc: Word, word: Word, fetched: Word)
    requires WholeWords(image) && pc in Code(image) && word == Code(image)[pc]
    requires At(m, pc, m.pc) && Fetches(m, m.pc, fetched) && m.stop == Running && m.gpr[0] == 0
    requires SameShape(word, fetched, pc in RelocatedWords(image)) && Decode(word).Valid()
    requires LowersFaithfully(fpu, m, pc, word, pc in RelocatedWords(image))
    ensures GeneratedStep(fpu, Cases(image), m) == InterpretedStep(fpu, m)
    ensures InterpretedStep(fpu, m).gpr[0] == 0 && InterpretedStep(fpu, m).mem.base == m.mem.base
  {
    hide EmitInstruction, Exec, I.Execute, Classify, Peek, RelocatedWords, JumpsAgree, FloatCastsAgree, SameShape, CodeFrom, MappedAddress;
    hide LowersFaithfully, JalrAgrees, Machine.Load, FunctionCode, Op;
    StartedLowers(fpu, m, pc, word, pc in RelocatedWords(image));
    var relocated := pc in RelocatedWords(image);
    var started := m.(branchPending := false, pc := Add(m.pc, 4));
    FetchKept(m, started, m.pc, fetched);
    SubThenAdd(m.pc, m.mem.base);
    assert Sub(m.pc, m.mem.base) == pc;
    EmittedAgrees(fpu, started, pc, m.pc, word, fetched, relocated, 0);
    var generated := Exec(fpu, started, m.pc, EmitInstruction(pc, word, relocated, 0));
    var interpreted := I.Execute(fpu, started, fetched, m.pc);
    FinishForgetsZero(generated, interpreted, m.branchPending, m.branchTarget);
    ExecuteKeepsBase(fpu, started, fetched, m.pc);
  }

  lemma ReservedStepsAgree(fpu: FloatUnit, image: Image, m: Machine, pc: Word, word: Word, fetched: Word)
    requires WholeWords(image) && pc in Code(image) && word == Code(image)[pc]
    requires At(m, pc, m.pc) && Fetches(m, m.pc, fetched) && m.stop == Running && m.gpr[0] == 0
    requires SameShape(word, fetched, pc in RelocatedWords(image)) && !Decode(word).Valid()
    ensures SameOutcome(GeneratedStep(fpu, Cases(image), m), InterpretedStep(fpu, m))
    ensures GeneratedStep(fpu, Cases(image), m).stop == InvalidPc
    ensures InterpretedStep(fpu, m).stop == UnsupportedInstruction
  {
    hide EmitInstruction, Exec, I.Execute, Classify, Peek, RelocatedWords, SameShape, CodeFrom, MappedAddress;
    var relocated := pc in RelocatedWords(image);
    var started := m.(branchPending := false, pc := Add(m.pc, 4));
    ReservedIsStop(pc, word, relocated);
    SameShapeSameFamily(word, fetched, relocated);
    SubThenAdd(m.pc, m.mem.base);
    assert Sub(m.pc, m.mem.base) == pc;
    RunStop(fpu, started, m.pc);
    assert m.gpr[0 := 0] == m.gpr;
  }

  lemma ReservedIsStop(pc: Word, word: Word, relocated: bool)
    requires !Decode(word).Valid()
    ensures EmitInstruction(pc, word, relocated, 0) == RESERVED_WORD
  {
    hide Classify;
  }

  lemma RunStop(fpu: FloatUnit, m: Machine, current: Word)
    ensures Exec(fpu, m, current, RESERVED_WORD) == m.(stop := InvalidPc)
  {
    hide Eval, ExecTransfer;
  }

  /** On intact code, one turn of the generated loop is one interpreted step. */
  lemma StepsAgree(fpu: FloatUnit, image: Image, m: Machine)
    requires WholeWords(image) && OnCode(fpu, image, m) && m.stop == Running && m.gpr[0] == 0
    ensures SameOutcome(GeneratedStep(fpu, Cases(image), m), InterpretedStep(fpu, m))
    ensures var next := InterpretedStep(fpu, m);
      next.stop == Running ==>
        GeneratedStep(fpu, Cases(image), m) == next && next.gpr[0] == 0 && next.mem.base == m.mem.base
  {
    hide GeneratedStep, InterpretedStep, Cases, CodeFrom, RelocatedWords, SameShape, Machine.Load, Classify;
    var pc := Sub(m.pc, m.mem.base);
    var word, fetched := Code(image)[pc], m.Load(m.pc, 4).0;
    SubThenAdd(m.pc, m.mem.base);
    if Decode(word).Valid() {
      ValidStepsAgree(fpu, image, m, pc, word, fetched);
    } else {
      ReservedStepsAgree(fpu, image, m, pc, word, fetched);
    }
  }

  /** The generated run function and the interpreter reach the same outcome from
      every state, for every step count, as long as the run stays on words that
      memory still holds and that are lowered faithfully. */
  lemma {:induction false} RunsAgree(fpu: FloatUnit, image: Image, m: Machine, returnAddress: Word, steps: nat)
    requires WholeWords(image) && m.stop == Running && m.gpr[0] == 0
    requires StaysOnCode(fpu, image, m, returnAddress, steps)
    ensures SameOutcome(RunGenerated(fpu, Cases(image), m, returnAddress, steps),
                        RunInterpreted(fpu, m, returnAddress, steps))
    decreases steps
  {
    hide GeneratedStep, InterpretedStep, Cases, OnCode;
    if steps > 0 && !AtReturn(m, returnAddress) {
      StepsAgree(fpu, image, m);
      var next := InterpretedStep(fpu, m);
      if next.stop == Running {
        RunsAgree(fpu, image, next, returnAddress, steps - 1);
      }
    }
  }
}
