/** One generated case of the dispatch switch does to the machine what the
    interpreter does to it. */
module Simulation {
  import opened Words
  import opened GuestMachine
  import opened Vfpu
  import opened FloatConversion
  import opened VfpuProofs
  import opened VectorTransfers
  import opened Decoder
  import opened GeneratedCode
  import opened Emitter
  import FlowFrames
  import I = Interpreter

  /** The code a word is lowered to is run at its relocated address. */
  predicate At(m: Machine, pc: Word, current: Word) {
    current == Add(m.mem.base, pc)
  }

  /** What `fetched`, the word in guest memory, must share with `word`, the word
      the translator saw.  A relocated word keeps only the fields that the
      generated code does not read again at run time; of a vector transfer it
      reads none again. */
  predicate SameShape(word: Word, fetched: Word, relocated: bool) {
    if !relocated then fetched == word
    else match I.FamilyOf(Op(word))
      case Jump => fetched / 0x400_0000 == word / 0x400_0000
      case Regimm => fetched / 0x1_0000 == word / 0x1_0000
      case CompareBranch => fetched / 0x1_0000 == word / 0x1_0000
      case Immediate => fetched / 0x1_0000 == word / 0x1_0000
      case MemoryAccess => fetched / 0x1_0000 == word / 0x1_0000
      case Float => fetched / 0x1_0000 == word / 0x1_0000 && (Rs(word) == 0x08 || fetched == word)
      case Vector =>
        fetched == word ||
        (IsTransfer(word) && fetched / 0x1_0000 == word / 0x1_0000 && ReadsAlike(word, fetched))
      case _ => fetched == word
  }

  /** The equations of Eval, usable at any depth of an expression. */
  lemma EvalRules(fpu: FloatUnit, m: Machine, current: Word)
    ensures forall i: nat {:trigger Eval(fpu, m, current, Gpr(i))} :: i < 32 ==> Eval(fpu, m, current, Gpr(i)) == m.gpr[i]
    ensures forall v: Word :: Eval(fpu, m, current, Const(v)) == v
    ensures Eval(fpu, m, current, MemoryBase) == m.mem.base
    ensures forall o: Operator, l: Expr, r: Expr {:trigger Eval(fpu, m, current, Binary(o, l, r))} ::
      Eval(fpu, m, current, Binary(o, l, r)) == Apply(o, Eval(fpu, m, current, l), Eval(fpu, m, current, r))
    ensures forall o: UnaryOperator, e: Expr {:trigger Eval(fpu, m, current, Unary(o, e))} ::
      Eval(fpu, m, current, Unary(o, e)) == ApplyUnary(o, Eval(fpu, m, current, e))
    ensures forall c: Expr, y: Expr, n: Expr {:trigger Eval(fpu, m, current, Choose(c, y, n))} ::
      Eval(fpu, m, current, Choose(c, y, n))
      == if Eval(fpu, m, current, c) != 0 then Eval(fpu, m, current, y) else Eval(fpu, m, current, n)
  {
    hide Apply, ApplyUnary, ApplyFloat, InstructionWord;
  }

  lemma RunIf(fpu: FloatUnit, m: Machine, current: Word, c: Expr, yes: Stmt, no: Stmt)
    ensures Exec(fpu, m, current, If(c, yes, no))
         == if Eval(fpu, m, current, c) != 0 then Exec(fpu, m, current, yes) else Exec(fpu, m, current, no)
  {
    hide Eval, ExecRegister;
  }

  lemma RunSeq(fpu: FloatUnit, m: Machine, current: Word, first: Stmt, second: Stmt)
    ensures Exec(fpu, m, current, Seq(first, second)) == Exec(fpu, Exec(fpu, m, current, first), current, second)
  {
    hide Eval, ExecRegister;
  }

  lemma RunSetGpr(fpu: FloatUnit, m: Machine, current: Word, index: nat, e: Expr)
    requires index < 32
    ensures Exec(fpu, m, current, SetGpr(index, e)) == m.Set(index, Eval(fpu, m, current, e))
  {
    hide Eval, ExecTransfer, EvalWide, I.CompareFloats;
  }

  lemma RunTakeBranch(fpu: FloatUnit, m: Machine, current: Word, e: Expr)
    ensures Exec(fpu, m, current, TakeBranch(e)) == m.Jump(Eval(fpu, m, current, e))
  {
    hide Eval, ExecTransfer, EvalWide, I.CompareFloats;
  }

  lemma LinkAgrees(fpu: FloatUnit, m: Machine, pc: Word, current: Word)
    requires At(m, pc, current)
    ensures Eval(fpu, m, current, Link(pc)) == Add(current, 8)
  {
    hide Eval;
    EvalRules(fpu, m, current);
    AddAssociative(m.mem.base, pc, 8);
  }

  /** Whatever an instruction puts into register 0 is gone after the step. */
  lemma ZeroAbsorbs(m: Machine)
    ensures forall v: Word :: m.Set(0, v).Set(0, 0) == m.Set(0, 0)
  {
    forall v: Word ensures m.Set(0, v).Set(0, 0) == m.Set(0, 0) {
      assert m.gpr[0 := v][0 := 0] == m.gpr[0 := 0];
    }
  }

  lemma AssignAgrees(fpu: FloatUnit, m: Machine, current: Word, index: nat, e: Expr)
    requires index < 32
    ensures Exec(fpu, m, current, Assign(index, e)).Set(0, 0) == m.Set(index, Eval(fpu, m, current, e)).Set(0, 0)
  {
    hide Eval, ExecRegister;
    ZeroAbsorbs(m);
    if index != 0 {
      RunSetGpr(fpu, m, current, index, e);
    }
  }

  lemma ArithmeticAgrees(fpu: FloatUnit, m: Machine, current: Word, code: nat, rs: nat, rt: nat)
    requires rs < 32 && rt < 32
    ensures Eval(fpu, m, current, ArithmeticExpr(code, Gpr(rs), Gpr(rt)))
         == I.ArithmeticValue(code, m.gpr[rs], m.gpr[rt])
  {
    hide Eval, CountLeadingZeros, CountLeadingOnes, BitwiseWord, S32;
    EvalRules(fpu, m, current);
  }

  lemma ShiftAgrees(fpu: FloatUnit, m: Machine, current: Word, d: Decoded)
    requires d.rs < 32 && d.rt < 32 && d.shift < 32
    ensures Eval(fpu, m, current, ShiftExpr(d, Gpr(d.rs), Gpr(d.rt))) == I.ShiftValue(d, m.gpr[d.rs], m.gpr[d.rt])
  {
    hide Eval, ShiftLeft, ShiftRight, ShiftRightArithmetic, RotateRight;
    EvalRules(fpu, m, current);
  }

  lemma DivideAgrees(fpu: FloatUnit, m: Machine, current: Word, rs: nat, rt: nat)
    requires rs < 32 && rt < 32
    ensures Exec(fpu, m, current, EmitDivide(Gpr(rs), Gpr(rt))) == I.DivideSigned(m, m.gpr[rs], m.gpr[rt])
  {
    hide Eval, SignedQuotient, SignedRemainder, ExecTransfer, EvalWide, I.CompareFloats;
    EvalRules(fpu, m, current);
  }

  lemma DivideUnsignedAgrees(fpu: FloatUnit, m: Machine, current: Word, rs: nat, rt: nat)
    requires rs < 32 && rt < 32
    ensures Exec(fpu, m, current, EmitDivideUnsigned(Gpr(rs), Gpr(rt))) == I.DivideUnsigned(m, m.gpr[rs], m.gpr[rt])
  {
    hide Eval, UnsignedQuotient, UnsignedRemainder, ExecTransfer, EvalWide, I.CompareFloats;
    EvalRules(fpu, m, current);
  }

  lemma WideAgrees(m: Machine, d: Decoded)
    requires d.rs < 32 && d.rt < 32
    ensures EvalWide(m, Product(true, d.rs, d.rt)) == I.SignedProduct(m.gpr[d.rs], m.gpr[d.rt])
    ensures EvalWide(m, Product(false, d.rs, d.rt)) == I.UnsignedProduct(m.gpr[d.rs], m.gpr[d.rt])
    ensures forall w {:trigger EvalWide(m, AccumulatorPlus(w))} :: EvalWide(m, AccumulatorPlus(w)) == I.Accumulator(m) + EvalWide(m, w)
    ensures forall w {:trigger EvalWide(m, AccumulatorMinus(w))} :: EvalWide(m, AccumulatorMinus(w)) == I.Accumulator(m) - EvalWide(m, w)
  {
    hide I.SignedProduct, I.UnsignedProduct, I.Accumulator;
  }

  lemma HiLoAgrees(fpu: FloatUnit, m: Machine, d: Decoded, current: Word)
    requires d.rs < 32 && d.rt < 32 && d.rd < 32
    requires d.function_ in {0x10, 0x11, 0x12, 0x13, 0x18, 0x19, 0x1a, 0x1b, 0x1c, 0x1d, 0x2e, 0x2f}
    ensures Exec(fpu, m, current, EmitHiLo(d)).Set(0, 0) == I.ExecuteHiLo(m, d).Set(0, 0)
  {
    hide I.SignedProduct, I.UnsignedProduct, EvalWide, I.SetHiLo, I.Accumulator;
    hide I.DivideSigned, I.DivideUnsigned, EmitDivide, EmitDivideUnsigned, ExecTransfer, I.CompareFloats;
    var f := d.function_;
    if f == 0x1a {
      DivideAgrees(fpu, m, current, d.rs, d.rt);
    } else if f == 0x1b {
      DivideUnsignedAgrees(fpu, m, current, d.rs, d.rt);
    } else if f == 0x10 {
      AssignAgrees(fpu, m, current, d.rd, Hi);
    } else if f == 0x12 {
      AssignAgrees(fpu, m, current, d.rd, Lo);
    } else if f in {0x18, 0x19, 0x1c, 0x1d, 0x2e, 0x2f} {
      WideAgrees(m, d);
    }
  }

  // ----- operands read from the relocated word in guest memory -----

  /** The aligned word that both the interpreter and the relocated immediates
      read at `current`. */
  ghost predicate Fetches(m: Machine, current: Word, fetched: Word) {
    current % 4 == 0 && m.Load(current, 4) == (fetched, m)
  }

  lemma FetchedWord(m: Machine, current: Word, fetched: Word, fallback: Word)
    requires Fetches(m, current, fetched)
    requires m.stop == Running
    ensures InstructionWord(m, current, fallback) == fetched
  {
    hide Peek;
  }

  lemma TopHalf(w: Word)
    ensures Op(w) == w / 0x1_0000 / 0x400
    ensures Rs(w) == w / 0x1_0000 / 0x20 % 32
    ensures Rt(w) == w / 0x1_0000 % 32
  {
  }

  lemma SameTopHalf(a: Word, b: Word)
    requires a / 0x1_0000 == b / 0x1_0000
    ensures Op(a) == Op(b) && Rs(a) == Rs(b) && Rt(a) == Rt(b)
  {
    TopHalf(a);
    TopHalf(b);
  }

  lemma ImmediatesAgree(fpu: FloatUnit, m: Machine, current: Word, word: Word, fetched: Word, relocated: bool)
    requires Fetches(m, current, fetched) && m.stop == Running
    requires relocated || fetched == word
    ensures Eval(fpu, m, current, ImmediateOf(word, relocated)) == fetched % 0x1_0000
    ensures Eval(fpu, m, current, SignedImmediateOf(word, relocated)) == SignExtend16(fetched)
  {
    hide InstructionWord, Apply, ApplyFloat, ApplyUnary, SignExtend16;
    FetchedWord(m, current, fetched, word);
  }

  lemma BranchTargetWraps(current: Word, word: Word)
    ensures Wrap(current + 4 + SignExtend16(word) * 4) == BranchTarget(current, word)
  {
    var e: int := SignExtend16(word);
    if e >= 0x8000_0000 {
      assert current + 4 + e * 4 == current + 4 + S32(e) * 4 + 4 * TWO32;
    }
  }

  lemma BranchTargetsAgree(fpu: FloatUnit, m: Machine, pc: Word, current: Word, word: Word, fetched: Word, relocated: bool)
    requires Fetches(m, current, fetched) && m.stop == Running && At(m, pc, current)
    requires relocated || fetched == word
    ensures Eval(fpu, m, current, BranchTargetOf(pc, word, relocated)) == BranchTarget(current, fetched)
  {
    hide InstructionWord, ApplyFloat, ApplyUnary, SignExtend16, BranchTarget;
    FetchedWord(m, current, fetched, word);
    BranchTargetWraps(current, fetched);
    BranchTargetShift(m.mem.base, pc, word);
  }

  // ----- families -----

  lemma ImmediateValuesAgree(fpu: FloatUnit, m: Machine, current: Word, op: nat, s: Expr, immediate: Expr, signed: Expr)
    ensures Eval(fpu, m, current, ImmediateExpr(op, s, immediate, signed))
         == I.ImmediateValue(op, Eval(fpu, m, current, s), Eval(fpu, m, current, immediate), Eval(fpu, m, current, signed))
  {
    hide Eval, S32, BitwiseWord, ShiftLeft;
    EvalBinary(fpu, m, current, s, immediate, signed);
  }

  lemma EvalBinary(fpu: FloatUnit, m: Machine, current: Word, s: Expr, immediate: Expr, signed: Expr)
    ensures forall o: Operator ::
      Eval(fpu, m, current, Binary(o, s, signed)) == Apply(o, Eval(fpu, m, current, s), Eval(fpu, m, current, signed))
    ensures forall o: Operator ::
      Eval(fpu, m, current, Binary(o, s, immediate)) == Apply(o, Eval(fpu, m, current, s), Eval(fpu, m, current, immediate))
    ensures Eval(fpu, m, current, Binary(ShiftUp, immediate, Const(16)))
         == Apply(ShiftUp, Eval(fpu, m, current, immediate), 16)
  {
    hide Apply, ApplyUnary, ApplyFloat, InstructionWord;
  }

  lemma ImmediateAgrees(fpu: FloatUnit, m: Machine, current: Word, word: Word, fetched: Word, relocated: bool)
    requires Fetches(m, current, fetched) && m.stop == Running
    requires I.FamilyOf(Op(word)).Immediate? && SameShape(word, fetched, relocated)
    ensures Exec(fpu, m, current, EmitImmediate(Decode(word), relocated)).Set(0, 0)
         == I.ExecuteImmediate(m, Decode(fetched)).Set(0, 0)
  {
    hide Eval, Exec, Classify, I.ImmediateValue, ImmediateExpr, Assign, SignExtend16, ImmediateOf, SignedImmediateOf;
    SameTopHalf(word, fetched);
    ImmediatesAgree(fpu, m, current, word, fetched, relocated);
    EvalRules(fpu, m, current);
    var s, immediate, signed := Gpr(Rs(word)), ImmediateOf(word, relocated), SignedImmediateOf(word, relocated);
    ImmediateValuesAgree(fpu, m, current, Op(word), s, immediate, signed);
    AssignAgrees(fpu, m, current, Rt(word), ImmediateExpr(Op(word), s, immediate, signed));
  }

  lemma BranchIfAgrees(fpu: FloatUnit, m: Machine, pc: Word, current: Word, word: Word, fetched: Word, relocated: bool,
                       condition: Expr, taken: bool, likely: bool)
    requires Fetches(m, current, fetched) && m.stop == Running && At(m, pc, current)
    requires relocated || fetched == word
    requires (Eval(fpu, m, current, condition) != 0) == taken
    ensures Exec(fpu, m, current, BranchIf(condition, BranchTargetOf(pc, word, relocated), likely, pc))
         == I.Branch(m, Decode(fetched), current, taken, likely)
  {
    hide Eval, ExecTransfer, EvalWide, I.CompareFloats, BranchTargetOf, BranchTarget, Classify;
    BranchTargetsAgree(fpu, m, pc, current, word, fetched, relocated);
    LinkAgrees(fpu, m, pc, current);
    RunIf(fpu, m, current, condition, TakeBranch(BranchTargetOf(pc, word, relocated)),
          if likely then SetPc(Link(pc)) else Nop);
  }

  lemma CompareBranchAgrees(fpu: FloatUnit, m: Machine, pc: Word, current: Word, word: Word, fetched: Word, relocated: bool)
    requires Fetches(m, current, fetched) && m.stop == Running && At(m, pc, current)
    requires I.FamilyOf(Op(word)).CompareBranch? && SameShape(word, fetched, relocated)
    ensures Exec(fpu, m, current, EmitCompareBranch(Decode(word), pc, relocated))
         == I.ExecuteCompareBranch(m, Decode(fetched), current)
  {
    hide Eval, Exec, Classify, BranchIf, I.Branch;
    SameTopHalf(word, fetched);
    EvalRules(fpu, m, current);
    var s, t := Gpr(Rs(word)), Gpr(Rt(word));
    var a, b := m.gpr[Rs(word)], m.gpr[Rt(word)];
    var kind := Op(word) % 4;
    var condition, taken :=
      (if kind == 0 then Binary(Equal, s, t)
       else if kind == 1 then Binary(NotEqual, s, t)
       else if kind == 2 then Binary(SignedAtMost, s, Const(0))
       else Binary(SignedGreater, s, Const(0))),
      (if kind == 0 then a == b
       else if kind == 1 then a != b
       else if kind == 2 then S32(a) <= 0
       else S32(a) > 0);
    BranchIfAgrees(fpu, m, pc, current, word, fetched, relocated, condition, taken, Op(word) >= 0x14);
  }

  lemma RegimmAgrees(fpu: FloatUnit, m: Machine, pc: Word, current: Word, word: Word, fetched: Word, relocated: bool)
    requires Fetches(m, current, fetched) && m.stop == Running && At(m, pc, current)
    requires Op(word) == 0x01 && SameShape(word, fetched, relocated)
    ensures Exec(fpu, m, current, EmitRegimm(Decode(word), pc, relocated))
         == I.ExecuteRegimm(m, Decode(fetched), current)
  {
    hide Eval, Exec, Classify, BranchIf, I.Branch;
    SameTopHalf(word, fetched);
    var rt := Rt(word);
    var ge := rt == 0x01 || rt == 0x03 || rt == 0x11 || rt == 0x13;
    var linked := if RegimmLink(rt) then m.Set(31, Add(current, 8)) else m;
    LinkAgrees(fpu, m, pc, current);
    RunSetGpr(fpu, m, current, 31, Link(pc));
    EvalRules(fpu, linked, current);
    FetchKept(m, linked, current, fetched);
    var condition := Binary(if ge then SignedAtLeast else SignedLess, Gpr(Rs(word)), Const(0));
    var value := S32(linked.gpr[Rs(word)]);
    BranchIfAgrees(fpu, linked, pc, current, word, fetched, relocated, condition,
                   if ge then value >= 0 else value < 0, RegimmLikely(rt));
    RunSeq(fpu, m, current, SetGpr(31, Link(pc)),
           BranchIf(condition, BranchTargetOf(pc, word, relocated), RegimmLikely(rt), pc));
  }

  /** Registers play no part in fetching. */
  lemma FetchKept(m: Machine, other: Machine, current: Word, fetched: Word)
    requires Fetches(m, current, fetched) && m.stop == Running && other.mem == m.mem
    ensures Fetches(other, current, fetched)
  {
    hide Peek;
  }

  lemma JumpAgrees(fpu: FloatUnit, m: Machine, pc: Word, current: Word, word: Word, fetched: Word, relocated: bool, preferred: Word)
    requires Fetches(m, current, fetched) && m.stop == Running && At(m, pc, current)
    requires I.FamilyOf(Op(word)).Jump? && SameShape(word, fetched, relocated)
    requires relocated || JumpsAgree(m.mem.base, pc, preferred)
    ensures Exec(fpu, m, current, EmitJump(Decode(word), pc, relocated, preferred))
         == I.ExecuteJump(m, Decode(fetched), current)
  {
    hide Eval, Exec, Classify, JumpTargetOf, I.JumpTarget;
    LinkAgrees(fpu, m, pc, current);
    RunSetGpr(fpu, m, current, 31, Link(pc));
    var linked := m.Set(31, Add(current, 8));
    var target := JumpTargetOf(pc, word, relocated, preferred);
    FetchKept(m, linked, current, fetched);
    JumpTargetAgrees(fpu, m, pc, current, word, fetched, relocated, preferred);
    JumpTargetAgrees(fpu, linked, pc, current, word, fetched, relocated, preferred);
    RunTakeBranch(fpu, m, current, target);
    RunTakeBranch(fpu, linked, current, target);
    RunSeq(fpu, m, current, SetGpr(31, Link(pc)), TakeBranch(target));
  }

  /** The top four bits that a jump at `pc` keeps. */
  function JumpRegion(pc: Word): Word {
    Add(pc, 4) - Add(pc, 4) % 0x1000_0000
  }

  /** When the baked target of an unrelocated J or JAL lands where the CPU goes:
      a condition on addresses alone, whatever the target field holds. */
  predicate JumpsAgree(base: Word, pc: Word, preferred: Word) {
    Sub(base, preferred) == Sub(JumpRegion(Add(base, pc)), JumpRegion(Add(pc, preferred)))
  }

  /** Code that runs at the base it was linked for always agrees. */
  lemma OwnBaseAgrees(base: Word, pc: Word)
    ensures JumpsAgree(base, pc, base)
  {
    hide JumpRegion;
    assert Add(base, pc) == Add(pc, base);
  }

  /** With the default base 0 only a memory base on a 256 MiB boundary agrees. */
  lemma DefaultBaseAgreesWhere(base: Word, pc: Word)
    requires base + pc + 4 < TWO32 && pc + 4 < 0x1000_0000
    ensures JumpsAgree(base, pc, 0) <==> base % 0x1000_0000 == 0
  {
    hide JumpRegion;
    assert Add(base, pc) == base + pc && Add(pc, 0) == pc;
    RegionBelowWrap(base + pc);
    RegionBelowWrap(pc);
    RegionOfSum(base, pc + 4);
  }

  lemma RegionBelowWrap(pc: Word)
    requires pc + 4 < TWO32
    ensures JumpRegion(pc) == pc + 4 - (pc + 4) % 0x1000_0000
  {
    assert Add(pc, 4) == pc + 4;
  }

  lemma RegionOfSum(base: int, offset: int)
    requires 0 <= base && 0 <= offset < 0x1000_0000
    ensures base == base + offset - (base + offset) % 0x1000_0000 <==> base % 0x1000_0000 == 0
  {
    if base == base + offset - (base + offset) % 0x1000_0000 {
      assert base == (base + offset) / 0x1000_0000 * 0x1000_0000;
    }
  }

  /** The usual load address of a PRX: a J of one emitted case lands elsewhere. */
  lemma DefaultBaseMisses()
    ensures !JumpsAgree(0x0880_4000, 0, 0)
    ensures Add(0x0880_4000, Sub(I.JumpTarget(Add(0, 0), 0x0800_0000), 0)) == 0x0880_4000
    ensures I.JumpTarget(Add(0x0880_4000, 0), 0x0800_0000) == 0
  {
    DefaultBaseAgreesWhere(0x0880_4000, 0);
  }

  /** It is exactly the condition: with it every target agrees, without it none does. */
  lemma JumpConditionIsExact(base: Word, pc: Word, preferred: Word, word: Word)
    ensures Add(base, Sub(I.JumpTarget(Add(pc, preferred), word), preferred)) == I.JumpTarget(Add(base, pc), word)
       <==> JumpsAgree(base, pc, preferred)
  {
    var field: int := word % 0x400_0000 * 4;
    var here: int := JumpRegion(Add(base, pc));
    var there: int := JumpRegion(Add(pc, preferred));
    assert I.JumpTarget(Add(pc, preferred), word) == there + field;
    assert I.JumpTarget(Add(base, pc), word) == here + field;
    JumpArithmetic(base, preferred, here, there, field);
  }

  lemma JumpArithmetic(base: int, preferred: int, here: int, there: int, field: int)
    requires 0 <= base < TWO32 && 0 <= preferred < TWO32
    requires 0 <= here + field < TWO32 && 0 <= there + field < TWO32 && 0 <= here < TWO32 && 0 <= there < TWO32
    ensures (base + (there + field - preferred) % TWO32) % TWO32 == here + field
       <==> (base - preferred) % TWO32 == (here - there) % TWO32
  {
  }

  lemma JumpTargetAgrees(fpu: FloatUnit, m: Machine, pc: Word, current: Word, word: Word, fetched: Word, relocated: bool, preferred: Word)
    requires Fetches(m, current, fetched) && m.stop == Running && At(m, pc, current)
    requires I.FamilyOf(Op(word)).Jump? && SameShape(word, fetched, relocated)
    requires relocated || JumpsAgree(m.mem.base, pc, preferred)
    ensures Eval(fpu, m, current, JumpTargetOf(pc, word, relocated, preferred)) == I.JumpTarget(current, fetched)
  {
    hide InstructionWord, ApplyFloat, ApplyUnary, I.JumpTarget;
    FetchedWord(m, current, fetched, word);
    if !relocated {
      JumpConditionIsExact(m.mem.base, pc, preferred, word);
    }
  }

  // ----- opcode 0 -----

  /** jalr: the generated code stores the link before it reads the target. */
  predicate JalrAgrees(m: Machine, d: Decoded, current: Word)
    requires d.rs < 32
  {
    d.rd == 0 || d.rd != d.rs || m.gpr[d.rs] == Add(current, 8)
  }

  lemma JalrConditionIsExact(fpu: FloatUnit, m: Machine, pc: Word, current: Word, word: Word)
    requires At(m, pc, current) && Op(word) == 0 && FunctionCode(word) == 0x09
    ensures Exec(fpu, m, current, EmitSpecial(Decode(word), pc)) == I.ExecuteSpecial(m, Decode(word), current)
       <==> JalrAgrees(m, Decode(word), current)
  {
    hide Eval, Exec, Classify, I.ArithmeticValue, I.ShiftValue, ArithmeticExpr, ShiftExpr, I.ExecuteHiLo, EmitHiLo;
    var rd, rs := Rd(word), Rs(word);
    LinkAgrees(fpu, m, pc, current);
    RunSetGpr(fpu, m, current, rd, Link(pc));
    RunTakeBranch(fpu, m, current, Gpr(rs));
    EvalRules(fpu, m, current);
    var linked := m.Set(rd, Add(current, 8));
    RunTakeBranch(fpu, linked, current, Gpr(rs));
    EvalRules(fpu, linked, current);
    RunSeq(fpu, m, current, SetGpr(rd, Link(pc)), TakeBranch(Gpr(rs)));
    if rd != 0 {
      assert Exec(fpu, m, current, EmitSpecial(Decode(word), pc)).branchTarget == linked.gpr[rs];
      assert I.ExecuteSpecial(m, Decode(word), current).branchTarget == m.gpr[rs];
    }
  }

  /** jalr $31, $31 with 0x1000 in $31, run at 0: generated code goes to 8. */
  lemma JalrMisses(fpu: FloatUnit, m: Machine)
    requires m.mem.base == 0 && m.gpr[31] == 0x1000
    ensures Exec(fpu, m, 0, EmitSpecial(Decode(0x03e0_f809), 0)).branchTarget == 8
    ensures I.ExecuteSpecial(m, Decode(0x03e0_f809), 0).branchTarget == 0x1000
  {
    hide Eval, Exec, Classify, I.ArithmeticValue, I.ShiftValue, ArithmeticExpr, ShiftExpr, I.ExecuteHiLo, EmitHiLo;
    LinkAgrees(fpu, m, 0, 0);
    RunSetGpr(fpu, m, 0, 31, Link(0));
    var linked := m.Set(31, 8);
    RunTakeBranch(fpu, linked, 0, Gpr(31));
    EvalRules(fpu, linked, 0);
    RunSeq(fpu, m, 0, SetGpr(31, Link(0)), TakeBranch(Gpr(31)));
  }

  lemma ConditionalMoveAgrees(fpu: FloatUnit, m: Machine, current: Word, rd: nat, rs: nat, condition: Expr, taken: bool)
    requires rd < 32 && rs < 32 && (Eval(fpu, m, current, condition) != 0) == taken
    ensures Exec(fpu, m, current, if rd == 0 then Nop else If(condition, SetGpr(rd, Gpr(rs)), Nop)).Set(0, 0)
         == (if taken then m.Set(rd, m.gpr[rs]) else m).Set(0, 0)
  {
    hide Eval, ExecRegister;
    ZeroAbsorbs(m);
    EvalRules(fpu, m, current);
    RunSetGpr(fpu, m, current, rd, Gpr(rs));
    RunIf(fpu, m, current, condition, SetGpr(rd, Gpr(rs)), Nop);
  }

  lemma SpecialAgrees(fpu: FloatUnit, m: Machine, pc: Word, current: Word, word: Word)
    requires At(m, pc, current) && Op(word) == 0 && ValidSpecial(word)
    requires FunctionCode(word) == 0x09 ==> JalrAgrees(m, Decode(word), current)
    ensures Exec(fpu, m, current, EmitSpecial(Decode(word), pc)).Set(0, 0)
         == I.ExecuteSpecial(m, Decode(word), current).Set(0, 0)
  {
    hide Classify, I.ArithmeticValue, I.ShiftValue, ArithmeticExpr, ShiftExpr, I.ExecuteHiLo, EmitHiLo, Assign, Eval;
    hide ExecTransfer, EvalWide, I.CompareFloats;
    var d := Decode(word);
    var s, t := Gpr(d.rs), Gpr(d.rt);
    var f := d.function_;
    EvalRules(fpu, m, current);
    ZeroAbsorbs(m);
    if f <= 0x07 {
      ShiftAgrees(fpu, m, current, d);
      AssignAgrees(fpu, m, current, d.rd, ShiftExpr(d, s, t));
    } else if f == 0x0a {
      ConditionalMoveAgrees(fpu, m, current, d.rd, d.rs, Binary(Equal, t, Const(0)), m.gpr[d.rt] == 0);
    } else if f == 0x0b {
      ConditionalMoveAgrees(fpu, m, current, d.rd, d.rs, Binary(NotEqual, t, Const(0)), m.gpr[d.rt] != 0);
    } else if f == 0x09 {
      JalrConditionIsExact(fpu, m, pc, current, word);
    } else if 0x10 <= f <= 0x13 || 0x18 <= f <= 0x1d || f >= 0x2e {
      HiLoAgrees(fpu, m, d, current);
    } else if f >= 0x16 {
      ArithmeticAgrees(fpu, m, current, f, d.rs, d.rt);
      AssignAgrees(fpu, m, current, d.rd, ArithmeticExpr(f, s, t));
    }
  }

  // ----- special2 and special3 -----

  lemma Special2Agrees(fpu: FloatUnit, m: Machine, current: Word, word: Word)
    requires Op(word) == 0x1c && Decode(word).Valid()
    ensures Exec(fpu, m, current, EmitSpecial2(Decode(word))).Set(0, 0)
         == I.ExecuteSpecial2(m, Decode(word)).Set(0, 0)
  {
    hide Eval, Exec, Assign, CountLeadingZeros, CountLeadingOnes, S32, VfpuOpcodeSupported;
    EvalRules(fpu, m, current);
    var s, t := Gpr(Rs(word)), Gpr(Rt(word));
    var f := FunctionCode(word);
    AssignAgrees(fpu, m, current, Rd(word),
      if f == 0x20 then Unary(LeadingZeros, s)
      else if f == 0x21 then Unary(LeadingOnes, s)
      else if f == 0x2c then Choose(Binary(SignedGreater, s, t), s, t)
      else Choose(Binary(SignedLess, s, t), s, t));
  }

  lemma Special3Agrees(fpu: FloatUnit, m: Machine, current: Word, word: Word)
    requires Op(word) == 0x1f && ValidSpecial3(word)
    ensures Exec(fpu, m, current, EmitSpecial3(Decode(word))).Set(0, 0)
         == I.ExecuteSpecial3(m, Decode(word)).Set(0, 0)
  {
    hide Eval, Exec, Assign, BitwiseWord, ShiftLeft, ShiftRight, ReverseBits, ByteSwap, SwapHalfwordBytes, FieldMask;
    hide SignExtend8, SignExtend16, Classify;
    EvalRules(fpu, m, current);
    var t := Gpr(Rt(word));
    var f, shift := FunctionCode(word), Shift(word);
    if f == 0 {
      AssignAgrees(fpu, m, current, Rt(word),
        Binary(BitAnd, Binary(ShiftDown, Gpr(Rs(word)), Const(shift)), Const(FieldMask(Rd(word) + 1))));
    } else if f == 4 {
      var positioned := ShiftLeft(FieldMask(Rd(word) - shift + 1), shift);
      AssignAgrees(fpu, m, current, Rt(word), Binary(BitOr,
        Binary(BitAnd, t, Const(Complement(positioned))),
        Binary(BitAnd, Binary(ShiftUp, Gpr(Rs(word)), Const(shift)), Const(positioned))));
    } else {
      AssignAgrees(fpu, m, current, Rd(word), Unary(
        if shift == 0x14 then Reverse
        else if shift == 0x02 then SwapHalves
        else if shift == 0x03 then SwapBytes
        else if shift == 0x10 then Extend8
        else Extend16, t));
    }
  }

  // ----- memory -----

  lemma AddressAgrees(fpu: FloatUnit, m: Machine, current: Word, word: Word, fetched: Word, relocated: bool)
    requires Fetches(m, current, fetched) && m.stop == Running
    requires relocated || fetched == word
    requires Rs(word) == Rs(fetched)
    ensures Eval(fpu, m, current, Address(Decode(word), relocated)) == Add(m.gpr[Rs(fetched)], SignExtend16(fetched))
  {
    hide Eval, SignExtend16, SignedImmediateOf, Classify;
    ImmediatesAgree(fpu, m, current, word, fetched, relocated);
    EvalRules(fpu, m, current);
  }

  lemma RunTransfer(fpu: FloatUnit, m: Machine, current: Word, s: Stmt)
    requires s.Load? || s.LoadLeft? || s.LoadRight? || s.Store? || s.StoreLeft? || s.StoreRight? || s.CallVfpu? || s.PrefixFree?
    ensures Exec(fpu, m, current, s) == ExecTransfer(fpu, m, current, s)
  {
    hide Eval, ExecTransfer;
  }

  lemma LoadAgrees(fpu: FloatUnit, m: Machine, current: Word, index: nat, width: nat, signed: bool, address: Expr)
    requires index < 32 && width in {1, 2, 4}
    ensures Exec(fpu, m, current, Load(GprOrDiscard(index), width, signed, address)).Set(0, 0)
         == (var (value, next) := m.Load(Eval(fpu, m, current, address), width);
             next.Set(index, Extended(value, width, signed))).Set(0, 0)
  {
    hide Eval, Machine.Load, Exec, Extended;
    RunTransfer(fpu, m, current, Load(GprOrDiscard(index), width, signed, address));
    ZeroAbsorbs(m.Load(Eval(fpu, m, current, address), width).1);
  }

  lemma LoadSideAgrees(fpu: FloatUnit, m: Machine, current: Word, index: nat, address: Expr)
    requires index < 32 && m.gpr[0] == 0
    ensures var merged := if index == 0 then Const(0) else Gpr(index);
      Exec(fpu, m, current, LoadLeft(GprOrDiscard(index), address, merged)).Set(0, 0)
      == (var (value, next) := m.LoadWordLeft(Eval(fpu, m, current, address), m.gpr[index]);
          next.Set(index, value)).Set(0, 0)
    ensures var merged := if index == 0 then Const(0) else Gpr(index);
      Exec(fpu, m, current, LoadRight(GprOrDiscard(index), address, merged)).Set(0, 0)
      == (var (value, next) := m.LoadWordRight(Eval(fpu, m, current, address), m.gpr[index]);
          next.Set(index, value)).Set(0, 0)
  {
    hide Eval, Machine.LoadWordLeft, Machine.LoadWordRight, Exec;
    EvalRules(fpu, m, current);
    var merged := if index == 0 then Const(0) else Gpr(index);
    RunTransfer(fpu, m, current, LoadLeft(GprOrDiscard(index), address, merged));
    RunTransfer(fpu, m, current, LoadRight(GprOrDiscard(index), address, merged));
    ZeroAbsorbs(m.LoadWordLeft(Eval(fpu, m, current, address), m.gpr[index]).1);
    ZeroAbsorbs(m.LoadWordRight(Eval(fpu, m, current, address), m.gpr[index]).1);
  }

  lemma StoreAgrees(fpu: FloatUnit, m: Machine, current: Word, address: Expr, value: Expr)
    ensures forall width: nat {:trigger Store(width, address, value)} :: width in {1, 2, 4} ==>
      Exec(fpu, m, current, Store(width, address, value))
      == m.Store(Eval(fpu, m, current, address), width, Eval(fpu, m, current, value))
    ensures Exec(fpu, m, current, StoreLeft(address, value))
         == m.StoreWordLeft(Eval(fpu, m, current, address), Eval(fpu, m, current, value))
    ensures Exec(fpu, m, current, StoreRight(address, value))
         == m.StoreWordRight(Eval(fpu, m, current, address), Eval(fpu, m, current, value))
  {
    hide Eval, Exec, Machine.Store, Machine.StoreWordLeft, Machine.StoreWordRight;
    forall width: nat | width in {1, 2, 4}
      ensures Exec(fpu, m, current, Store(width, address, value))
           == m.Store(Eval(fpu, m, current, address), width, Eval(fpu, m, current, value))
    {
      RunTransfer(fpu, m, current, Store(width, address, value));
    }
    RunTransfer(fpu, m, current, StoreLeft(address, value));
    RunTransfer(fpu, m, current, StoreRight(address, value));
  }

  lemma StoreConditionalAgrees(fpu: FloatUnit, m: Machine, current: Word, index: nat, address: Expr)
    requires index < 32
    ensures var store := Store(4, address, Gpr(index));
      Exec(fpu, m, current, if index == 0 then store else Seq(store, SetGpr(index, Const(1)))).Set(0, 0)
      == m.Store(Eval(fpu, m, current, address), 4, m.gpr[index]).Set(index, 1).Set(0, 0)
  {
    hide Eval, Machine.Store, Exec;
    EvalRules(fpu, m, current);
    StoreAgrees(fpu, m, current, address, Gpr(index));
    var stored := m.Store(Eval(fpu, m, current, address), 4, m.gpr[index]);
    ZeroAbsorbs(stored);
    EvalRules(fpu, stored, current);
    RunSetGpr(fpu, stored, current, index, Const(1));
    RunSeq(fpu, m, current, Store(4, address, Gpr(index)), SetGpr(index, Const(1)));
  }

  lemma LoadFloatAgrees(fpu: FloatUnit, m: Machine, current: Word, index: nat, address: Expr)
    requires index < 32
    ensures Exec(fpu, m, current, Load(ToFpr(index), 4, false, address))
         == (var (value, next) := m.Load(Eval(fpu, m, current, address), 4); next.SetFpr(index, value))
  {
    hide Eval, Exec, Machine.Load;
    RunTransfer(fpu, m, current, Load(ToFpr(index), 4, false, address));
  }

  lemma MemoryLoadsAgree(fpu: FloatUnit, m: Machine, current: Word, word: Word, fetched: Word, relocated: bool)
    requires Fetches(m, current, fetched) && m.stop == Running && m.gpr[0] == 0
    requires Op(word) in {0x20, 0x21, 0x22, 0x23, 0x24, 0x25, 0x26, 0x30, 0x31}
    requires SameShape(word, fetched, relocated)
    ensures Exec(fpu, m, current, EmitMemory(Decode(word), relocated)).Set(0, 0)
         == I.ExecuteMemory(m, Decode(fetched)).Set(0, 0)
  {
    hide Eval, Exec, Classify, Address, SignExtend8, SignExtend16, GprOrDiscard;
    hide Machine.Load, Machine.LoadWordLeft, Machine.LoadWordRight;
    hide Machine.Store, Machine.StoreWordLeft, Machine.StoreWordRight;
    SameTopHalf(word, fetched);
    AddressAgrees(fpu, m, current, word, fetched, relocated);
    var address := Address(Decode(word), relocated);
    var op, rt := Op(word), Rt(word);
    if op == 0x22 || op == 0x26 {
      LoadSideAgrees(fpu, m, current, rt, address);
    } else if op == 0x31 {
      LoadFloatAgrees(fpu, m, current, rt, address);
    } else {
      var width := if op == 0x20 || op == 0x24 then 1 else if op == 0x21 || op == 0x25 then 2 else 4;
      LoadAgrees(fpu, m, current, rt, width, op == 0x20 || op == 0x21, address);
    }
  }

  lemma RunNop(fpu: FloatUnit, m: Machine, current: Word)
    ensures Exec(fpu, m, current, Nop) == m
  {
  }

  lemma EvalRegisters(fpu: FloatUnit, m: Machine, current: Word, index: nat)
    requires index < 32
    ensures Eval(fpu, m, current, Gpr(index)) == m.gpr[index] && Eval(fpu, m, current, Fpr(index)) == m.fpr[index]
  {
  }

  lemma MemoryStoresAgree(fpu: FloatUnit, m: Machine, current: Word, word: Word, fetched: Word, relocated: bool)
    requires Fetches(m, current, fetched) && m.stop == Running
    requires Op(word) in {0x28, 0x29, 0x2a, 0x2b, 0x2e, 0x2f, 0x38, 0x39}
    requires SameShape(word, fetched, relocated)
    ensures Exec(fpu, m, current, EmitMemory(Decode(word), relocated)).Set(0, 0)
         == I.ExecuteMemory(m, Decode(fetched)).Set(0, 0)
  {
    hide Eval, Exec, Classify, Address, SignExtend8, SignExtend16, GprOrDiscard;
    hide Machine.Load, Machine.LoadWordLeft, Machine.LoadWordRight;
    hide Machine.Store, Machine.StoreWordLeft, Machine.StoreWordRight;
    SameTopHalf(word, fetched);
    AddressAgrees(fpu, m, current, word, fetched, relocated);
    var address := Address(Decode(word), relocated);
    var op, rt := Op(word), Rt(word);
    if op == 0x2f {
      RunNop(fpu, m, current);
    } else if op == 0x38 {
      StoreConditionalAgrees(fpu, m, current, rt, address);
    } else if op == 0x39 {
      EvalRegisters(fpu, m, current, rt);
      StoreAgrees(fpu, m, current, address, Fpr(rt));
    } else {
      EvalRegisters(fpu, m, current, rt);
      StoreAgrees(fpu, m, current, address, Gpr(rt));
    }
  }

  lemma EvalFpr(fpu: FloatUnit, m: Machine, current: Word)
    ensures forall i: nat {:trigger Eval(fpu, m, current, Fpr(i))} :: i < 32 ==> Eval(fpu, m, current, Fpr(i)) == m.fpr[i]
    ensures Eval(fpu, m, current, Fcr31) == m.fcr31
    ensures forall cc, expected {:trigger Eval(fpu, m, current, ConditionIs(cc, expected))} ::
      Eval(fpu, m, current, ConditionIs(cc, expected)) == Bool32(I.FpuCondition(m, cc) == expected)
    ensures forall o, a, b {:trigger Eval(fpu, m, current, FloatCall(o, a, b))} ::
      Eval(fpu, m, current, FloatCall(o, a, b)) == ApplyFloat(fpu, o, Eval(fpu, m, current, a), Eval(fpu, m, current, b))
  {
    hide Apply, ApplyUnary, ApplyFloat, InstructionWord;
  }

  // ----- floats and vectors -----

  /** round.w.s and trunc.w.s: the generated code rounds with rounded_word, the
      interpreter with a plain cast.  In range, only halves above an even
      integer come out differently. */
  predicate FloatCastsAgree(fpu: FloatUnit, m: Machine, d: Decoded)
    requires d.rd < 32
  {
    var operand := m.fpr[d.rd];
    (d.op == 0x11 && d.rs == 0x10 && d.function_ == 0x0c ==>
      if InRange(operand) then !HalfAboveEven(operand) else fpu.roundOutOfRange(operand) == INVALID_CONVERSION) &&
    (d.op == 0x11 && d.rs == 0x10 && d.function_ == 0x0d ==>
      InRange(operand) || fpu.truncateOutOfRange(operand) == INVALID_CONVERSION)
  }

  lemma RunSetFpr(fpu: FloatUnit, m: Machine, current: Word, index: nat, e: Expr)
    requires index < 32
    ensures Exec(fpu, m, current, SetFpr(index, e)) == m.SetFpr(index, Eval(fpu, m, current, e))
  {
    hide Eval, ExecTransfer, EvalWide, I.CompareFloats;
  }

  lemma ScalarValueIsExact(fpu: FloatUnit, m: Machine, current: Word, d: Decoded)
    requires d.rt < 32 && d.rd < 32 && d.op == 0x11 && d.rs == 0x10
    ensures Eval(fpu, m, current, ScalarFloatExpr(d.function_, Fpr(d.rd), Fpr(d.rt)))
         == I.ScalarFloatValue(fpu, d.function_, m.fpr[d.rd], m.fpr[d.rt], m.fcr31 % 4)
       <==> FloatCastsAgree(fpu, m, d)
  {
    hide Eval, InRange, HalfAboveEven, RoundCast, TruncateCast, FloatConversion.RoundedWord;
    EvalFpr(fpu, m, current);
    EvalRules(fpu, m, current);
    RoundCastIsExact(fpu, m.fpr[d.rd]);
    TruncateCastIsExact(fpu, m.fpr[d.rd]);
  }

  /** Of the scalar operations only the two casts can differ, and they differ
      exactly on the operands that FloatCastsAgree excludes. */
  lemma FloatConditionIsExact(fpu: FloatUnit, m: Machine, current: Word, d: Decoded)
    requires d.rt < 32 && d.rd < 32 && d.shift < 32 && d.op == 0x11 && d.rs == 0x10
    ensures Exec(fpu, m, current, EmitScalarFloat(d)) == I.ExecuteScalarFloat(fpu, m, d)
       <==> FloatCastsAgree(fpu, m, d)
  {
    hide Eval, I.ScalarFloatValue, ScalarFloatExpr, ExecTransfer, EvalWide, I.CompareFloats;
    var e := ScalarFloatExpr(d.function_, Fpr(d.rd), Fpr(d.rt));
    EvalFpr(fpu, m, current);
    if d.function_ == 0x11 {
      RunIf(fpu, m, current, ConditionIs(d.rt / 4 % 8, d.rt % 2 == 1), SetFpr(d.shift, Fpr(d.rd)), Nop);
      RunSetFpr(fpu, m, current, d.shift, Fpr(d.rd));
    } else if d.function_ < 0x30 {
      RunSetFpr(fpu, m, current, d.shift, e);
      ScalarValueIsExact(fpu, m, current, d);
      assert m.SetFpr(d.shift, Eval(fpu, m, current, e)).fpr[d.shift] == Eval(fpu, m, current, e);
    }
  }

  /** round.w.s $f0, $f1 on 0.5: 1 in the interpreter, 0 in generated code. */
  lemma RoundDiffersOnHalf(fpu: FloatUnit, m: Machine, current: Word)
    requires m.fpr[1] == 0x3f00_0000
    ensures Exec(fpu, m, current, EmitScalarFloat(Decode(0x4600_080c))).fpr[0] == 0
    ensures I.ExecuteScalarFloat(fpu, m, Decode(0x4600_080c)).fpr[0] == 1
  {
    hide Eval, Exec, Classify, I.CompareFloats, RoundCast, FloatConversion.RoundedWord;
    EvalFpr(fpu, m, current);
    EvalRules(fpu, m, current);
    RunSetFpr(fpu, m, current, 0, FloatCall(RoundedWord, Fpr(1), Const(0)));
    HalfDiffers(fpu);
  }

  lemma FloatAgrees(fpu: FloatUnit, m: Machine, pc: Word, current: Word, word: Word, fetched: Word, relocated: bool)
    requires Fetches(m, current, fetched) && m.stop == Running && At(m, pc, current)
    requires Op(word) == 0x11 && Decode(word).Valid() && SameShape(word, fetched, relocated)
    requires FloatCastsAgree(fpu, m, Decode(word))
    ensures Exec(fpu, m, current, EmitFloat(Decode(word), pc, relocated)).Set(0, 0)
         == I.ExecuteFloat(fpu, m, Decode(fetched), current).Set(0, 0)
  {
    hide Eval, Classify, BranchIf, I.Branch, Assign, EmitScalarFloat, I.ExecuteScalarFloat, I.ScalarFloatValue;
    hide ExecTransfer, EvalWide, I.CompareFloats, Bit;
    SameTopHalf(word, fetched);
    EvalRules(fpu, m, current);
    EvalFpr(fpu, m, current);
    var rs, rt, rd := Rs(word), Rt(word), Rd(word);
    if rs == 0x08 {
      FlowFrames.FloatBranchBits(fetched);
      var cc, expected := rt / 4 % 8, rt % 2 == 1;
      BranchIfAgrees(fpu, m, pc, current, word, fetched, relocated, ConditionIs(cc, expected),
                     I.FpuCondition(m, cc) == expected, rt / 2 % 2 == 1);
    } else if rs == 0x10 {
      FloatConditionIsExact(fpu, m, current, Decode(word));
    } else if rs == 0x00 {
      AssignAgrees(fpu, m, current, rt, Fpr(rd));
    } else if rs == 0x02 {
      AssignAgrees(fpu, m, current, rt,
                   if rd == 0 then Const(0x0000_3351) else if rd == 31 then Fcr31 else Const(0));
    }
  }

  lemma RunVfpu(fpu: FloatUnit, m: Machine, pc: Word, current: Word, word: Word)
    requires At(m, pc, current)
    ensures Exec(fpu, m, current, CallVfpu(word, BaseRelative(pc))) == ExecuteVfpu(fpu, m, word, current)
  {
    hide Eval, ExecuteVfpu;
    EvalRules(fpu, m, current);
  }

  lemma RunGuarded(fpu: FloatUnit, m: Machine, current: Word, fast: Stmt, call: Stmt)
    requires fast.PrefixFree?
    ensures Exec(fpu, m, current, IfPrefixesIdentity(fast, call))
         == if PrefixesIdentity(m)
            then ExecutePrefixFree(fpu, m, fast.operation, fast.size, fast.vd, fast.vs, fast.vt)
            else Exec(fpu, m, current, call)
  {
    hide Eval, ExecutePrefixFree, PrefixesIdentity;
  }

  lemma VectorAgrees(fpu: FloatUnit, m: Machine, pc: Word, current: Word, word: Word)
    requires At(m, pc, current) && I.FamilyOf(Op(word)).Vector? && Decode(word).Valid()
    ensures Exec(fpu, m, current, EmitVfpu(Decode(word), pc)) == ExecuteVfpu(fpu, m, word, current)
  {
    hide Exec, ExecTransfer, Eval, ExecuteVfpu, ExecutePrefixFree, ExecuteLanes, VfpuOpcodeSupported, StaticOperation, PrefixesIdentity;
    var call := CallVfpu(word, BaseRelative(pc));
    RunVfpu(fpu, m, pc, current, word);
    if StaticOperation(word) != NoOperation {
      var fast := PrefixFree(StaticOperation(word), VectorSize(word), word % 128, word / 0x100 % 128, word / 0x1_0000 % 128);
      RunGuarded(fpu, m, current, fast, call);
      if PrefixesIdentity(m) {
        GuardedLoweringAgrees(fpu, m, word);
        StaticIsLanes(fpu, m, word, current);
      }
    }
  }

  lemma StaticIsLanes(fpu: FloatUnit, m: Machine, word: Word, current: Word)
    requires StaticOperation(word) != NoOperation
    ensures ExecuteVfpu(fpu, m, word, current) == ExecuteLanes(fpu, m, word, StaticOperation(word))
  {
    hide ExecuteLanes, ExecuteMove, ExecuteTransfer, ExecutePrefixOrImmediate;
  }

  // ----- relocated vector transfers -----

  lemma TransferIsValid(word: Word)
    requires IsTransfer(word)
    ensures I.FamilyOf(Op(word)).Vector? && Decode(word).Valid()
  {
    hide And;
  }

  lemma TransferKind(fpu: FloatUnit, m: Machine, word: Word, current: Word)
    requires IsTransfer(word)
    ensures ExecuteVfpu(fpu, m, word, current) == ExecuteTransfer(m, word)
  {
    hide ExecuteTransfer, ExecuteMove, ExecuteLanes, ExecutePrefixOrImmediate;
  }

  lemma RelocatedVectorAgrees(fpu: FloatUnit, m: Machine, pc: Word, current: Word, word: Word, fetched: Word, relocated: bool)
    requires At(m, pc, current) && m.gpr[0] == 0 && I.FamilyOf(Op(word)).Vector? && Decode(word).Valid()
    requires SameShape(word, fetched, relocated)
    ensures Exec(fpu, m, current, EmitVfpu(Decode(word), pc)) == ExecuteVfpu(fpu, m, fetched, current)
  {
    hide Exec, ExecuteVfpu, Classify, ExecuteTransfer, ReadsAlike;
    VectorAgrees(fpu, m, pc, current, word);
    if fetched != word {
      SameFields(word, fetched);
      TransferKind(fpu, m, word, current);
      TransferKind(fpu, m, fetched, current);
      AlikeAgree(m, word, fetched);
    }
  }

  /** The emitted transfer does here what the interpreter does with `fetched`. */
  ghost predicate TransferAgrees(fpu: FloatUnit, m: Machine, pc: Word, preferred: Word, word: Word, fetched: Word)
    requires IsTransfer(fetched)
  {
    TransferIsValid(fetched);
    var current := Add(m.mem.base, pc);
    Exec(fpu, m, current, EmitInstruction(pc, word, true, preferred)) == I.Execute(fpu, m, fetched, current)
  }

  lemma TransferMeans(fpu: FloatUnit, m: Machine, pc: Word, preferred: Word, word: Word, fetched: Word)
    requires IsTransfer(word) && IsTransfer(fetched)
    ensures TransferAgrees(fpu, m, pc, preferred, word, fetched)
       <==> ExecuteTransfer(m, word) == ExecuteTransfer(m, fetched)
  {
    hide Exec, ExecuteVfpu, Classify, ExecuteTransfer, EmitVfpu;
    var current := Add(m.mem.base, pc);
    TransferIsValid(word);
    TransferIsValid(fetched);
    VectorAgrees(fpu, m, pc, current, word);
    TransferKind(fpu, m, word, current);
    TransferKind(fpu, m, fetched, current);
  }

  /** A relocated vector transfer is lowered faithfully exactly if the relocated
      word reads like the translated one: otherwise some machine tells them apart. */
  lemma TransferConditionIsExact(fpu: FloatUnit, pc: Word, preferred: Word, word: Word, fetched: Word)
    requires IsTransfer(word) && fetched / 0x1_0000 == word / 0x1_0000
    ensures IsTransfer(fetched)
    ensures (forall m: Machine :: m.gpr[0] == 0 && m.stop == Running ==> TransferAgrees(fpu, m, pc, preferred, word, fetched))
       <==> ReadsAlike(word, fetched)
  {
    hide TransferAgrees, ReadsAlike, ExecuteTransfer;
    SameFields(word, fetched);
    if ReadsAlike(word, fetched) {
      forall m: Machine | m.gpr[0] == 0 && m.stop == Running ensures TransferAgrees(fpu, m, pc, preferred, word, fetched) {
        TransferMeans(fpu, m, pc, preferred, word, fetched);
        AlikeAgree(m, word, fetched);
      }
    } else {
      var m := Separate(word, fetched);
      TransferMeans(fpu, m, pc, preferred, word, fetched);
    }
  }

  /** lv.s S000, 0($2) after a LO16 at the usual load address 0x08804000: the
      interpreter loads from $2 + 0x4000, generated code from $2. */
  lemma TransferMisses(fpu: FloatUnit, m: Machine, pc: Word, preferred: Word)
    requires m.Load(m.gpr[2], 4).1 == m && m.Load(Add(m.gpr[2], 0x4000), 4).1 == m
    ensures var current := Add(m.mem.base, pc);
      Decode(0xc840_4000).Valid() &&
      Exec(fpu, m, current, EmitInstruction(pc, 0xc840_0000, true, preferred)).vfpu[0] == m.Load(m.gpr[2], 4).0 &&
      I.Execute(fpu, m, 0xc840_4000, current).vfpu[0] == m.Load(Add(m.gpr[2], 0x4000), 4).0
  {
    hide Exec, ExecuteVfpu, ExecuteTransfer, Classify, EmitVfpu, Machine.Load;
    var current := Add(m.mem.base, pc);
    TransferIsValid(0xc840_0000);
    TransferIsValid(0xc840_4000);
    VectorAgrees(fpu, m, pc, current, 0xc840_0000);
    TransferKind(fpu, m, 0xc840_0000, current);
    TransferKind(fpu, m, 0xc840_4000, current);
    assert TransferAddress(m, 0xc840_0000) == m.gpr[2] && TransferAddress(m, 0xc840_4000) == Add(m.gpr[2], 0x4000);
    LoadSingle(m, 0xc840_0000);
    LoadSingle(m, 0xc840_4000);
  }
}
