/** The C++ that emit_instruction prints (src/emitter/instruction.cpp), as a
    small statement language, and its meaning. */
module GeneratedCode {
  import opened Words
  import opened GuestMachine
  import opened Vfpu
  import opened Decoder
  import FloatConversion
  import I = Interpreter

  datatype Operator =
    | Plus | Minus | BitAnd | BitOr | BitXor | ShiftUp | ShiftDown
    | SignedShiftDown | Rotate
    | Equal | NotEqual | Below | AtMost
    | SignedLess | SignedGreater | SignedAtMost | SignedAtLeast
    | Both | Quotient | Remainder | QuotientSigned | RemainderSigned

  datatype UnaryOperator =
    | BitNot | LeadingZeros | LeadingOnes | SwapBytes | SwapHalves | Reverse | Extend8 | Extend16

  datatype FloatOperator = FloatAdd | FloatSubtract | FloatMultiply | FloatDivide | FloatSqrt | FloatFromInteger | RoundedWord

  datatype Expr =
    | Const(value: Word)
    | Gpr(index: nat)
    | Fpr(index: nat)
    | Hi | Lo | Fcr31 | MemoryBase
    | ImmediateAt(fallback: Word)
    | SignedImmediateAt(fallback: Word)
    | BranchTargetAt(fallback: Word)
    | JumpTargetAt(fallback: Word)
    | Binary(operator: Operator, left: Expr, right: Expr)
    | Unary(unary: UnaryOperator, operand: Expr)
    | Choose(condition: Expr, yes: Expr, no: Expr)
    | ConditionIs(cc: nat, expected: bool)
    | FloatCall(float: FloatOperator, first: Expr, second: Expr)

  /** A 64-bit value headed for hi and lo. */
  datatype Wide =
    | Product(signed: bool, rs: nat, rt: nat)
    | AccumulatorPlus(addend: Wide)
    | AccumulatorMinus(subtrahend: Wide)

  datatype Target = ToGpr(index: nat) | ToFpr(index: nat) | Discard

  datatype Stmt =
    | Nop
    | SetGpr(index: nat, value: Expr)
    | SetFpr(index: nat, value: Expr)
    | SetHi(value: Expr)
    | SetLo(value: Expr)
    | SetHiLo(wide: Wide)
    | SetLoAndHi(low: Expr, high: Expr)
    | SetFcr31(value: Expr)
    | SetPc(value: Expr)
    | TakeBranch(target: Expr)
    | Stop(reason: StopReason)
    | Seq(first: Stmt, second: Stmt)
    | If(condition: Expr, yes: Stmt, no: Stmt)
    | Load(to: Target, width: nat, signed: bool, address: Expr)
    | LoadLeft(to: Target, address: Expr, merged: Expr)
    | LoadRight(to: Target, address: Expr, merged: Expr)
    | Store(width: nat, address: Expr, value: Expr)
    | StoreLeft(address: Expr, value: Expr)
    | StoreRight(address: Expr, value: Expr)
    | CompareFloat(cc: nat, fs: nat, ft: nat, kind: nat)
    | CallVfpu(word: Word, pc: Expr)
    | PrefixFree(operation: VfpuStaticOperation, size: Size, vd: Word, vs: Word, vt: Word)
    | IfPrefixesIdentity(yes: Stmt, no: Stmt)

  // ----- meaning -----

  /** instruction_word: the relocated word in guest memory. */
  function InstructionWord(m: Machine, current: Word, fallback: Word): Word {
    if current % 4 != 0 then fallback
    else match MappedAddress(m.mem, current, 4)
      case Mapped(region, offset) => Peek(m.mem.Bytes(region), offset, 4)
      case Unmapped => fallback
  }

  function Apply(operator: Operator, a: Word, b: Word): Word {
    match operator
    case Plus => Add(a, b)
    case Minus => Sub(a, b)
    case BitAnd => And(a, b)
    case BitOr => Or(a, b)
    case BitXor => Xor(a, b)
    case ShiftUp => ShiftLeft(a, b)
    case ShiftDown => ShiftRight(a, b)
    case SignedShiftDown => ShiftRightArithmetic(a, b)
    case Rotate => RotateRight(a, b)
    case Equal => Bool32(a == b)
    case NotEqual => Bool32(a != b)
    case Below => Bool32(a < b)
    case AtMost => Bool32(a <= b)
    case SignedLess => Bool32(S32(a) < S32(b))
    case SignedGreater => Bool32(S32(a) > S32(b))
    case SignedAtMost => Bool32(S32(a) <= S32(b))
    case SignedAtLeast => Bool32(S32(a) >= S32(b))
    case Both => Bool32(a != 0 && b != 0)
    case Quotient => if b == 0 then 0 else UnsignedQuotient(a, b)
    case Remainder => if b == 0 then 0 else UnsignedRemainder(a, b)
    case QuotientSigned => if b == 0 then 0 else SignedQuotient(a, b)
    case RemainderSigned => if b == 0 then 0 else SignedRemainder(a, b)
  }

  function ApplyUnary(operator: UnaryOperator, a: Word): Word {
    match operator
    case BitNot => Complement(a)
    case LeadingZeros => CountLeadingZeros(a)
    case LeadingOnes => CountLeadingOnes(a)
    case SwapBytes => ByteSwap(a)
    case SwapHalves => SwapHalfwordBytes(a)
    case Reverse => ReverseBits(a)
    case Extend8 => SignExtend8(a)
    case Extend16 => SignExtend16(a)
  }

  function ApplyFloat(fpu: FloatUnit, operator: FloatOperator, a: Word, b: Word): Word {
    match operator
    case FloatAdd => fpu.add(a, b)
    case FloatSubtract => fpu.subtract(a, b)
    case FloatMultiply => fpu.multiply(a, b)
    case FloatDivide => fpu.divide(a, b)
    case FloatSqrt => fpu.squareRoot(a)
    case FloatFromInteger => fpu.fromInteger(a)
    case RoundedWord => FloatConversion.RoundedWord(a, b)
  }

  function Eval(fpu: FloatUnit, m: Machine, current: Word, e: Expr): Word {
    match e
    case Const(value) => value
    case Gpr(index) => if index < 32 then m.gpr[index] else 0
    case Fpr(index) => if index < 32 then m.fpr[index] else 0
    case Hi => m.hi
    case Lo => m.lo
    case Fcr31 => m.fcr31
    case MemoryBase => m.mem.base
    case ImmediateAt(fallback) => InstructionWord(m, current, fallback) % 0x1_0000
    case SignedImmediateAt(fallback) => SignExtend16(InstructionWord(m, current, fallback))
    case BranchTargetAt(fallback) => Wrap(current + 4 + SignExtend16(InstructionWord(m, current, fallback)) * 4)
    case JumpTargetAt(fallback) => I.JumpTarget(current, InstructionWord(m, current, fallback))
    case Binary(operator, left, right) => Apply(operator, Eval(fpu, m, current, left), Eval(fpu, m, current, right))
    case Unary(operator, operand) => ApplyUnary(operator, Eval(fpu, m, current, operand))
    case Choose(condition, yes, no) =>
      if Eval(fpu, m, current, condition) != 0 then Eval(fpu, m, current, yes) else Eval(fpu, m, current, no)
    case ConditionIs(cc, expected) => Bool32(I.FpuCondition(m, cc) == expected)
    case FloatCall(operator, first, second) =>
      ApplyFloat(fpu, operator, Eval(fpu, m, current, first), Eval(fpu, m, current, second))
  }

  function EvalWide(m: Machine, wide: Wide): int {
    match wide
    case Product(signed, rs, rt) =>
      if rs >= 32 || rt >= 32 then 0
      else if signed then I.SignedProduct(m.gpr[rs], m.gpr[rt])
      else I.UnsignedProduct(m.gpr[rs], m.gpr[rt])
    case AccumulatorPlus(addend) => I.Accumulator(m) + EvalWide(m, addend)
    case AccumulatorMinus(subtrahend) => I.Accumulator(m) - EvalWide(m, subtrahend)
  }

  function Put(m: Machine, to: Target, value: Word): Machine {
    match to
    case ToGpr(index) => if index < 32 then m.Set(index, value) else m
    case ToFpr(index) => if index < 32 then m.SetFpr(index, value) else m
    case Discard => m
  }

  function Extended(value: Word, width: nat, signed: bool): Word {
    if !signed then value else if width == 1 then SignExtend8(value) else SignExtend16(value)
  }

  /** Statements that touch guest memory or the vector unit. */
  function ExecTransfer(fpu: FloatUnit, m: Machine, current: Word, s: Stmt): Machine {
    match s
    case Load(to, width, signed, address) =>
      if width !in {1, 2, 4} then m
      else
        var (value, next) := m.Load(Eval(fpu, m, current, address), width);
        Put(next, to, Extended(value, width, signed))
    case LoadLeft(to, address, merged) =>
      var (value, next) := m.LoadWordLeft(Eval(fpu, m, current, address), Eval(fpu, m, current, merged));
      Put(next, to, value)
    case LoadRight(to, address, merged) =>
      var (value, next) := m.LoadWordRight(Eval(fpu, m, current, address), Eval(fpu, m, current, merged));
      Put(next, to, value)
    case Store(width, address, value) =>
      if width !in {1, 2, 4} then m
      else m.Store(Eval(fpu, m, current, address), width, Eval(fpu, m, current, value))
    case StoreLeft(address, value) => m.StoreWordLeft(Eval(fpu, m, current, address), Eval(fpu, m, current, value))
    case StoreRight(address, value) => m.StoreWordRight(Eval(fpu, m, current, address), Eval(fpu, m, current, value))
    case CallVfpu(word, pc) => ExecuteVfpu(fpu, m, word, Eval(fpu, m, current, pc))
    case PrefixFree(operation, size, vd, vs, vt) => ExecutePrefixFree(fpu, m, operation, size, vd, vs, vt)
    case _ => m
  }

  /** Statements that only touch registers and control flow. */
  function ExecRegister(fpu: FloatUnit, m: Machine, current: Word, s: Stmt): Machine {
    match s
    case SetGpr(index, value) => if index < 32 then m.Set(index, Eval(fpu, m, current, value)) else m
    case SetFpr(index, value) => if index < 32 then m.SetFpr(index, Eval(fpu, m, current, value)) else m
    case SetHi(value) => m.(hi := Eval(fpu, m, current, value))
    case SetLo(value) => m.(lo := Eval(fpu, m, current, value))
    case SetHiLo(wide) => I.SetHiLo(m, EvalWide(m, wide))
    case SetLoAndHi(low, high) => m.(lo := Eval(fpu, m, current, low), hi := Eval(fpu, m, current, high))
    case SetFcr31(value) => m.(fcr31 := Eval(fpu, m, current, value))
    case SetPc(value) => m.(pc := Eval(fpu, m, current, value))
    case TakeBranch(target) => m.Jump(Eval(fpu, m, current, target))
    case Stop(reason) => m.(stop := reason)
    case CompareFloat(cc, fs, ft, kind) =>
      if fs < 32 && ft < 32 then I.CompareFloats(fpu, m, cc, m.fpr[fs], m.fpr[ft], kind) else m
    case _ => ExecTransfer(fpu, m, current, s)
  }

  function Exec(fpu: FloatUnit, m: Machine, current: Word, s: Stmt): Machine
    decreases s
  {
    match s
    case Nop => m
    case Seq(first, second) => Exec(fpu, Exec(fpu, m, current, first), current, second)
    case If(condition, yes, no) =>
      if Eval(fpu, m, current, condition) != 0 then Exec(fpu, m, current, yes) else Exec(fpu, m, current, no)
    case IfPrefixesIdentity(yes, no) =>
      if PrefixesIdentity(m) then Exec(fpu, m, current, yes) else Exec(fpu, m, current, no)
    case _ => ExecRegister(fpu, m, current, s)
  }
}

/** emit_instruction itself. */
module Emitter {
  import opened Words
  import opened GuestMachine
  import opened Vfpu
  import opened Decoder
  import opened GeneratedCode
  import I = Interpreter

  const RESERVED_WORD := Stop(InvalidPc)

  function BaseRelative(pc: Word): Expr {
    Binary(Plus, MemoryBase, Const(pc))
  }

  function Link(pc: Word): Expr {
    BaseRelative(Add(pc, 8))
  }

  function ImmediateOf(word: Word, relocated: bool): Expr {
    if relocated then ImmediateAt(word) else Const(word % 0x1_0000)
  }

  function SignedImmediateOf(word: Word, relocated: bool): Expr {
    if relocated then SignedImmediateAt(word) else Const(SignExtend16(word))
  }

  function BranchTargetOf(pc: Word, word: Word, relocated: bool): Expr {
    if relocated then BranchTargetAt(word) else BaseRelative(BranchTarget(pc, word))
  }

  function JumpTargetOf(pc: Word, word: Word, relocated: bool, preferred: Word): Expr {
    if relocated then JumpTargetAt(word)
    else BaseRelative(Sub(I.JumpTarget(Add(pc, preferred), word), preferred))
  }

  function Address(d: Decoded, relocated: bool): Expr {
    Binary(Plus, Gpr(d.rs), SignedImmediateOf(d.word, relocated))
  }

  /** A write to register 0 is not emitted. */
  function Assign(index: nat, value: Expr): Stmt {
    if index == 0 then Nop else SetGpr(index, value)
  }

  function BranchIf(condition: Expr, target: Expr, likely: bool, pc: Word): Stmt {
    If(condition, TakeBranch(target), if likely then SetPc(Link(pc)) else Nop)
  }

  function ShiftExpr(d: Decoded, s: Expr, t: Expr): Expr {
    var amount := Const(d.shift % 32);
    match d.function_
    case 0x00 => Binary(ShiftUp, t, amount)
    case 0x02 => Binary(if d.rs == 1 then Rotate else ShiftDown, t, amount)
    case 0x03 => Binary(SignedShiftDown, t, amount)
    case 0x04 => Binary(ShiftUp, t, Low5(s))
    case 0x06 => if d.shift == 1 then Binary(Rotate, t, s) else Binary(ShiftDown, t, Low5(s))
    case _ => Binary(SignedShiftDown, t, s)
  }

  /** `& 31U`. */
  function Low5(e: Expr): Expr {
    Binary(Remainder, e, Const(32))
  }

  /** The division block: dividend and divisor are constants of the block, and
      its if-chain picks what lo and hi become. */
  function EmitDivide(s: Expr, t: Expr): Stmt {
    var byZero := Binary(Equal, t, Const(0));
    var overflow := Binary(Both, Binary(Equal, s, Const(0x8000_0000)), Binary(Equal, t, Const(0xffff_ffff)));
    SetLoAndHi(
      Choose(byZero, Choose(Binary(SignedLess, s, Const(0)), Const(1), Const(0xffff_ffff)),
             Choose(overflow, Const(0x8000_0000), Binary(QuotientSigned, s, t))),
      Choose(byZero, s, Choose(overflow, Const(0xffff_ffff), Binary(RemainderSigned, s, t))))
  }

  function EmitDivideUnsigned(s: Expr, t: Expr): Stmt {
    var byZero := Binary(Equal, t, Const(0));
    SetLoAndHi(
      Choose(byZero, Choose(Binary(AtMost, s, Const(0xffff)), Const(0xffff), Const(0xffff_ffff)), Binary(Quotient, s, t)),
      Choose(byZero, s, Binary(Remainder, s, t)))
  }

  function EmitHiLo(d: Decoded): Stmt {
    match d.function_
    case 0x10 => Assign(d.rd, Hi)
    case 0x11 => SetHi(Gpr(d.rs))
    case 0x12 => Assign(d.rd, Lo)
    case 0x13 => SetLo(Gpr(d.rs))
    case 0x18 => SetHiLo(Product(true, d.rs, d.rt))
    case 0x19 => SetHiLo(Product(false, d.rs, d.rt))
    case 0x1a => EmitDivide(Gpr(d.rs), Gpr(d.rt))
    case 0x1b => EmitDivideUnsigned(Gpr(d.rs), Gpr(d.rt))
    case 0x1c => SetHiLo(AccumulatorPlus(Product(true, d.rs, d.rt)))
    case 0x1d => SetHiLo(AccumulatorPlus(Product(false, d.rs, d.rt)))
    case 0x2e => SetHiLo(AccumulatorMinus(Product(true, d.rs, d.rt)))
    case 0x2f => SetHiLo(AccumulatorMinus(Product(false, d.rs, d.rt)))
    case _ => RESERVED_WORD
  }

  function ArithmeticExpr(code: nat, s: Expr, t: Expr): Expr {
    match code
    case 0x16 => Unary(LeadingZeros, s)
    case 0x17 => Unary(LeadingOnes, s)
    case 0x20 => Binary(Plus, s, t)
    case 0x21 => Binary(Plus, s, t)
    case 0x22 => Binary(Minus, s, t)
    case 0x23 => Binary(Minus, s, t)
    case 0x24 => Binary(BitAnd, s, t)
    case 0x25 => Binary(BitOr, s, t)
    case 0x26 => Binary(BitXor, s, t)
    case 0x27 => Unary(BitNot, Binary(BitOr, s, t))
    case 0x2a => Binary(SignedLess, s, t)
    case 0x2b => Binary(Below, s, t)
    case 0x2c => Choose(Binary(SignedGreater, s, t), s, t)
    case _ => Choose(Binary(SignedLess, s, t), s, t)
  }

  function EmitSpecial(d: Decoded, pc: Word): Stmt {
    var f := d.function_;
    var s, t := Gpr(d.rs), Gpr(d.rt);
    if f <= 0x07 then (if d.word == 0 then Nop else Assign(d.rd, ShiftExpr(d, s, t)))
    else if f == 0x0a then (if d.rd == 0 then Nop else If(Binary(Equal, t, Const(0)), SetGpr(d.rd, s), Nop))
    else if f == 0x0b then (if d.rd == 0 then Nop else If(Binary(NotEqual, t, Const(0)), SetGpr(d.rd, s), Nop))
    else if f == 0x08 then TakeBranch(Gpr(d.rs))
    else if f == 0x09 then
      // The link is written before the target register is read.
      if d.rd != 0 then Seq(SetGpr(d.rd, Link(pc)), TakeBranch(Gpr(d.rs))) else TakeBranch(Gpr(d.rs))
    else if f == 0x0c then Stop(Syscall)
    else if f == 0x0d || f == 0x0f then Nop
    else if 0x10 <= f <= 0x13 || 0x18 <= f <= 0x1d || f >= 0x2e then EmitHiLo(d)
    else Assign(d.rd, ArithmeticExpr(f, s, t))
  }

  function EmitRegimm(d: Decoded, pc: Word, relocated: bool): Stmt {
    var ge := d.rt == 0x01 || d.rt == 0x03 || d.rt == 0x11 || d.rt == 0x13;
    var branch := BranchIf(Binary(if ge then SignedAtLeast else SignedLess, Gpr(d.rs), Const(0)),
                           BranchTargetOf(pc, d.word, relocated), RegimmLikely(d.rt), pc);
    if RegimmLink(d.rt) then Seq(SetGpr(31, Link(pc)), branch) else branch
  }

  function EmitJump(d: Decoded, pc: Word, relocated: bool, preferred: Word): Stmt {
    var jump := TakeBranch(JumpTargetOf(pc, d.word, relocated, preferred));
    if d.op == 0x03 then Seq(SetGpr(31, Link(pc)), jump) else jump
  }

  function EmitCompareBranch(d: Decoded, pc: Word, relocated: bool): Stmt {
    var s, t := Gpr(d.rs), Gpr(d.rt);
    var kind := d.op % 4;
    var condition :=
      if kind == 0 then Binary(Equal, s, t)
      else if kind == 1 then Binary(NotEqual, s, t)
      else if kind == 2 then Binary(SignedAtMost, s, Const(0))
      else Binary(SignedGreater, s, Const(0));
    BranchIf(condition, BranchTargetOf(pc, d.word, relocated), d.op >= 0x14, pc)
  }

  function ImmediateExpr(op: nat, s: Expr, immediate: Expr, signed: Expr): Expr {
    match op
    case 0x08 => Binary(Plus, s, signed)
    case 0x09 => Binary(Plus, s, signed)
    case 0x0a => Binary(SignedLess, s, signed)
    case 0x0b => Binary(Below, s, signed)
    case 0x0c => Binary(BitAnd, s, immediate)
    case 0x0d => Binary(BitOr, s, immediate)
    case 0x0e => Binary(BitXor, s, immediate)
    case _ => Binary(ShiftUp, immediate, Const(16))
  }

  function EmitImmediate(d: Decoded, relocated: bool): Stmt {
    Assign(d.rt, ImmediateExpr(d.op, Gpr(d.rs), ImmediateOf(d.word, relocated), SignedImmediateOf(d.word, relocated)))
  }

  /** The sign-bit masks of abs and neg are a remainder and a wrapping sum. */
  function ScalarFloatExpr(code: nat, left: Expr, right: Expr): Expr {
    match code
    case 0x00 => FloatCall(FloatAdd, left, right)
    case 0x01 => FloatCall(FloatSubtract, left, right)
    case 0x02 => FloatCall(FloatMultiply, left, right)
    case 0x03 => FloatCall(FloatDivide, left, right)
    case 0x04 => FloatCall(FloatSqrt, left, left)
    case 0x05 => Binary(Remainder, left, Const(0x8000_0000))
    case 0x07 => Binary(Plus, left, Const(0x8000_0000))
    case 0x0c => FloatCall(RoundedWord, left, Const(0))
    case 0x0d => FloatCall(RoundedWord, left, Const(1))
    case 0x0e => FloatCall(RoundedWord, left, Const(2))
    case 0x0f => FloatCall(RoundedWord, left, Const(3))
    case 0x24 => FloatCall(RoundedWord, left, Binary(Remainder, Fcr31, Const(4)))
    case _ => left
  }

  function EmitScalarFloat(d: Decoded): Stmt {
    if d.function_ == 0x11 then If(ConditionIs(d.rt / 4 % 8, d.rt % 2 == 1), SetFpr(d.shift, Fpr(d.rd)), Nop)
    else if d.function_ >= 0x30 then CompareFloat(d.word / 0x100 % 8, d.rd, d.rt, d.function_ % 16)
    else SetFpr(d.shift, ScalarFloatExpr(d.function_, Fpr(d.rd), Fpr(d.rt)))
  }

  function EmitFloat(d: Decoded, pc: Word, relocated: bool): Stmt {
    if d.rs == 0x00 then Assign(d.rt, Fpr(d.rd))
    else if d.rs == 0x02 then
      Assign(d.rt, if d.rd == 0 then Const(0x0000_3351) else if d.rd == 31 then Fcr31 else Const(0))
    else if d.rs == 0x04 then SetFpr(d.rd, Gpr(d.rt))
    else if d.rs == 0x06 then (if d.rd == 31 then SetFcr31(Gpr(d.rt)) else Nop)
    else if d.rs == 0x08 then
      BranchIf(ConditionIs(d.rt / 4 % 8, d.rt % 2 == 1), BranchTargetOf(pc, d.word, relocated), d.rt / 2 % 2 == 1, pc)
    else if d.rs == 0x10 then EmitScalarFloat(d)
    else SetFpr(d.shift, FloatCall(FloatFromInteger, Fpr(d.rd), Fpr(d.rd)))
  }

  function EmitVfpu(d: Decoded, pc: Word): Stmt {
    var call := CallVfpu(d.word, BaseRelative(pc));
    if d.lowering == GuardedNative then
      IfPrefixesIdentity(
        PrefixFree(StaticOperation(d.word), VectorSize(d.word),
                   d.word % 128, d.word / 0x100 % 128, d.word / 0x1_0000 % 128),
        call)
    else call
  }

  function EmitSpecial2(d: Decoded): Stmt {
    var s, t := Gpr(d.rs), Gpr(d.rt);
    if d.function_ == 0x20 then Assign(d.rd, Unary(LeadingZeros, s))
    else if d.function_ == 0x21 then Assign(d.rd, Unary(LeadingOnes, s))
    else if d.function_ == 0x2c then Assign(d.rd, Choose(Binary(SignedGreater, s, t), s, t))
    else Assign(d.rd, Choose(Binary(SignedLess, s, t), s, t))
  }

  function EmitInsert(d: Decoded): Stmt
    requires d.rd < 32 && d.rd >= d.shift
  {
    var positioned := ShiftLeft(FieldMask(d.rd - d.shift + 1), d.shift);
    Assign(d.rt, Binary(BitOr,
      Binary(BitAnd, Gpr(d.rt), Const(Complement(positioned))),
      Binary(BitAnd, Binary(ShiftUp, Gpr(d.rs), Const(d.shift)), Const(positioned))))
  }

  function EmitSpecial3(d: Decoded): Stmt
    requires d.rd < 32 && d.shift < 32
    requires d.function_ == 4 ==> d.rd >= d.shift
  {
    var t := Gpr(d.rt);
    if d.function_ == 0 then
      Assign(d.rt, Binary(BitAnd, Binary(ShiftDown, Gpr(d.rs), Const(d.shift)), Const(FieldMask(d.rd + 1))))
    else if d.function_ == 4 then EmitInsert(d)
    else if d.shift == 0x14 then Assign(d.rd, Unary(Reverse, t))
    else if d.shift == 0x02 then Assign(d.rd, Unary(SwapHalves, t))
    else if d.shift == 0x03 then Assign(d.rd, Unary(SwapBytes, t))
    else if d.shift == 0x10 then Assign(d.rd, Unary(Extend8, t))
    else Assign(d.rd, Unary(Extend16, t))
  }

  function GprOrDiscard(index: nat): Target {
    if index == 0 then Discard else ToGpr(index)
  }

  function EmitMemory(d: Decoded, relocated: bool): Stmt {
    var address := Address(d, relocated);
    var t := Gpr(d.rt);
    var to := GprOrDiscard(d.rt);
    match d.op
    case 0x20 => Load(to, 1, true, address)
    case 0x21 => Load(to, 2, true, address)
    case 0x22 => LoadLeft(to, address, if d.rt == 0 then Const(0) else t)
    case 0x23 => Load(to, 4, false, address)
    case 0x24 => Load(to, 1, false, address)
    case 0x25 => Load(to, 2, false, address)
    case 0x26 => LoadRight(to, address, if d.rt == 0 then Const(0) else t)
    case 0x28 => Store(1, address, t)
    case 0x29 => Store(2, address, t)
    case 0x2a => StoreLeft(address, t)
    case 0x2b => Store(4, address, t)
    case 0x2e => StoreRight(address, t)
    case 0x30 => Load(to, 4, false, address)
    case 0x31 => Load(ToFpr(d.rt), 4, false, address)
    case 0x38 => if d.rt == 0 then Store(4, address, t) else Seq(Store(4, address, t), SetGpr(d.rt, Const(1)))
    case 0x39 => Store(4, address, Fpr(d.rt))
    case _ => Nop
  }

  /** The text printed for one word, as its statement. */
  function EmitInstruction(pc: Word, word: Word, relocated: bool, preferred: Word): Stmt {
    var d := Decode(word);
    if !d.Valid() then RESERVED_WORD
    else match I.FamilyOf(d.op)
      case Special => EmitSpecial(d, pc)
      case Regimm => EmitRegimm(d, pc, relocated)
      case Jump => EmitJump(d, pc, relocated, preferred)
      case CompareBranch => EmitCompareBranch(d, pc, relocated)
      case Immediate => EmitImmediate(d, relocated)
      case Float => EmitFloat(d, pc, relocated)
      case Vector => EmitVfpu(d, pc)
      case Special2 => EmitSpecial2(d)
      case Special3 => EmitSpecial3(d)
      case MemoryAccess => EmitMemory(d, relocated)
  }
}
