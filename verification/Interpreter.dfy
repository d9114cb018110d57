/** interpret_allegrex (include/psprecomp/interpreter.hpp): the reference
    semantics of one instruction, delay slots included. */
module Interpreter {
  import opened Words
  import opened GuestMachine
  import opened Vfpu
  import opened FloatConversion
  import opened Decoder

  function Branch(m: Machine, d: Decoded, pc: Word, condition: bool, likely: bool): Machine {
    if condition then m.Jump(BranchTarget(pc, d.word))
    else if likely then m.(pc := Add(pc, 8))
    else m
  }

  function Fail(m: Machine, d: Decoded, pc: Word): Machine {
    m.(stop := UnsupportedInstruction, faultPc := pc, faultAddress := pc, faultInstruction := d.word)
  }

  function SetHiLo(m: Machine, value: int): Machine {
    m.(lo := Wrap(value), hi := High(value))
  }

  function Accumulator(m: Machine): int {
    m.lo + TWO32 * m.hi
  }

  function SignedProduct(a: Word, b: Word): int {
    S32(a) * S32(b)
  }

  function UnsignedProduct(a: Word, b: Word): int {
    a * b
  }

  function DivideSigned(m: Machine, a: Word, b: Word): Machine {
    var left, right := S32(a), S32(b);
    if right == 0 then m.(lo := if left < 0 then 1 else 0xffff_ffff, hi := a)
    else if left == -0x8000_0000 && right == -1 then m.(lo := Wrap(left), hi := 0xffff_ffff)
    else m.(lo := SignedQuotient(a, b), hi := SignedRemainder(a, b))
  }

  function DivideUnsigned(m: Machine, a: Word, b: Word): Machine {
    if b == 0 then m.(lo := if a <= 0xffff then 0xffff else 0xffff_ffff, hi := a)
    else m.(lo := UnsignedQuotient(a, b), hi := UnsignedRemainder(a, b))
  }

  function MaxSigned(a: Word, b: Word): Word {
    if S32(a) > S32(b) then a else b
  }

  function MinSigned(a: Word, b: Word): Word {
    if S32(a) < S32(b) then a else b
  }

  function ShiftValue(d: Decoded, s: Word, t: Word): Word {
    match d.function_
    case 0x00 => ShiftLeft(t, d.shift)
    case 0x02 => if d.rs == 1 then RotateRight(t, d.shift % 32) else ShiftRight(t, d.shift)
    case 0x03 => ShiftRightArithmetic(t, d.shift % 32)
    case 0x04 => ShiftLeft(t, s % 32)
    case 0x06 => if d.shift == 1 then RotateRight(t, s) else ShiftRight(t, s % 32)
    case _ => ShiftRightArithmetic(t, s)
  }

  /** Moves and arithmetic on hi and lo. */
  function ExecuteHiLo(m: Machine, d: Decoded): Machine
    requires d.rs < 32 && d.rt < 32 && d.rd < 32
  {
    var s, t := m.gpr[d.rs], m.gpr[d.rt];
    match d.function_
    case 0x10 => m.Set(d.rd, m.hi)
    case 0x11 => m.(hi := s)
    case 0x12 => m.Set(d.rd, m.lo)
    case 0x13 => m.(lo := s)
    case 0x18 => SetHiLo(m, SignedProduct(s, t))
    case 0x19 => SetHiLo(m, UnsignedProduct(s, t))
    case 0x1a => DivideSigned(m, s, t)
    case 0x1b => DivideUnsigned(m, s, t)
    case 0x1c => SetHiLo(m, Accumulator(m) + SignedProduct(s, t))
    case 0x1d => SetHiLo(m, Accumulator(m) + UnsignedProduct(s, t))
    case 0x2e => SetHiLo(m, Accumulator(m) - SignedProduct(s, t))
    case 0x2f => SetHiLo(m, Accumulator(m) - UnsignedProduct(s, t))
    case _ => m
  }

  /** Three-register arithmetic. */
  function ArithmeticValue(code: nat, s: Word, t: Word): Word {
    match code
    case 0x16 => CountLeadingZeros(s)
    case 0x17 => CountLeadingOnes(s)
    case 0x20 => Add(s, t)
    case 0x21 => Add(s, t)
    case 0x22 => Sub(s, t)
    case 0x23 => Sub(s, t)
    case 0x24 => And(s, t)
    case 0x25 => Or(s, t)
    case 0x26 => Xor(s, t)
    case 0x27 => Complement(Or(s, t))
    case 0x2a => Bool32(S32(s) < S32(t))
    case 0x2b => Bool32(s < t)
    case 0x2c => MaxSigned(s, t)
    case _ => MinSigned(s, t)
  }

  function ExecuteSpecial(m: Machine, d: Decoded, pc: Word): Machine
    requires d.rs < 32 && d.rt < 32 && d.rd < 32 && d.shift < 32
  {
    var f := d.function_;
    var s, t := m.gpr[d.rs], m.gpr[d.rt];
    if f <= 0x07 then m.Set(d.rd, ShiftValue(d, s, t))
    else if f == 0x0a then (if t == 0 then m.Set(d.rd, s) else m)
    else if f == 0x0b then (if t != 0 then m.Set(d.rd, s) else m)
    else if f == 0x08 then m.Jump(m.gpr[d.rs])
    else if f == 0x09 then
      var target := m.gpr[d.rs];
      (if d.rd != 0 then m.Set(d.rd, Add(pc, 8)) else m).Jump(target)
    else if f == 0x0c then m.(stop := Syscall)
    else if f == 0x0d || f == 0x0f then m
    else if 0x10 <= f <= 0x13 || 0x18 <= f <= 0x1d || f >= 0x2e then ExecuteHiLo(m, d)
    else m.Set(d.rd, ArithmeticValue(f, s, t))
  }

  function ExecuteRegimm(m: Machine, d: Decoded, pc: Word): Machine
    requires d.rs < 32
  {
    var ge := d.rt == 0x01 || d.rt == 0x03 || d.rt == 0x11 || d.rt == 0x13;
    var linked := if RegimmLink(d.rt) then m.Set(31, Add(pc, 8)) else m;
    var value := S32(linked.gpr[d.rs]);
    Branch(linked, d, pc, if ge then value >= 0 else value < 0, RegimmLikely(d.rt))
  }

  function JumpTarget(pc: Word, word: Word): Word {
    var next := Add(pc, 4);
    next - next % 0x1000_0000 + word % 0x400_0000 * 4
  }

  function ExecuteJump(m: Machine, d: Decoded, pc: Word): Machine {
    (if d.op == 0x03 then m.Set(31, Add(pc, 8)) else m).Jump(JumpTarget(pc, d.word))
  }

  /** beq, bne, blez, bgtz and their likely forms. */
  function ExecuteCompareBranch(m: Machine, d: Decoded, pc: Word): Machine
    requires d.rs < 32 && d.rt < 32
  {
    var s, t := m.gpr[d.rs], m.gpr[d.rt];
    var kind := d.op % 4;
    var condition :=
      if kind == 0 then s == t
      else if kind == 1 then s != t
      else if kind == 2 then S32(s) <= 0
      else S32(s) > 0;
    Branch(m, d, pc, condition, d.op >= 0x14)
  }

  function ImmediateValue(op: nat, s: Word, immediate: Word, signed: Word): Word {
    match op
    case 0x08 => Add(s, signed)
    case 0x09 => Add(s, signed)
    case 0x0a => Bool32(S32(s) < S32(signed))
    case 0x0b => Bool32(s < signed)
    case 0x0c => And(s, immediate)
    case 0x0d => Or(s, immediate)
    case 0x0e => Xor(s, immediate)
    case _ => ShiftLeft(immediate, 16)
  }

  function ExecuteImmediate(m: Machine, d: Decoded): Machine
    requires d.rs < 32 && d.rt < 32
  {
    m.Set(d.rt, ImmediateValue(d.op, m.gpr[d.rs], d.word % 0x1_0000, SignExtend16(d.word)))
  }

  function ConditionBit(cc: nat): nat {
    if cc == 0 then 23 else 24 + cc
  }

  predicate FpuCondition(m: Machine, cc: nat) {
    Bit(m.fcr31, ConditionBit(cc))
  }

  function SetFpuCondition(m: Machine, cc: nat, value: bool): Machine {
    var mask := ShiftLeft(1, ConditionBit(cc));
    m.(fcr31 := if value then Or(m.fcr31, mask) else And(m.fcr31, Complement(mask)))
  }

  function CompareFloats(fpu: FloatUnit, m: Machine, cc: nat, left: Word, right: Word, condition: nat): Machine {
    var unordered := fpu.isNan(left) || fpu.isNan(right);
    var less := !unordered && fpu.less(left, right);
    var same := !unordered && fpu.equal(left, right);
    SetFpuCondition(m, cc,
      (condition / 4 % 2 == 1 && less) || (condition / 2 % 2 == 1 && same) || (condition % 2 == 1 && unordered))
  }

  function ScalarFloatValue(fpu: FloatUnit, code: nat, left: Word, right: Word, mode: Word): Word {
    match code
    case 0x00 => fpu.add(left, right)
    case 0x01 => fpu.subtract(left, right)
    case 0x02 => fpu.multiply(left, right)
    case 0x03 => fpu.divide(left, right)
    case 0x04 => fpu.squareRoot(left)
    case 0x05 => AbsFloat(left)
    case 0x07 => NegateFloat(left)
    case 0x0c => RoundCast(fpu, left)
    case 0x0d => TruncateCast(fpu, left)
    case 0x0e => RoundedWord(left, 2)
    case 0x0f => RoundedWord(left, 3)
    case 0x24 => RoundedWord(left, mode)
    case _ => left
  }

  /** Opcode 0x11, format 0x10: fd is the shift field, fs is rd, ft is rt. */
  function ExecuteScalarFloat(fpu: FloatUnit, m: Machine, d: Decoded): Machine
    requires d.rt < 32 && d.rd < 32 && d.shift < 32
  {
    var left, right := m.fpr[d.rd], m.fpr[d.rt];
    if d.function_ == 0x11 then
      if FpuCondition(m, d.rt / 4 % 8) == (d.rt % 2 == 1) then m.SetFpr(d.shift, left) else m
    else if d.function_ >= 0x30 then
      CompareFloats(fpu, m, d.word / 0x100 % 8, left, right, d.function_ % 16)
    else m.SetFpr(d.shift, ScalarFloatValue(fpu, d.function_, left, right, m.fcr31 % 4))
  }

  function ExecuteFloat(fpu: FloatUnit, m: Machine, d: Decoded, pc: Word): Machine
    requires d.rt < 32 && d.rd < 32 && d.shift < 32
  {
    if d.rs == 0x00 then m.Set(d.rt, m.fpr[d.rd])
    else if d.rs == 0x04 then m.SetFpr(d.rd, m.gpr[d.rt])
    else if d.rs == 0x02 then
      m.Set(d.rt, if d.rd == 0 then 0x0000_3351 else if d.rd == 31 then m.fcr31 else 0)
    else if d.rs == 0x06 then (if d.rd == 31 then m.(fcr31 := m.gpr[d.rt]) else m)
    else if d.rs == 0x08 then
      var bit := ConditionBit(d.word / 0x4_0000 % 8);
      Branch(m, d, pc, Bit(m.fcr31, bit) == (d.word / 0x1_0000 % 2 == 1), d.word / 0x2_0000 % 2 == 1)
    else if d.rs == 0x10 then ExecuteScalarFloat(fpu, m, d)
    else m.SetFpr(d.shift, fpu.fromInteger(m.fpr[d.rd]))
  }

  function ExecuteSpecial2(m: Machine, d: Decoded): Machine
    requires d.rs < 32 && d.rt < 32 && d.rd < 32
  {
    var s, t := m.gpr[d.rs], m.gpr[d.rt];
    if d.function_ == 0x20 then m.Set(d.rd, CountLeadingZeros(s))
    else if d.function_ == 0x21 then m.Set(d.rd, CountLeadingOnes(s))
    else if d.function_ == 0x2c then m.Set(d.rd, MaxSigned(s, t))
    else m.Set(d.rd, MinSigned(s, t))
  }

  function ExecuteSpecial3(m: Machine, d: Decoded): Machine
    requires d.rs < 32 && d.rt < 32 && d.rd < 32
    requires d.function_ == 4 ==> d.rd >= d.shift
  {
    var s, t := m.gpr[d.rs], m.gpr[d.rt];
    if d.function_ == 0 then m.Set(d.rt, And(ShiftRight(s, d.shift), FieldMask(d.rd + 1)))
    else if d.function_ == 4 then
      var positioned := ShiftLeft(FieldMask(d.rd - d.shift + 1), d.shift);
      m.Set(d.rt, Or(And(t, Complement(positioned)), And(ShiftLeft(s, d.shift), positioned)))
    else if d.shift == 0x14 then m.Set(d.rd, ReverseBits(t))
    else if d.shift == 0x02 then m.Set(d.rd, SwapHalfwordBytes(t))
    else if d.shift == 0x03 then m.Set(d.rd, ByteSwap(t))
    else if d.shift == 0x10 then m.Set(d.rd, SignExtend8(t))
    else m.Set(d.rd, SignExtend16(t))
  }

  function ExecuteMemory(m: Machine, d: Decoded): Machine
    requires d.rs < 32 && d.rt < 32
  {
    var address := Add(m.gpr[d.rs], SignExtend16(d.word));
    var t := m.gpr[d.rt];
    match d.op
    case 0x20 => var (value, next) := m.Load(address, 1); next.Set(d.rt, SignExtend8(value))
    case 0x21 => var (value, next) := m.Load(address, 2); next.Set(d.rt, SignExtend16(value))
    case 0x22 => var (value, next) := m.LoadWordLeft(address, t); next.Set(d.rt, value)
    case 0x23 => var (value, next) := m.Load(address, 4); next.Set(d.rt, value)
    case 0x24 => var (value, next) := m.Load(address, 1); next.Set(d.rt, value)
    case 0x25 => var (value, next) := m.Load(address, 2); next.Set(d.rt, value)
    case 0x26 => var (value, next) := m.LoadWordRight(address, t); next.Set(d.rt, value)
    case 0x28 => m.Store(address, 1, t)
    case 0x29 => m.Store(address, 2, t)
    case 0x2a => m.StoreWordLeft(address, t)
    case 0x2b => m.Store(address, 4, t)
    case 0x2e => m.StoreWordRight(address, t)
    case 0x30 => var (value, next) := m.Load(address, 4); next.Set(d.rt, value)
    case 0x31 => var (value, next) := m.Load(address, 4); next.SetFpr(d.rt, value)
    case 0x38 => m.Store(address, 4, t).Set(d.rt, 1)
    case 0x39 => m.Store(address, 4, m.fpr[d.rt])
    case _ => m
  }

  /** Opcode families, in the order the interpreter's switch lists them. */
  datatype Family = Special | Regimm | Jump | CompareBranch | Immediate | Float | Vector | Special2 | Special3 | MemoryAccess

  function FamilyOf(op: nat): Family {
    if op == 0x00 then Special
    else if op == 0x01 then Regimm
    else if op == 0x02 || op == 0x03 then Jump
    else if 0x04 <= op <= 0x07 || 0x14 <= op <= 0x17 then CompareBranch
    else if 0x08 <= op <= 0x0f then Immediate
    else if op == 0x11 then Float
    else if op in {0x12, 0x18, 0x19, 0x1b, 0x32, 0x34, 0x35, 0x36, 0x37, 0x3a, 0x3c, 0x3d, 0x3e, 0x3f} then Vector
    else if op == 0x1c then Special2
    else if op == 0x1f then Special3
    else MemoryAccess
  }

  function Execute(fpu: FloatUnit, m: Machine, word: Word, pc: Word): Machine
    requires Decode(word).Valid()
  {
    var d := Decode(word);
    match FamilyOf(d.op)
    case Special => ExecuteSpecial(m, d, pc)
    case Regimm => ExecuteRegimm(m, d, pc)
    case Jump => ExecuteJump(m, d, pc)
    case CompareBranch => ExecuteCompareBranch(m, d, pc)
    case Immediate => ExecuteImmediate(m, d)
    case Float => ExecuteFloat(fpu, m, d, pc)
    case Vector => ExecuteVfpu(fpu, m, word, pc)
    case Special2 => ExecuteSpecial2(m, d)
    case Special3 => ExecuteSpecial3(m, d)
    case MemoryAccess => ExecuteMemory(m, d)
  }

  /** gpr[0] reads as zero again, and a branch taken one step earlier lands. */
  function Finish(m: Machine, pending: bool, target: Word): Machine {
    var zeroed := m.Set(0, 0);
    if zeroed.stop == Running && pending then zeroed.(pc := target) else zeroed
  }

  /** Executes a fetched word. */
  function Step(fpu: FloatUnit, m: Machine, word: Word, pc: Word): Machine {
    var started := m.(branchPending := false, pc := Add(pc, 4));
    if !Decode(word).Valid() then Fail(started, Decode(word), pc)
    else Finish(Execute(fpu, started, word, pc), m.branchPending, m.branchTarget)
  }

  /** The flag is interpret_allegrex's own result: false for a misaligned pc. */
  function Interpret(fpu: FloatUnit, m: Machine, pc: Word): (Machine, bool) {
    if pc % 4 != 0 then (m, false)
    else
      var (word, fetched) := m.Load(pc, 4);
      if fetched.stop != Running then (fetched, true) else (Step(fpu, fetched, word, pc), true)
  }
}
