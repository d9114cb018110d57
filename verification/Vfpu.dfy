/** The vector unit (include/psprecomp/vfpu.hpp): register addressing, prefixes,
    the five operations that have a prefix-free fast path, moves, branches and
    memory transfers.  Floats are 32-bit words; what the host computes on them
    is a parameter. */
module Vfpu {
  import opened Words
  import opened GuestMachine

  /** The host's floating-point operations, and the vector instructions that
      only rewrite vector and vector-control registers. */
  datatype FloatUnit = FloatUnit(
    add: (Word, Word) -> Word,
    subtract: (Word, Word) -> Word,
    multiply: (Word, Word) -> Word,
    divide: (Word, Word) -> Word,
    squareRoot: Word -> Word,
    isNan: Word -> bool,
    less: (Word, Word) -> bool,
    equal: (Word, Word) -> bool,
    clamp: (Word, Word, Word) -> Word,
    fromInteger: Word -> Word,
    roundOutOfRange: Word -> Word,
    truncateOutOfRange: Word -> Word,
    halfToFloat: Word -> Word,
    otherVector: (Word, Bank128, Bank16) -> (Bank128, Bank16))

  const ONE: Word := 0x3f80_0000
  const MINUS_ONE: Word := 0xbf80_0000
  const IDENTITY_PREFIX: Word := 0xe4

  /** IEEE 754 negation and absolute value only touch the sign bit. */
  function NegateFloat(a: Word): Word {
    if a < 0x8000_0000 then a + 0x8000_0000 else a - 0x8000_0000
  }

  function AbsFloat(a: Word): Word {
    a % 0x8000_0000
  }

  // ----- which words the unit accepts -----

  datatype VfpuStaticOperation = NoOperation | AddLanes | SubtractLanes | MultiplyLanes | DotLanes | MoveLanes

  function StaticOperation(word: Word): VfpuStaticOperation {
    var op := word / 0x400_0000;
    var kind := word / 0x80_0000 % 8;
    if op == 0x18 && kind == 0 then AddLanes
    else if op == 0x18 && kind == 1 then SubtractLanes
    else if op == 0x19 && kind == 0 then MultiplyLanes
    else if op == 0x19 && kind == 1 then DotLanes
    else if op == 0x34 && word / 0x20_0000 % 32 == 0 && word / 0x1_0000 % 32 == 0 then MoveLanes
    else NoOperation
  }

  predicate VfpuOpcodeSupported(word: Word) {
    var op := word / 0x400_0000;
    var sub3 := word / 0x80_0000 % 8;
    var group := word / 0x20_0000 % 32;
    var kind := word / 0x1_0000 % 32;
    if op == 0x12 then group == 3 || group == 7 || group == 8
    else if op == 0x18 then sub3 <= 3 || sub3 == 7
    else if op == 0x19 then sub3 <= 2 || sub3 == 4 || sub3 == 6 || And(word, 0xff80_8080) == 0x6680_8000
    else if op == 0x1b then
      sub3 == 0 || sub3 == 2 || sub3 == 3 ||
      And(word, 0xff80_8080) == 0x6e80_8000 || And(word, 0xff80_8080) == 0x6f80_8080
    else if op == 0x34 then
      if group == 0 then kind <= 7 || 16 <= kind <= 26
      else if group == 1 then kind >= 24
      else if group == 2 then kind in {1, 2, 3, 5, 6, 7, 8, 9, 10, 25}
      else if group == 3 then kind <= 19
      else 16 <= group <= 21
    else if op == 0x3c then
      group <= 3 || 12 <= group <= 15 || 20 <= group <= 23 || group == 29 ||
      And(word, 0xff80_8080) == 0xf100_8000 || And(word, 0xff80_8080) == 0xf200_8080 ||
      And(word, 0xffff_0000) == 0xf380_0000 || And(word, 0xffff_ff80) == 0xf383_8080 ||
      And(word, 0xffff_ff80) == 0xf386_8080 || And(word, 0xffff_ff80) == 0xf387_8080
    else op in {0x32, 0x35, 0x36, 0x37, 0x3a, 0x3d, 0x3e, 0x3f}
  }

  // ----- vectors -----

  type Lanes = s: seq<Word> | |s| == 4 witness [0, 0, 0, 0]
  type Size = n: nat | 1 <= n <= 4 witness 1

  function VectorSize(word: Word): Size {
    word / 0x80 % 2 + 2 * (word / 0x8000 % 2) + 1
  }

  function Row(reg: Word, size: Size): nat {
    if size == 1 then reg / 32 % 4
    else if size == 3 then reg / 64 % 2
    else 2 * (reg / 64 % 2)
  }

  function VectorIndex(reg: Word, size: Size, lane: nat): (r: nat)
    ensures r < 128
  {
    var matrix := reg / 4 % 8;
    var column := reg % 4;
    var row := (Row(reg, size) + lane) % 4;
    if size != 1 && reg / 32 % 2 != 0 then matrix * 4 + row + column * 32
    else matrix * 4 + column + row * 32
  }

  function ReadLane(m: Machine, reg: Word, size: Size, lane: nat): Word {
    if lane < size then m.vfpu[VectorIndex(reg, size, lane)] else 0
  }

  function ReadVector(m: Machine, reg: Word, size: Size): Lanes {
    [ReadLane(m, reg, size, 0), ReadLane(m, reg, size, 1), ReadLane(m, reg, size, 2), ReadLane(m, reg, size, 3)]
  }

  function WriteVector(m: Machine, reg: Word, size: Size, values: Lanes): Machine {
    WriteLanes(m, reg, size, values, 0)
  }

  /** Lanes whose bit is set in the destination prefix keep their old value. */
  function WriteLanes(m: Machine, reg: Word, size: Size, values: Lanes, lane: nat): Machine
    requires lane <= size
    decreases size - lane
  {
    if lane == size then m
    else
      var next := if Bit(m.vfpuCtrl[2], 8 + lane) then m
                  else m.(vfpu := m.vfpu[VectorIndex(reg, size, lane) := values[lane]]);
      WriteLanes(next, reg, size, values, lane + 1)
  }

  // ----- prefixes -----

  const PREFIX_CONSTANTS: seq<Word> :=
    [0, ONE, 0x4000_0000, 0x3f00_0000, 0x4040_0000, 0x3eaa_aaab, 0x3e80_0000, 0x3e2a_aaab]

  function PrefixLane(original: Lanes, size: Size, prefix: Word, lane: nat): Word
    requires lane < 4
  {
    if lane >= size then original[lane] else
    var swizzle := ShiftRight(prefix, 2 * lane) % 4;
    var absolute := Bit(prefix, 8 + lane);
    var chosen :=
      if Bit(prefix, 12 + lane) then PREFIX_CONSTANTS[swizzle + if absolute then 4 else 0]
      else
        var read := if swizzle < size then original[swizzle] else 0;
        if absolute then AbsFloat(read) else read;
    if Bit(prefix, 16 + lane) then NegateFloat(chosen) else chosen
  }

  function ApplyPrefix(values: Lanes, size: Size, prefix: Word): Lanes {
    if prefix == IDENTITY_PREFIX then values
    else [PrefixLane(values, size, prefix, 0), PrefixLane(values, size, prefix, 1),
          PrefixLane(values, size, prefix, 2), PrefixLane(values, size, prefix, 3)]
  }

  function DestinationLane(fpu: FloatUnit, prefix: Word, value: Word, lane: nat, size: Size): Word {
    var mode := ShiftRight(prefix, 2 * lane) % 4;
    if lane >= size then value
    else if mode == 1 then fpu.clamp(value, 0, ONE)
    else if mode == 3 then fpu.clamp(value, MINUS_ONE, ONE)
    else value
  }

  function ApplyDestinationPrefix(fpu: FloatUnit, m: Machine, values: Lanes, size: Size): Lanes {
    var prefix := m.vfpuCtrl[2];
    [DestinationLane(fpu, prefix, values[0], 0, size), DestinationLane(fpu, prefix, values[1], 1, size),
     DestinationLane(fpu, prefix, values[2], 2, size), DestinationLane(fpu, prefix, values[3], 3, size)]
  }

  function EatPrefixes(m: Machine): Machine {
    m.(vfpuCtrl := m.vfpuCtrl[0 := IDENTITY_PREFIX][1 := IDENTITY_PREFIX][2 := 0])
  }

  predicate PrefixesIdentity(m: Machine) {
    m.vfpuCtrl[0] == IDENTITY_PREFIX && m.vfpuCtrl[1] == IDENTITY_PREFIX && m.vfpuCtrl[2] == 0
  }

  // ----- the five lane operations -----

  function LaneResult(fpu: FloatUnit, operation: VfpuStaticOperation, s: Lanes, t: Lanes, lane: nat, size: Size): Word
    requires lane < 4
  {
    if lane >= size then 0
    else match operation
      case AddLanes => fpu.add(s[lane], t[lane])
      case SubtractLanes => fpu.subtract(s[lane], t[lane])
      case MultiplyLanes => fpu.multiply(s[lane], t[lane])
      case _ => s[lane]
  }

  function Combine(fpu: FloatUnit, operation: VfpuStaticOperation, s: Lanes, t: Lanes, size: Size): Lanes {
    [LaneResult(fpu, operation, s, t, 0, size), LaneResult(fpu, operation, s, t, 1, size),
     LaneResult(fpu, operation, s, t, 2, size), LaneResult(fpu, operation, s, t, 3, size)]
  }

  function DotFrom(fpu: FloatUnit, source: Lanes, target: Lanes, size: Size, lane: nat, sum: Word): Word
    requires lane <= size
    decreases size - lane
  {
    if lane == size then sum
    else DotFrom(fpu, source, target, size, lane + 1, fpu.add(sum, fpu.multiply(source[lane], target[lane])))
  }

  /** execute_vfpu for the five operations, prefixes included. */
  function ExecuteLanes(fpu: FloatUnit, m: Machine, word: Word, operation: VfpuStaticOperation): Machine {
    var size := VectorSize(word);
    var vd := word % 128;
    var source := ApplyPrefix(ReadVector(m, word / 0x100 % 128, size), size, m.vfpuCtrl[0]);
    var target := ApplyPrefix(ReadVector(m, word / 0x1_0000 % 128, size), size, m.vfpuCtrl[1]);
    if operation == DotLanes then
      var result := [DotFrom(fpu, source, target, size, 0, 0), 0, 0, 0];
      EatPrefixes(WriteVector(m, vd, 1, ApplyDestinationPrefix(fpu, m, result, 1)))
    else
      var result := Combine(fpu, operation, source, target, size);
      EatPrefixes(WriteVector(m, vd, size, ApplyDestinationPrefix(fpu, m, result, size)))
  }

  // ----- everything else the unit does -----

  function LaneAddress(address: Word, k: int): Word {
    Wrap(address + 4 * k)
  }

  /** Loads lanes i, i + 1, ... below `stop` from address + 4 * lane. */
  function LoadLanes(m: Machine, address: Word, values: Lanes, i: nat, stop: nat): (Lanes, Machine)
    requires i <= stop <= 4
    decreases stop - i
  {
    if i == stop then (values, m)
    else
      var (word, next) := m.Load(LaneAddress(address, i), 4);
      LoadLanes(next, address, values[i := word], i + 1, stop)
  }

  /** Loads lanes 3, 2, ... downwards, `count` of them, from address - 4 * i. */
  function LoadLanesDown(m: Machine, address: Word, values: Lanes, i: nat, count: nat): (Lanes, Machine)
    requires i <= count <= 4
    decreases count - i
  {
    if i == count then (values, m)
    else
      var (word, next) := m.Load(LaneAddress(address, 0 - i), 4);
      LoadLanesDown(next, address, values[3 - i := word], i + 1, count)
  }

  function StoreLanes(m: Machine, address: Word, values: Lanes, i: nat, stop: nat): Machine
    requires i <= stop <= 4
    decreases stop - i
  {
    if i == stop then m
    else StoreLanes(m.Store(LaneAddress(address, i), 4, values[i]), address, values, i + 1, stop)
  }

  function StoreLanesDown(m: Machine, address: Word, values: Lanes, i: nat, count: nat): Machine
    requires i <= count <= 4
    decreases count - i
  {
    if i == count then m
    else StoreLanesDown(m.Store(LaneAddress(address, 0 - i), 4, values[3 - i]), address, values, i + 1, count)
  }

  function TransferAddress(m: Machine, word: Word): Word {
    Add(m.gpr[word / 0x20_0000 % 32], SignExtend16(word % 0x1_0000 / 4 * 4))
  }

  function ExecuteMove(m: Machine, word: Word, pc: Word): Machine {
    var kind := word / 0x20_0000 % 32;
    var rt := word / 0x1_0000 % 32;
    var immediate := word % 256;
    if kind == 3 then
      if rt == 0 then m
      else if immediate < 128 then m.Set(rt, m.vfpu[VectorIndex(immediate, 1, 0)])
      else m.Set(rt, m.vfpuCtrl[(immediate - 128) % 16])
    else if kind == 7 then
      if immediate < 128 then m.(vfpu := m.vfpu[VectorIndex(immediate, 1, 0) := m.gpr[rt]])
      else m.(vfpuCtrl := m.vfpuCtrl[(immediate - 128) % 16 := m.gpr[rt]])
    else
      var condition := Bit(m.vfpuCtrl[3], rt / 4);
      if condition == (rt % 2 == 1) then m.Jump(BranchTarget(pc, word))
      else if rt / 2 % 2 == 1 then m.(pc := Add(pc, 8))
      else m
  }

  /** current_pc + 4 + displacement * 4. */
  function BranchTarget(pc: Word, word: Word): Word {
    Wrap(pc + 4 + S32(SignExtend16(word)) * 4)
  }

  /** Branch targets are relative: moving the code moves them along. */
  lemma BranchTargetShift(base: Word, pc: Word, word: Word)
    ensures Add(base, BranchTarget(pc, word)) == BranchTarget(Add(base, pc), word)
  {
    hide SignExtend16;
  }

  function ExecuteTransfer(m: Machine, word: Word): Machine {
    var op := word / 0x400_0000;
    var address := TransferAddress(m, word);
    if op == 0x32 || op == 0x3a then
      var index := VectorIndex(word / 0x1_0000 % 32 + 32 * (word % 4), 1, 0);
      if op == 0x3a then m.Store(address, 4, m.vfpu[index])
      else var (value, next) := m.Load(address, 4); next.(vfpu := next.vfpu[index := value])
    else
      var reg := word / 0x1_0000 % 32 + 32 * (word % 2);
      var held := ReadVector(m, reg, 4);
      var wordOffset := address / 4 % 4;
      if op == 0x35 then
        var (values, next) :=
          if word / 2 % 2 == 0 then LoadLanesDown(m, address, held, 0, wordOffset + 1)
          else LoadLanes(m, address, held, 0, 4 - wordOffset);
        WriteVector(next, reg, 4, values)
      else if op == 0x3d then
        if word / 2 % 2 == 0 then StoreLanesDown(m, address, held, 0, wordOffset + 1)
        else StoreLanes(m, address, held, 0, 4 - wordOffset)
      else if op == 0x36 then
        var (values, next) := LoadLanes(m, address, [0, 0, 0, 0], 0, 4);
        WriteVector(next, reg, 4, values)
      else StoreLanes(m, address, held, 0, 4)
  }

  function ExecutePrefixOrImmediate(fpu: FloatUnit, m: Machine, word: Word): Machine {
    var kind := word / 0x80_0000 % 8;
    if kind <= 5 then
      var index := word / 0x100_0000 % 4;
      var data := if index == 2 then word % 0x1000 else word % 0x10_0000;
      m.(vfpuCtrl := m.vfpuCtrl[index := data])
    else
      var value := if kind == 6 then fpu.fromInteger(SignExtend16(word)) else fpu.halfToFloat(word % 0x1_0000);
      EatPrefixes(WriteVector(m, word / 0x1_0000 % 128, 1, ApplyDestinationPrefix(fpu, m, [value, 0, 0, 0], 1)))
  }

  function ExecuteVfpu(fpu: FloatUnit, m: Machine, word: Word, pc: Word): Machine {
    var op := word / 0x400_0000;
    var operation := StaticOperation(word);
    if op == 0x12 then ExecuteMove(m, word, pc)
    else if op in {0x32, 0x3a, 0x35, 0x3d, 0x36, 0x3e} then ExecuteTransfer(m, word)
    else if op == 0x3f then m
    else if op == 0x37 then ExecutePrefixOrImmediate(fpu, m, word)
    else if operation != NoOperation then ExecuteLanes(fpu, m, word, operation)
    else
      var (vectors, controls) := fpu.otherVector(word, m.vfpu, m.vfpuCtrl);
      m.(vfpu := vectors, vfpuCtrl := controls)
  }

  // ----- the prefix-free fast path -----

  function FastIndex(reg: Word, size: Size, lane: nat): nat {
    var base := reg / 4 % 8 * 4;
    var column := reg % 4;
    var row := (Row(reg, size) + lane) % 4;
    (if size != 1 && reg / 32 % 2 != 0 then base + row + column * 32 else base + column + row * 32) % 128
  }

  function ReadLaneFast(m: Machine, reg: Word, size: Size, lane: nat): Word {
    if lane < size then m.vfpu[FastIndex(reg, size, lane)] else 0
  }

  function ReadVectorFast(m: Machine, reg: Word, size: Size): Lanes {
    [ReadLaneFast(m, reg, size, 0), ReadLaneFast(m, reg, size, 1),
     ReadLaneFast(m, reg, size, 2), ReadLaneFast(m, reg, size, 3)]
  }

  function WriteVectorFast(m: Machine, reg: Word, size: Size, values: Lanes, lane: nat): Machine
    requires lane <= size
    decreases size - lane
  {
    if lane == size then m
    else
      var next := if Bit(m.vfpuCtrl[2], 8 + lane) then m
                  else m.(vfpu := m.vfpu[FastIndex(reg, size, lane) := values[lane]]);
      WriteVectorFast(next, reg, size, values, lane + 1)
  }

  /** execute_vfpu_prefix_free. */
  function ExecutePrefixFree(fpu: FloatUnit, m: Machine, operation: VfpuStaticOperation, size: Size,
                             vd: Word, vs: Word, vt: Word): Machine {
    var source := ReadVectorFast(m, vs, size);
    var target := if operation == MoveLanes then [0, 0, 0, 0] else ReadVectorFast(m, vt, size);
    if operation == DotLanes then
      EatPrefixes(WriteVectorFast(m, vd, 1, [DotFrom(fpu, source, target, size, 0, 0), 0, 0, 0], 0))
    else
      var result := Combine(fpu, operation, source, target, size);
      EatPrefixes(WriteVectorFast(m, vd, size, result, 0))
  }
}

/** The guarded lowering of src/emitter/instruction.cpp keeps the meaning of the
    vector instruction. */
module VfpuProofs {
  import opened Words
  import opened GuestMachine
  import opened Vfpu

  lemma FastIndexAgrees(reg: Word, size: Size, lane: nat)
    ensures FastIndex(reg, size, lane) == VectorIndex(reg, size, lane)
  {
  }

  lemma ReadAgrees(m: Machine, reg: Word, size: Size)
    ensures ReadVectorFast(m, reg, size) == ReadVector(m, reg, size)
  {
    forall lane: nat | lane < 4 ensures ReadLaneFast(m, reg, size, lane) == ReadLane(m, reg, size, lane) {
      FastIndexAgrees(reg, size, lane);
    }
  }

  lemma {:induction false} WriteAgrees(m: Machine, reg: Word, size: Size, values: Lanes, lane: nat)
    requires lane <= size
    ensures WriteVectorFast(m, reg, size, values, lane) == WriteLanes(m, reg, size, values, lane)
    decreases size - lane
  {
    if lane < size {
      FastIndexAgrees(reg, size, lane);
      var next := if Bit(m.vfpuCtrl[2], 8 + lane) then m
                  else m.(vfpu := m.vfpu[VectorIndex(reg, size, lane) := values[lane]]);
      WriteAgrees(next, reg, size, values, lane + 1);
    }
  }

  lemma ShiftRightZero(n: nat)
    ensures ShiftRight(0, n) == 0
  {
  }

  /** With no destination prefix every value passes unchanged. */
  lemma DestinationIdentity(fpu: FloatUnit, m: Machine, values: Lanes, size: Size)
    requires m.vfpuCtrl[2] == 0
    ensures ApplyDestinationPrefix(fpu, m, values, size) == values
  {
    ShiftRightZero(0); ShiftRightZero(2); ShiftRightZero(4); ShiftRightZero(6);
  }

  /** For every size and register choice, aliasing included, the prefix-free
      path computes the state that execute_vfpu computes. */
  lemma GuardedLoweringAgrees(fpu: FloatUnit, m: Machine, word: Word)
    requires PrefixesIdentity(m)
    requires StaticOperation(word) != NoOperation
    ensures ExecutePrefixFree(fpu, m, StaticOperation(word), VectorSize(word),
                              word % 128, word / 0x100 % 128, word / 0x1_0000 % 128)
         == ExecuteLanes(fpu, m, word, StaticOperation(word))
  {
    var operation := StaticOperation(word);
    var size := VectorSize(word);
    var vd, vs, vt := word % 128, word / 0x100 % 128, word / 0x1_0000 % 128;
    ReadAgrees(m, vs, size);
    ReadAgrees(m, vt, size);
    var source, target := ReadVector(m, vs, size), ReadVector(m, vt, size);
    if operation == DotLanes {
      var result := [DotFrom(fpu, source, target, size, 0, 0), 0, 0, 0];
      DestinationIdentity(fpu, m, result, 1);
      WriteAgrees(m, vd, 1, result, 0);
    } else {
      var result := Combine(fpu, operation, source, target, size);
      DestinationIdentity(fpu, m, result, size);
      WriteAgrees(m, vd, size, result, 0);
    }
  }
}
