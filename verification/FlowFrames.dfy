/** What one instruction leaves alone: the memory base always, and control flow
    unless it is a branch. */
module FlowFrames {
  import opened Words
  import opened GuestMachine
  import opened Vfpu
  import opened Decoder
  import I = Interpreter

  /** Equal up to registers, memory contents and a possible fault: control flow
      and the memory base are those of `m`. */
  predicate SameFlow(m: Machine, next: Machine) {
    next.mem.base == m.mem.base && next.pc == m.pc &&
    next.branchPending == m.branchPending && next.branchTarget == m.branchTarget
  }

  lemma AccessesKeepFlow(m: Machine, address: Word, value: Word)
    ensures forall width :: width in {1, 2, 4} ==>
      SameFlow(m, m.Load(address, width).1) && SameFlow(m, m.Store(address, width, value))
    ensures SameFlow(m, m.LoadWordLeft(address, value).1) && SameFlow(m, m.LoadWordRight(address, value).1)
    ensures SameFlow(m, m.StoreWordLeft(address, value)) && SameFlow(m, m.StoreWordRight(address, value))
  {
    hide Peek, Splice, ReplaceBytes, LowBytes;
  }

  lemma MemoryKeepsFlow(m: Machine, word: Word)
    ensures SameFlow(m, I.ExecuteMemory(m, Decode(word)))
  {
    hide Machine.Load, Machine.LoadWordLeft, Machine.LoadWordRight, Classify;
    hide Machine.Store, Machine.StoreWordLeft, Machine.StoreWordRight, SignExtend8, SignExtend16;
    var address := Add(m.gpr[Rs(word)], SignExtend16(word));
    AccessesKeepFlow(m, address, m.gpr[Rt(word)]);
    AccessesKeepFlow(m, address, m.fpr[Rt(word)]);
  }

  lemma {:induction false} WriteLanesKeepsFlow(m: Machine, reg: Word, size: Size, values: Lanes, lane: nat)
    requires lane <= size
    ensures SameFlow(m, WriteLanes(m, reg, size, values, lane))
    decreases size - lane
  {
    hide VectorIndex, Bit;
    if lane < size {
      var next := if Bit(m.vfpuCtrl[2], 8 + lane) then m
                  else m.(vfpu := m.vfpu[VectorIndex(reg, size, lane) := values[lane]]);
      WriteLanesKeepsFlow(next, reg, size, values, lane + 1);
    }
  }

  lemma {:induction false} LoadLanesKeepFlow(m: Machine, address: Word, values: Lanes, i: nat, stop: nat)
    requires i <= stop <= 4
    ensures SameFlow(m, LoadLanes(m, address, values, i, stop).1)
    ensures SameFlow(m, LoadLanesDown(m, address, values, i, stop).1)
    decreases stop - i
  {
    hide Machine.Load;
    if i < stop {
      var (up, next) := m.Load(LaneAddress(address, i), 4);
      var (down, below) := m.Load(LaneAddress(address, 0 - i), 4);
      AccessesKeepFlow(m, LaneAddress(address, i), 0);
      AccessesKeepFlow(m, LaneAddress(address, 0 - i), 0);
      LoadLanesKeepFlow(next, address, values[i := up], i + 1, stop);
      LoadLanesKeepFlow(below, address, values[3 - i := down], i + 1, stop);
    }
  }

  lemma {:induction false} StoreLanesKeepFlow(m: Machine, address: Word, values: Lanes, i: nat, stop: nat)
    requires i <= stop <= 4
    ensures SameFlow(m, StoreLanes(m, address, values, i, stop))
    ensures SameFlow(m, StoreLanesDown(m, address, values, i, stop))
    decreases stop - i
  {
    hide Machine.Store;
    if i < stop {
      AccessesKeepFlow(m, LaneAddress(address, i), values[i]);
      AccessesKeepFlow(m, LaneAddress(address, 0 - i), values[3 - i]);
      StoreLanesKeepFlow(m.Store(LaneAddress(address, i), 4, values[i]), address, values, i + 1, stop);
      StoreLanesKeepFlow(m.Store(LaneAddress(address, 0 - i), 4, values[3 - i]), address, values, i + 1, stop);
    }
  }

  lemma TransferKeepsFlow(m: Machine, word: Word)
    ensures SameFlow(m, ExecuteTransfer(m, word))
  {
    hide Machine.Load, Machine.Store, VectorIndex, WriteLanes, LoadLanes, LoadLanesDown, StoreLanes, StoreLanesDown, TransferAddress;
    var op := word / 0x400_0000;
    var address := TransferAddress(m, word);
    if op == 0x32 || op == 0x3a {
      AccessesKeepFlow(m, address, m.vfpu[VectorIndex(word / 0x1_0000 % 32 + 32 * (word % 4), 1, 0)]);
    } else {
      var reg := word / 0x1_0000 % 32 + 32 * (word % 2);
      var held := ReadVector(m, reg, 4);
      var zeros: Lanes := [0, 0, 0, 0];
      var up, down := address / 4 % 4 + 1, 4 - address / 4 % 4;
      LoadLanesKeepFlow(m, address, held, 0, up);
      LoadLanesKeepFlow(m, address, held, 0, down);
      LoadLanesKeepFlow(m, address, zeros, 0, 4);
      StoreLanesKeepFlow(m, address, held, 0, up);
      StoreLanesKeepFlow(m, address, held, 0, down);
      StoreLanesKeepFlow(m, address, held, 0, 4);
      var (values, next) :=
        if op == 0x36 then LoadLanes(m, address, zeros, 0, 4)
        else if word / 2 % 2 == 0 then LoadLanesDown(m, address, held, 0, up)
        else LoadLanes(m, address, held, 0, down);
      WriteLanesKeepsFlow(next, reg, 4, values, 0);
    }
  }

  lemma LanesKeepFlow(fpu: FloatUnit, m: Machine, word: Word, operation: VfpuStaticOperation)
    ensures SameFlow(m, ExecuteLanes(fpu, m, word, operation))
  {
    hide WriteLanes, ApplyPrefix, ApplyDestinationPrefix, Combine, DotFrom, ReadVector;
    var size, vd := VectorSize(word), word % 128;
    var source := ApplyPrefix(ReadVector(m, word / 0x100 % 128, size), size, m.vfpuCtrl[0]);
    var target := ApplyPrefix(ReadVector(m, word / 0x1_0000 % 128, size), size, m.vfpuCtrl[1]);
    WriteLanesKeepsFlow(m, vd, 1,
      ApplyDestinationPrefix(fpu, m, [DotFrom(fpu, source, target, size, 0, 0), 0, 0, 0], 1), 0);
    WriteLanesKeepsFlow(m, vd, size,
      ApplyDestinationPrefix(fpu, m, Combine(fpu, operation, source, target, size), size), 0);
  }

  lemma PrefixKeepsFlow(fpu: FloatUnit, m: Machine, word: Word)
    ensures SameFlow(m, ExecutePrefixOrImmediate(fpu, m, word))
  {
    hide WriteLanes, ApplyDestinationPrefix;
    var value := if word / 0x80_0000 % 8 == 6 then fpu.fromInteger(SignExtend16(word)) else fpu.halfToFloat(word % 0x1_0000);
    WriteLanesKeepsFlow(m, word / 0x1_0000 % 128, 1, ApplyDestinationPrefix(fpu, m, [value, 0, 0, 0], 1), 0);
  }

  /** Only a VFPU conditional branch touches control flow. */
  lemma VfpuKeepsFlow(fpu: FloatUnit, m: Machine, word: Word, pc: Word)
    ensures ExecuteVfpu(fpu, m, word, pc).mem.base == m.mem.base
    ensures Op(word) != 0x12 || Rs(word) == 3 || Rs(word) == 7 ==> SameFlow(m, ExecuteVfpu(fpu, m, word, pc))
  {
    hide ExecuteLanes, ExecuteTransfer, ExecutePrefixOrImmediate, StaticOperation, BranchTarget, VectorIndex, Bit;
    LanesKeepFlow(fpu, m, word, StaticOperation(word));
    TransferKeepsFlow(m, word);
    PrefixKeepsFlow(fpu, m, word);
  }

  lemma ExecuteKeepsBase(fpu: FloatUnit, m: Machine, word: Word, pc: Word)
    requires Decode(word).Valid()
    ensures I.Execute(fpu, m, word, pc).mem.base == m.mem.base
  {
    hide Classify, I.ArithmeticValue, I.ShiftValue, I.ImmediateValue, I.ScalarFloatValue, BitwiseWord, I.ExecuteMemory, ExecuteVfpu;
    hide FieldMask, ShiftLeft, ShiftRight, S32;
    MemoryKeepsFlow(m, word);
    VfpuKeepsFlow(fpu, m, word, pc);
  }

  /** Which words carry no delayed-branch flag. */
  lemma PlainKinds(word: Word)
    requires Decode(word).Valid() && !StartsDelayedBranch(word)
    ensures var f := I.FamilyOf(Op(word));
      (f.Special? && FunctionCode(word) != 0x08 && FunctionCode(word) != 0x09) || f.Immediate? ||
      (f.Float? && Rs(word) != 0x08) || (f.Vector? && (Op(word) != 0x12 || Rs(word) == 3 || Rs(word) == 7)) ||
      f.Special2? || f.Special3? || f.MemoryAccess?
  {
    hide ValidSpecial, ValidSpecial3, StaticOperation, And;
  }

  lemma PlainSpecial(m: Machine, word: Word, pc: Word)
    requires FunctionCode(word) != 0x08 && FunctionCode(word) != 0x09
    ensures SameFlow(m, I.ExecuteSpecial(m, Decode(word), pc))
  {
    hide I.ArithmeticValue, I.ShiftValue, I.SignedProduct, I.UnsignedProduct, SignedQuotient, SignedRemainder;
    hide UnsignedQuotient, UnsignedRemainder, Classify;
  }

  lemma PlainFloat(fpu: FloatUnit, m: Machine, word: Word, pc: Word)
    requires Rs(word) != 0x08
    ensures SameFlow(m, I.ExecuteFloat(fpu, m, Decode(word), pc))
  {
    hide I.ScalarFloatValue, BitwiseWord, ShiftLeft, Bit, Classify;
  }

  /** A word without the delayed-branch flag falls through. */
  lemma PlainKeepsFlow(fpu: FloatUnit, m: Machine, word: Word, pc: Word)
    requires Decode(word).Valid() && !StartsDelayedBranch(word)
    ensures SameFlow(m, I.Execute(fpu, m, word, pc))
  {
    hide I.ExecuteSpecial, I.ExecuteFloat, I.ExecuteMemory, ExecuteVfpu, I.ImmediateValue, FieldMask, BitwiseWord, ShiftLeft, ShiftRight;
    hide Classify, S32, I.ExecuteRegimm, I.ExecuteJump, I.ExecuteCompareBranch;
    PlainKinds(word);
    var f := I.FamilyOf(Op(word));
    if f.Special? {
      PlainSpecial(m, word, pc);
    } else if f.Float? {
      PlainFloat(fpu, m, word, pc);
    } else if f.Vector? {
      VfpuKeepsFlow(fpu, m, word, pc);
    } else if f.MemoryAccess? {
      MemoryKeepsFlow(m, word);
    }
  }

  /** Where a taken direct branch goes. */
  function DirectTarget(pc: Word, word: Word): Word {
    if Op(word) == 0x02 || Op(word) == 0x03 then I.JumpTarget(pc, word) else BranchTarget(pc, word)
  }

  /** A direct branch is taken, or falls through, or skips its slot if likely. */
  predicate BranchOutcome(m: Machine, next: Machine, word: Word, pc: Word) {
    next.mem == m.mem && next.stop == m.stop &&
    ((next.branchPending && next.branchTarget == DirectTarget(pc, word) && next.pc == m.pc) ||
     (next.branchPending == m.branchPending && next.branchTarget == m.branchTarget &&
      (next.pc == m.pc || (Decode(word).likely && next.pc == Add(pc, 8)))))
  }

  lemma DirectKinds(word: Word)
    requires Decode(word).Valid() && StartsDelayedBranch(word) && Op(word) != 0
    ensures var f := I.FamilyOf(Op(word)); var likely := Decode(word).likely;
      (f.Regimm? && likely == RegimmLikely(Rt(word))) || f.Jump? ||
      (f.CompareBranch? && likely == (Op(word) >= 0x14)) ||
      (f.Float? && Rs(word) == 0x08 && likely == (Rt(word) / 2 % 2 == 1)) || f.Vector?
  {
    hide ValidSpecial, ValidSpecial3, StaticOperation, And;
  }

  lemma BranchHasOutcome(m: Machine, d: Decoded, pc: Word, condition: bool, likely: bool)
    requires d == Decode(d.word) && d.op != 0x02 && d.op != 0x03 && (likely ==> d.likely)
    ensures BranchOutcome(m, I.Branch(m, d, pc, condition, likely), d.word, pc)
  {
    hide Classify, BranchTarget, I.JumpTarget;
  }

  lemma DirectBranchOutcome(fpu: FloatUnit, m: Machine, word: Word, pc: Word)
    requires Decode(word).Valid() && StartsDelayedBranch(word) && Op(word) != 0
    ensures BranchOutcome(m, I.Execute(fpu, m, word, pc), word, pc)
  {
    hide Classify, S32, BranchTarget, I.JumpTarget, Bit, ExecuteVfpu, I.ExecuteScalarFloat, I.Branch, BranchOutcome;
    hide I.ExecuteImmediate, I.ExecuteMemory, I.ExecuteSpecial, I.ExecuteSpecial2, I.ExecuteSpecial3;
    DirectKinds(word);
    var d := Decode(word);
    var f := I.FamilyOf(Op(word));
    if f.Vector? {
      VectorBranchOutcome(fpu, m, word, pc);
    } else if f.Regimm? {
      var ge := d.rt == 0x01 || d.rt == 0x03 || d.rt == 0x11 || d.rt == 0x13;
      var linked := if RegimmLink(d.rt) then m.Set(31, Add(pc, 8)) else m;
      var value := S32(linked.gpr[d.rs]);
      BranchHasOutcome(linked, d, pc, if ge then value >= 0 else value < 0, RegimmLikely(d.rt));
      LinkKeepsOutcome(m, linked, I.ExecuteRegimm(m, d, pc), word, pc);
    } else if f.Jump? {
      JumpHasOutcome(m, word, pc);
    } else if f.CompareBranch? {
      CompareHasOutcome(m, word, pc);
    } else {
      FloatBranchBits(word);
      BranchHasOutcome(m, d, pc, Bit(m.fcr31, I.ConditionBit(word / 0x4_0000 % 8)) == (word / 0x1_0000 % 2 == 1),
                       word / 0x2_0000 % 2 == 1);
    }
  }

  /** The condition-code, polarity and likely bits of bc1. */
  lemma FloatBranchBits(word: Word)
    ensures word / 0x4_0000 % 8 == Rt(word) / 4 % 8
    ensures word / 0x1_0000 % 2 == Rt(word) % 2
    ensures word / 0x2_0000 % 2 == Rt(word) / 2 % 2
  {
    var half, top: int := word / 0x1_0000, word / 0x20_0000;
    BitsOfHalf(half, top);
    assert word / 0x4_0000 == half / 4 && word / 0x2_0000 == half / 2;
  }

  lemma BitsOfHalf(half: int, top: int)
    requires half / 32 == top
    ensures half / 4 % 8 == half % 32 / 4 % 8 && half % 2 == half % 32 % 2 && half / 2 % 2 == half % 32 / 2 % 2
  {
    assert half == 32 * top + half % 32;
  }

  lemma LinkKeepsOutcome(m: Machine, linked: Machine, next: Machine, word: Word, pc: Word)
    requires linked == m.(gpr := linked.gpr) && BranchOutcome(linked, next, word, pc)
    ensures BranchOutcome(m, next, word, pc)
  {
    hide DirectTarget, Classify;
  }

  lemma JumpHasOutcome(m: Machine, word: Word, pc: Word)
    requires Op(word) == 0x02 || Op(word) == 0x03
    ensures BranchOutcome(m, I.ExecuteJump(m, Decode(word), pc), word, pc)
  {
    hide Classify, I.JumpTarget;
  }

  lemma CompareHasOutcome(m: Machine, word: Word, pc: Word)
    requires I.FamilyOf(Op(word)).CompareBranch? && Decode(word).likely == (Op(word) >= 0x14)
    ensures BranchOutcome(m, I.ExecuteCompareBranch(m, Decode(word), pc), word, pc)
  {
    hide Classify, BranchTarget, I.JumpTarget, S32;
  }

  lemma VectorBranchOutcome(fpu: FloatUnit, m: Machine, word: Word, pc: Word)
    requires Decode(word).Valid() && StartsDelayedBranch(word) && I.FamilyOf(Op(word)).Vector?
    ensures BranchOutcome(m, ExecuteVfpu(fpu, m, word, pc), word, pc)
  {
    hide StaticOperation, BranchTarget, I.JumpTarget, Bit, ExecuteVfpu, And, VectorIndex;
    VectorBranch(fpu, m, word, pc);
  }

  lemma VectorBranch(fpu: FloatUnit, m: Machine, word: Word, pc: Word)
    ensures Op(word) == 0x12 ==> ExecuteVfpu(fpu, m, word, pc) == ExecuteMove(m, word, pc)
  {
    hide ExecuteMove, ExecuteTransfer, ExecuteLanes, ExecutePrefixOrImmediate, StaticOperation;
  }

  /** The register a call leaves its return address in. */
  function LinkRegister(word: Word): nat {
    if Op(word) == 0 then Rd(word) else 31
  }

  lemma CallsLink(fpu: FloatUnit, m: Machine, word: Word, pc: Word)
    requires Decode(word).Valid() && Decode(word).call && LinkRegister(word) != 0
    ensures LinkRegister(word) < 32 && I.Execute(fpu, m, word, pc).gpr[LinkRegister(word)] == Add(pc, 8)
  {
    hide S32, StaticOperation, ValidSpecial, ValidSpecial3, ScalarFloat, And, BranchTarget, I.JumpTarget;
  }
}
