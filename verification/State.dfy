/** The mutable guest state (include/psprecomp/runtime.hpp) and the interpreter
    working on it in place.  Register files are arrays inside the C++ struct and
    are copied with it, so they are values here; the four memory regions are
    reached through pointers, so they are arrays. */
module GuestState {
  import opened Words
  import opened GuestMachine
  import opened Vfpu
  import opened Decoder
  import I = Interpreter

  class State {
    var gpr: Bank32
    var hi: Word
    var lo: Word
    var fpr: Bank32
    var fcr31: Word
    var vfpu: Bank128
    var vfpuCtrl: Bank16
    var pc: Word
    const memory: array<Byte>
    var memoryBase: Word
    const scratchpad: array<Byte>
    const videoMemory: array<Byte>
    const volatileMemory: array<Byte>
    var branchPending: bool
    var branchTarget: Word
    var stopReason: StopReason
    var faultAddress: Word
    var faultInstruction: Word
    var faultPc: Word

    /** No region overlaps another, and the word fast path never underflows. */
    ghost predicate Valid()
    {
      memory != scratchpad && memory != videoMemory && memory != volatileMemory &&
      scratchpad != videoMemory && scratchpad != volatileMemory && videoMemory != volatileMemory &&
      (memory.Length == 0 || 4 <= memory.Length)
    }

    ghost const Repr: set<object> := {this, memory, scratchpad, videoMemory, volatileMemory}

    function Mem(): Memory
      requires Valid()
      reads this, memory, scratchpad, videoMemory, volatileMemory
    {
      Memory(memoryBase, memory[..], scratchpad[..], videoMemory[..], volatileMemory[..])
    }

    function Snapshot(): Machine
      requires Valid()
      reads this, memory, scratchpad, videoMemory, volatileMemory
    {
      Machine(gpr, hi, lo, fpr, fcr31, vfpu, vfpuCtrl, pc, Mem(), branchPending, branchTarget,
              stopReason, faultAddress, faultInstruction, faultPc)
    }

    function RegionArray(region: Region): array<Byte>
    {
      match region
      case Main => memory
      case Scratchpad => scratchpad
      case Video => videoMemory
      case Volatile => volatileMemory
    }

    /** mapped_address: the region and offset stand for the host pointer. */
    function Locate(address: Word, width: nat): (r: Location)
      requires Valid() && 1 <= width
      reads this, memory, scratchpad, videoMemory, volatileMemory
      ensures r == MappedAddress(Mem(), address, width)
      ensures r.Mapped? ==> r.offset + width <= RegionArray(r.region).Length
    {
      var canon := Canonical(address);
      var offset := Sub(canon, memoryBase);
      if width <= memory.Length - offset then Mapped(Main, offset)
      else if canon / 0x100_0000 == 0x00 then
        RegionAddress(Scratchpad, scratchpad.Length, 0x0001_0000, canon, width)
      else if canon / 0x100_0000 == 0x04 then
        RegionAddress(Video, videoMemory.Length, 0x0400_0000, canon, width)
      else if canon / 0x100_0000 == 0x08 then
        RegionAddress(Volatile, volatileMemory.Length, 0x0840_0000, canon, width)
      else Unmapped
    }

    method NoteMemoryFault(address: Word)
      requires Valid()
      modifies this`stopReason, this`faultAddress, this`faultPc
      ensures Snapshot() == old(Snapshot()).Fault(address)
    {
      stopReason := MemoryFault;
      faultAddress := address;
      if faultPc == 0 {
        faultPc := pc;
      }
    }

    method Load8(address: Word) returns (value: Word)
      requires Valid()
      modifies this`stopReason, this`faultAddress, this`faultPc
      ensures (value, Snapshot()) == old(Snapshot()).Load(address, 1)
    {
      var offset := Sub(Canonical(address), memoryBase);
      if offset < memory.Length {
        return memory[offset];
      }
      match Locate(address, 1)
      case Mapped(region, at) =>
        value := RegionArray(region)[at];
      case Unmapped =>
        NoteMemoryFault(address);
        value := 0;
    }

    method Load16(address: Word) returns (value: Word)
      requires Valid()
      modifies this`stopReason, this`faultAddress, this`faultPc
      ensures (value, Snapshot()) == old(Snapshot()).Load(address, 2)
    {
      var offset := Sub(Canonical(address), memoryBase);
      if memory.Length != 0 && offset <= memory.Length - 2 && address % 2 == 0 {
        var low, high: int := memory[offset], memory[offset + 1];
        return low + 0x100 * high;
      }
      if address % 2 != 0 {
        NoteMemoryFault(address);
        return 0;
      }
      match Locate(address, 2)
      case Mapped(region, at) =>
        var bytes := RegionArray(region);
        var low, high: int := bytes[at], bytes[at + 1];
        value := low + 0x100 * high;
      case Unmapped =>
        NoteMemoryFault(address);
        value := 0;
    }

    method Load32(address: Word) returns (value: Word)
      requires Valid()
      modifies this`stopReason, this`faultAddress, this`faultPc
      ensures (value, Snapshot()) == old(Snapshot()).Load(address, 4)
    {
      hide FromBytes;
      var offset := Sub(Canonical(address), memoryBase);
      if memory.Length != 0 && offset <= memory.Length - 4 && address % 4 == 0 {
        return FromBytes(memory[offset], memory[offset + 1], memory[offset + 2], memory[offset + 3]);
      }
      if address % 4 != 0 {
        NoteMemoryFault(address);
        return 0;
      }
      match Locate(address, 4)
      case Mapped(region, at) =>
        var bytes := RegionArray(region);
        value := FromBytes(bytes[at], bytes[at + 1], bytes[at + 2], bytes[at + 3]);
      case Unmapped =>
        NoteMemoryFault(address);
        value := 0;
    }

    /** memcpy into a region. */
    method WriteBytes(region: Region, at: nat, bytes: seq<Byte>)
      requires Valid()
      requires at + |bytes| <= RegionArray(region).Length
      modifies RegionArray(region)
      ensures RegionArray(region)[..] == Splice(old(RegionArray(region)[..]), at, bytes)
      ensures Mem() == old(Mem()).Write(region, at, bytes)
    {
      var target := RegionArray(region);
      for i := 0 to |bytes|
        invariant forall k :: 0 <= k < target.Length ==>
          target[k] == if at <= k < at + i then bytes[k - at] else old(target[k])
      {
        target[at + i] := bytes[i];
      }
      assert target[..] == Splice(old(target[..]), at, bytes);
      WriteTouchesOne(old(Mem()), Mem(), region, at, bytes);
    }

    method Store(address: Word, width: nat, value: Word)
      requires Valid() && width in {1, 2, 4}
      modifies Repr
      ensures Snapshot() == old(Snapshot()).Store(address, width, value)
    {
      var offset := Sub(Canonical(address), memoryBase);
      if memory.Length != 0 && offset <= memory.Length - width && address % width == 0 {
        WriteBytes(Main, offset, LowBytes(value, width));
        return;
      }
      if address % width != 0 {
        NoteMemoryFault(address);
        return;
      }
      match Locate(address, width)
      case Mapped(region, at) => WriteBytes(region, at, LowBytes(value, width));
      case Unmapped => NoteMemoryFault(address);
    }

    method LoadWordLeft(address: Word, value: Word) returns (merged: Word)
      requires Valid()
      modifies this`stopReason, this`faultAddress, this`faultPc
      ensures (merged, Snapshot()) == old(Snapshot()).LoadWordLeft(address, value)
    {
      hide MappedAddress, ReplaceBytes;
      var count := address % 4 + 1;
      var aligned := address - address % 4;
      match Locate(aligned, count)
      case Mapped(region, at) =>
        merged := ReplaceBytes(value, 4 - count, RegionArray(region)[at..at + count]);
      case Unmapped =>
        NoteMemoryFault(aligned);
        merged := value;
    }

    method LoadWordRight(address: Word, value: Word) returns (merged: Word)
      requires Valid()
      modifies this`stopReason, this`faultAddress, this`faultPc
      ensures (merged, Snapshot()) == old(Snapshot()).LoadWordRight(address, value)
    {
      hide MappedAddress, ReplaceBytes;
      var count := 4 - address % 4;
      match Locate(address, count)
      case Mapped(region, at) =>
        merged := ReplaceBytes(value, 0, RegionArray(region)[at..at + count]);
      case Unmapped =>
        NoteMemoryFault(address);
        merged := value;
    }

    method StoreWordLeft(address: Word, value: Word)
      requires Valid()
      modifies Repr
      ensures Snapshot() == old(Snapshot()).StoreWordLeft(address, value)
    {
      hide MappedAddress, Splice, ByteOf;
      var count := address % 4 + 1;
      var aligned := address - address % 4;
      match Locate(aligned, count)
      case Mapped(region, at) => WriteBytes(region, at, LowBytes(value, 4)[4 - count..]);
      case Unmapped => NoteMemoryFault(aligned);
    }

    method StoreWordRight(address: Word, value: Word)
      requires Valid()
      modifies Repr
      ensures Snapshot() == old(Snapshot()).StoreWordRight(address, value)
    {
      hide MappedAddress, Splice, LowBytes;
      var count := 4 - address % 4;
      match Locate(address, count)
      case Mapped(region, at) => WriteBytes(region, at, LowBytes(value, count));
      case Unmapped => NoteMemoryFault(address);
    }

    // ----- interpret_allegrex, in place -----

    method Branch(d: Decoded, currentPc: Word, condition: bool, likely: bool)
      requires Valid()
      modifies this`branchPending, this`branchTarget, this`pc
      ensures Snapshot() == I.Branch(old(Snapshot()), d, currentPc, condition, likely)
    {
      if condition {
        branchPending := true;
        branchTarget := BranchTarget(currentPc, d.word);
      } else if likely {
        pc := Add(currentPc, 8);
      }
    }

    method Fail(d: Decoded, currentPc: Word)
      requires Valid()
      modifies this`stopReason, this`faultPc, this`faultAddress, this`faultInstruction
      ensures Snapshot() == I.Fail(old(Snapshot()), d, currentPc)
    {
      stopReason := UnsupportedInstruction;
      faultPc := currentPc;
      faultAddress := currentPc;
      faultInstruction := d.word;
    }

    method SetHiLo(value: int)
      requires Valid()
      modifies this`hi, this`lo
      ensures Snapshot() == I.SetHiLo(old(Snapshot()), value)
    {
      lo := Wrap(value);
      hi := High(value);
    }

    method DivideSigned(a: Word, b: Word)
      requires Valid()
      modifies this`hi, this`lo
      ensures Snapshot() == I.DivideSigned(old(Snapshot()), a, b)
    {
      hide SignedQuotient, SignedRemainder;
      var left, right := S32(a), S32(b);
      if right == 0 {
        lo := if left < 0 then 1 else 0xffff_ffff;
        hi := a;
      } else if left == -0x8000_0000 && right == -1 {
        lo := Wrap(left);
        hi := 0xffff_ffff;
      } else {
        lo := SignedQuotient(a, b);
        hi := SignedRemainder(a, b);
      }
    }

    method DivideUnsigned(a: Word, b: Word)
      requires Valid()
      modifies this`hi, this`lo
      ensures Snapshot() == I.DivideUnsigned(old(Snapshot()), a, b)
    {
      hide UnsignedQuotient, UnsignedRemainder;
      if b == 0 {
        lo := if a <= 0xffff then 0xffff else 0xffff_ffff;
        hi := a;
      } else {
        lo := UnsignedQuotient(a, b);
        hi := UnsignedRemainder(a, b);
      }
    }

    method ExecuteHiLo(d: Decoded)
      requires Valid() && d.rs < 32 && d.rt < 32 && d.rd < 32
      modifies this`gpr, this`hi, this`lo
      ensures Snapshot() == I.ExecuteHiLo(old(Snapshot()), d)
    {
      hide I.SignedProduct, I.UnsignedProduct, I.SetHiLo, I.DivideSigned, I.DivideUnsigned;
      var s, t := gpr[d.rs], gpr[d.rt];
      var accumulator: int := lo + TWO32 * hi;
      match d.function_
      case 0x10 => gpr := gpr[d.rd := hi];
      case 0x11 => hi := s;
      case 0x12 => gpr := gpr[d.rd := lo];
      case 0x13 => lo := s;
      case 0x18 => SetHiLo(I.SignedProduct(s, t));
      case 0x19 => SetHiLo(I.UnsignedProduct(s, t));
      case 0x1a => DivideSigned(s, t);
      case 0x1b => DivideUnsigned(s, t);
      case 0x1c => SetHiLo(accumulator + I.SignedProduct(s, t));
      case 0x1d => SetHiLo(accumulator + I.UnsignedProduct(s, t));
      case 0x2e => SetHiLo(accumulator - I.SignedProduct(s, t));
      case 0x2f => SetHiLo(accumulator - I.UnsignedProduct(s, t));
      case _ =>
    }

    method ExecuteSpecial(d: Decoded, currentPc: Word)
      requires Valid() && d.rs < 32 && d.rt < 32 && d.rd < 32 && d.shift < 32
      modifies this
      ensures Snapshot() == I.ExecuteSpecial(old(Snapshot()), d, currentPc)
    {
      hide I.ShiftValue, I.ArithmeticValue, I.ExecuteHiLo;
      var f := d.function_;
      var s, t := gpr[d.rs], gpr[d.rt];
      if f <= 0x07 {
        gpr := gpr[d.rd := I.ShiftValue(d, s, t)];
      } else if f == 0x08 {
        branchPending := true;
        branchTarget := s;
      } else if f == 0x09 {
        if d.rd != 0 {
          gpr := gpr[d.rd := Add(currentPc, 8)];
        }
        branchPending := true;
        branchTarget := s;
      } else if f == 0x0a {
        if t == 0 {
          gpr := gpr[d.rd := s];
        }
      } else if f == 0x0b {
        if t != 0 {
          gpr := gpr[d.rd := s];
        }
      } else if f == 0x0c {
        stopReason := Syscall;
      } else if f == 0x0d || f == 0x0f {
        // break and sync fall through
      } else if 0x10 <= f <= 0x13 || 0x18 <= f <= 0x1d || f >= 0x2e {
        ExecuteHiLo(d);
      } else {
        gpr := gpr[d.rd := I.ArithmeticValue(f, s, t)];
      }
    }

    method ExecuteRegimm(d: Decoded, currentPc: Word)
      requires Valid() && d.rs < 32
      modifies this
      ensures Snapshot() == I.ExecuteRegimm(old(Snapshot()), d, currentPc)
    {
      var ge := d.rt == 0x01 || d.rt == 0x03 || d.rt == 0x11 || d.rt == 0x13;
      if RegimmLink(d.rt) {
        gpr := gpr[31 := Add(currentPc, 8)];
      }
      var value := S32(gpr[d.rs]);
      Branch(d, currentPc, if ge then value >= 0 else value < 0, RegimmLikely(d.rt));
    }

    method ExecuteJump(d: Decoded, currentPc: Word)
      requires Valid()
      modifies this
      ensures Snapshot() == I.ExecuteJump(old(Snapshot()), d, currentPc)
    {
      if d.op == 0x03 {
        gpr := gpr[31 := Add(currentPc, 8)];
      }
      branchPending := true;
      branchTarget := I.JumpTarget(currentPc, d.word);
    }

    method ExecuteCompareBranch(d: Decoded, currentPc: Word)
      requires Valid() && d.rs < 32 && d.rt < 32
      modifies this
      ensures Snapshot() == I.ExecuteCompareBranch(old(Snapshot()), d, currentPc)
    {
      var likely := d.op >= 0x14;
      match d.op % 4
      case 0 => Branch(d, currentPc, gpr[d.rs] == gpr[d.rt], likely);
      case 1 => Branch(d, currentPc, gpr[d.rs] != gpr[d.rt], likely);
      case 2 => Branch(d, currentPc, S32(gpr[d.rs]) <= 0, likely);
      case _ => Branch(d, currentPc, S32(gpr[d.rs]) > 0, likely);
    }

    method CompareFloats(fpu: FloatUnit, cc: nat, left: Word, right: Word, condition: nat)
      requires Valid()
      modifies this`fcr31
      ensures Snapshot() == I.CompareFloats(fpu, old(Snapshot()), cc, left, right, condition)
    {
      hide ShiftLeft, BitwiseWord;
      var unordered := fpu.isNan(left) || fpu.isNan(right);
      var less := !unordered && fpu.less(left, right);
      var same := !unordered && fpu.equal(left, right);
      var value := (condition / 4 % 2 == 1 && less) || (condition / 2 % 2 == 1 && same) ||
                   (condition % 2 == 1 && unordered);
      var mask := ShiftLeft(1, I.ConditionBit(cc));
      fcr31 := if value then Or(fcr31, mask) else And(fcr31, Complement(mask));
    }

    method ExecuteFloat(fpu: FloatUnit, d: Decoded, currentPc: Word)
      requires Valid() && d.rt < 32 && d.rd < 32 && d.shift < 32
      modifies this
      ensures Snapshot() == I.ExecuteFloat(fpu, old(Snapshot()), d, currentPc)
    {
      hide I.ScalarFloatValue, I.CompareFloats, Bit, BranchTarget;
      if d.rs == 0x00 {
        gpr := gpr[d.rt := fpr[d.rd]];
      } else if d.rs == 0x04 {
        fpr := fpr[d.rd := gpr[d.rt]];
      } else if d.rs == 0x02 {
        gpr := gpr[d.rt := if d.rd == 0 then 0x0000_3351 else if d.rd == 31 then fcr31 else 0];
      } else if d.rs == 0x06 {
        if d.rd == 31 {
          fcr31 := gpr[d.rt];
        }
      } else if d.rs == 0x08 {
        var bit := I.ConditionBit(d.word / 0x4_0000 % 8);
        Branch(d, currentPc, Bit(fcr31, bit) == (d.word / 0x1_0000 % 2 == 1), d.word / 0x2_0000 % 2 == 1);
      } else if d.rs == 0x10 {
        if d.function_ == 0x11 {
          if Bit(fcr31, I.ConditionBit(d.rt / 4 % 8)) == (d.rt % 2 == 1) {
            fpr := fpr[d.shift := fpr[d.rd]];
          }
        } else if d.function_ >= 0x30 {
          CompareFloats(fpu, d.word / 0x100 % 8, fpr[d.rd], fpr[d.rt], d.function_ % 16);
        } else {
          fpr := fpr[d.shift := I.ScalarFloatValue(fpu, d.function_, fpr[d.rd], fpr[d.rt], fcr31 % 4)];
        }
      } else {
        fpr := fpr[d.shift := fpu.fromInteger(fpr[d.rd])];
      }
    }

    method ExecuteSpecial2(d: Decoded)
      requires Valid() && d.rs < 32 && d.rt < 32 && d.rd < 32
      modifies this`gpr
      ensures Snapshot() == I.ExecuteSpecial2(old(Snapshot()), d)
    {
      hide CountLeadingZeros, CountLeadingOnes;
      var s, t := gpr[d.rs], gpr[d.rt];
      match d.function_
      case 0x20 => gpr := gpr[d.rd := CountLeadingZeros(s)];
      case 0x21 => gpr := gpr[d.rd := CountLeadingOnes(s)];
      case 0x2c => gpr := gpr[d.rd := I.MaxSigned(s, t)];
      case _ => gpr := gpr[d.rd := I.MinSigned(s, t)];
    }

    method ExecuteSpecial3(d: Decoded)
      requires Valid() && d.rs < 32 && d.rt < 32 && d.rd < 32
      requires d.function_ == 4 ==> d.rd >= d.shift
      modifies this`gpr
      ensures Snapshot() == I.ExecuteSpecial3(old(Snapshot()), d)
    {
      hide BitwiseWord, ShiftLeft, ShiftRight, FieldMask, ReverseBits, ByteSwap, SwapHalfwordBytes;
      var s, t := gpr[d.rs], gpr[d.rt];
      if d.function_ == 0 {
        gpr := gpr[d.rt := And(ShiftRight(s, d.shift), FieldMask(d.rd + 1))];
      } else if d.function_ == 4 {
        var positioned := ShiftLeft(FieldMask(d.rd - d.shift + 1), d.shift);
        gpr := gpr[d.rt := Or(And(t, Complement(positioned)), And(ShiftLeft(s, d.shift), positioned))];
      } else {
        match d.shift
        case 0x14 => gpr := gpr[d.rd := ReverseBits(t)];
        case 0x02 => gpr := gpr[d.rd := SwapHalfwordBytes(t)];
        case 0x03 => gpr := gpr[d.rd := ByteSwap(t)];
        case 0x10 => gpr := gpr[d.rd := SignExtend8(t)];
        case _ => gpr := gpr[d.rd := SignExtend16(t)];
      }
    }

    method PutGpr(index: nat, value: Word)
      requires Valid() && index < 32
      modifies this`gpr
      ensures Snapshot() == old(Snapshot()).Set(index, value)
    {
      gpr := gpr[index := value];
    }

    method ExecuteMemory(d: Decoded)
      requires Valid() && d.rs < 32 && d.rt < 32
      modifies Repr
      ensures Snapshot() == I.ExecuteMemory(old(Snapshot()), d)
    {
      hide Machine.Load, Machine.Store, Machine.LoadWordLeft, Machine.LoadWordRight, Machine.StoreWordLeft, Machine.StoreWordRight;
      hide SignExtend8, SignExtend16;
      var address := Add(gpr[d.rs], SignExtend16(d.word));
      var t := gpr[d.rt];
      var value: Word;
      match d.op
      case 0x20 => value := Load8(address); PutGpr(d.rt, SignExtend8(value));
      case 0x21 => value := Load16(address); PutGpr(d.rt, SignExtend16(value));
      case 0x22 => value := LoadWordLeft(address, t); PutGpr(d.rt, value);
      case 0x23 => value := Load32(address); PutGpr(d.rt, value);
      case 0x24 => value := Load8(address); PutGpr(d.rt, value);
      case 0x25 => value := Load16(address); PutGpr(d.rt, value);
      case 0x26 => value := LoadWordRight(address, t); PutGpr(d.rt, value);
      case 0x28 => Store(address, 1, t);
      case 0x29 => Store(address, 2, t);
      case 0x2a => StoreWordLeft(address, t);
      case 0x2b => Store(address, 4, t);
      case 0x2e => StoreWordRight(address, t);
      case 0x30 => value := Load32(address); PutGpr(d.rt, value);
      case 0x31 => value := Load32(address); fpr := fpr[d.rt := value];
      case 0x38 => Store(address, 4, t); PutGpr(d.rt, 1);
      case 0x39 => Store(address, 4, fpr[d.rt]);
      case _ =>
    }

    /** The transfer loops of execute_vfpu, upwards and downwards in lanes. */
    method LoadVectorLanes(address: Word, initial: Lanes, count: nat, down: bool) returns (values: Lanes)
      requires Valid() && count <= 4
      modifies this`stopReason, this`faultAddress, this`faultPc
      ensures (values, Snapshot()) ==
        if down then LoadLanesDown(old(Snapshot()), address, initial, 0, count)
        else LoadLanes(old(Snapshot()), address, initial, 0, count)
    {
      hide Machine.Load;
      values := initial;
      for i := 0 to count
        invariant Valid()
        invariant !down ==> LoadLanes(Snapshot(), address, values, i, count) == LoadLanes(old(Snapshot()), address, initial, 0, count)
        invariant down ==> LoadLanesDown(Snapshot(), address, values, i, count) == LoadLanesDown(old(Snapshot()), address, initial, 0, count)
      {
        var word := Load32(LaneAddress(address, if down then 0 - i else i));
        values := values[if down then 3 - i else i := word];
      }
    }

    method StoreVectorLanes(address: Word, values: Lanes, count: nat, down: bool)
      requires Valid() && count <= 4
      modifies Repr
      ensures Snapshot() ==
        if down then StoreLanesDown(old(Snapshot()), address, values, 0, count)
        else StoreLanes(old(Snapshot()), address, values, 0, count)
    {
      hide Machine.Store;
      for i := 0 to count
        invariant Valid()
        invariant !down ==> StoreLanes(Snapshot(), address, values, i, count) == StoreLanes(old(Snapshot()), address, values, 0, count)
        invariant down ==> StoreLanesDown(Snapshot(), address, values, i, count) == StoreLanesDown(old(Snapshot()), address, values, 0, count)
      {
        Store(LaneAddress(address, if down then 0 - i else i), 4, values[if down then 3 - i else i]);
      }
    }

    method WriteVectorRegister(reg: Word, size: Size, values: Lanes)
      requires Valid()
      modifies this`vfpu
      ensures Snapshot() == WriteVector(old(Snapshot()), reg, size, values)
    {
      hide VectorIndex, Bit;
      for lane := 0 to size
        invariant WriteLanes(Snapshot(), reg, size, values, lane) == WriteVector(old(Snapshot()), reg, size, values)
      {
        if !Bit(vfpuCtrl[2], 8 + lane) {
          vfpu := vfpu[VectorIndex(reg, size, lane) := values[lane]];
        }
      }
    }

    method ExecuteTransfer(word: Word)
      requires Valid()
      modifies Repr
      ensures Snapshot() == Vfpu.ExecuteTransfer(old(Snapshot()), word)
    {
      hide VectorIndex, LoadLanes, LoadLanesDown, StoreLanes, StoreLanesDown, WriteVector, Machine.Load, Machine.Store;
      var op := word / 0x400_0000;
      var address := TransferAddress(Snapshot(), word);
      if op == 0x32 || op == 0x3a {
        var index := VectorIndex(word / 0x1_0000 % 32 + 32 * (word % 4), 1, 0);
        if op == 0x3a {
          Store(address, 4, vfpu[index]);
        } else {
          var value := Load32(address);
          vfpu := vfpu[index := value];
        }
        return;
      }
      var reg := word / 0x1_0000 % 32 + 32 * (word % 2);
      var held := ReadVector(Snapshot(), reg, 4);
      var left := word / 2 % 2 == 0;
      var partial := if left then address / 4 % 4 + 1 else 4 - address / 4 % 4;
      if op == 0x35 {
        var values := LoadVectorLanes(address, held, partial, left);
        WriteVectorRegister(reg, 4, values);
      } else if op == 0x3d {
        StoreVectorLanes(address, held, partial, left);
      } else if op == 0x36 {
        var values := LoadVectorLanes(address, [0, 0, 0, 0], 4, false);
        WriteVectorRegister(reg, 4, values);
      } else {
        StoreVectorLanes(address, held, 4, false);
      }
    }

    method SetRegisters(after: Machine)
      requires Valid()
      modifies this`gpr, this`vfpu, this`vfpuCtrl, this`pc, this`branchPending, this`branchTarget
      ensures Snapshot() == old(Snapshot()).(gpr := after.gpr, vfpu := after.vfpu, vfpuCtrl := after.vfpuCtrl,
        pc := after.pc, branchPending := after.branchPending, branchTarget := after.branchTarget)
    {
      gpr, vfpu, vfpuCtrl := after.gpr, after.vfpu, after.vfpuCtrl;
      pc, branchPending, branchTarget := after.pc, after.branchPending, after.branchTarget;
    }

    /** Vector arithmetic only rewrites registers and control flow. */
    method ExecuteVfpu(fpu: FloatUnit, word: Word, currentPc: Word)
      requires Valid()
      modifies Repr
      ensures Snapshot() == Vfpu.ExecuteVfpu(fpu, old(Snapshot()), word, currentPc)
    {
      hide Vfpu.ExecuteVfpu, Vfpu.ExecuteTransfer;
      var op := word / 0x400_0000;
      if op in {0x32, 0x3a, 0x35, 0x3d, 0x36, 0x3e} {
        TransfersOnly(fpu, Snapshot(), word, currentPc);
        ExecuteTransfer(word);
      } else {
        RegistersOnly(fpu, Snapshot(), word, currentPc);
        var after := Vfpu.ExecuteVfpu(fpu, Snapshot(), word, currentPc);
        SetRegisters(after);
      }
    }

    method Execute(fpu: FloatUnit, d: Decoded, currentPc: Word)
      requires Valid() && d == Decode(d.word) && d.Valid()
      modifies Repr
      ensures Snapshot() == I.Execute(fpu, old(Snapshot()), d.word, currentPc)
    {
      hide I.ExecuteSpecial, I.ExecuteRegimm, I.ExecuteJump, I.ExecuteCompareBranch, I.ExecuteFloat, I.ExecuteMemory,
           I.ExecuteSpecial2, I.ExecuteSpecial3, Vfpu.ExecuteVfpu, I.ImmediateValue;
      Special3Fields(d.word);
      match I.FamilyOf(d.op)
      case Special => ExecuteSpecial(d, currentPc);
      case Regimm => ExecuteRegimm(d, currentPc);
      case Jump => ExecuteJump(d, currentPc);
      case CompareBranch => ExecuteCompareBranch(d, currentPc);
      case Immediate =>
        gpr := gpr[d.rt := I.ImmediateValue(d.op, gpr[d.rs], d.word % 0x1_0000, SignExtend16(d.word))];
      case Float => ExecuteFloat(fpu, d, currentPc);
      case Vector => ExecuteVfpu(fpu, d.word, currentPc);
      case Special2 => ExecuteSpecial2(d);
      case Special3 => ExecuteSpecial3(d);
      case MemoryAccess => ExecuteMemory(d);
    }

    /** Executes a fetched word; a branch taken one step earlier lands. */
    method Step(fpu: FloatUnit, word: Word, currentPc: Word)
      requires Valid()
      modifies Repr
      ensures Snapshot() == I.Step(fpu, old(Snapshot()), word, currentPc)
    {
      hide I.Execute, I.Fail, Machine.Load, Classify;
      var d := Decode(word);
      var applyDelayedBranch, delayedTarget := branchPending, branchTarget;
      branchPending := false;
      pc := Add(currentPc, 4);
      if !d.Valid() {
        Fail(d, currentPc);
        return;
      }
      Execute(fpu, d, currentPc);
      gpr := gpr[0 := 0];
      if stopReason == Running && applyDelayedBranch {
        pc := delayedTarget;
      }
    }

    /** interpret_allegrex: one fetched instruction, its delay slot included. */
    method Interpret(fpu: FloatUnit, currentPc: Word) returns (handled: bool)
      requires Valid()
      modifies Repr
      ensures (Snapshot(), handled) == I.Interpret(fpu, old(Snapshot()), currentPc)
    {
      hide I.Step, Machine.Load;
      if currentPc % 4 != 0 {
        return false;
      }
      var word := Load32(currentPc);
      if stopReason == Running {
        Step(fpu, word, currentPc);
      }
      return true;
    }
  }

  lemma Special3Fields(word: Word)
    requires Decode(word).Valid()
    ensures Op(word) == 0x1f && FunctionCode(word) == 4 ==> Rd(word) >= Shift(word)
  {
    hide And;
  }

  lemma TransfersOnly(fpu: FloatUnit, m: Machine, word: Word, pc: Word)
    requires word / 0x400_0000 in {0x32, 0x3a, 0x35, 0x3d, 0x36, 0x3e}
    ensures Vfpu.ExecuteVfpu(fpu, m, word, pc) == Vfpu.ExecuteTransfer(m, word)
  {
    hide Vfpu.ExecuteTransfer, Vfpu.ExecuteLanes, Vfpu.ExecuteMove, Vfpu.ExecutePrefixOrImmediate, StaticOperation;
  }

  /** Outside its loads and stores the vector unit leaves memory, faults and
      scalar float registers alone. */
  lemma RegistersOnly(fpu: FloatUnit, m: Machine, word: Word, pc: Word)
    requires word / 0x400_0000 !in {0x32, 0x3a, 0x35, 0x3d, 0x36, 0x3e}
    ensures var after := Vfpu.ExecuteVfpu(fpu, m, word, pc);
      after == m.(gpr := after.gpr, vfpu := after.vfpu, vfpuCtrl := after.vfpuCtrl,
                  pc := after.pc, branchPending := after.branchPending, branchTarget := after.branchTarget)
  {
    hide ReadVector, ApplyPrefix, ApplyDestinationPrefix, Combine, DotFrom, VectorIndex, Bit, StaticOperation, BranchTarget, WriteLanes;
    var size, vd := VectorSize(word), word % 128;
    var operation := StaticOperation(word);
    var source := ApplyPrefix(ReadVector(m, word / 0x100 % 128, size), size, m.vfpuCtrl[0]);
    var target := ApplyPrefix(ReadVector(m, word / 0x1_0000 % 128, size), size, m.vfpuCtrl[1]);
    WriteLanesOnly(m, vd, 1, ApplyDestinationPrefix(fpu, m, [DotFrom(fpu, source, target, size, 0, 0), 0, 0, 0], 1), 0);
    WriteLanesOnly(m, vd, size, ApplyDestinationPrefix(fpu, m, Combine(fpu, operation, source, target, size), size), 0);
    var value := if word / 0x80_0000 % 8 == 6 then fpu.fromInteger(SignExtend16(word)) else fpu.halfToFloat(word % 0x1_0000);
    WriteLanesOnly(m, word / 0x1_0000 % 128, 1, ApplyDestinationPrefix(fpu, m, [value, 0, 0, 0], 1), 0);
  }

  lemma {:induction false} WriteLanesOnly(m: Machine, reg: Word, size: Size, values: Lanes, lane: nat)
    requires lane <= size
    ensures var after := WriteLanes(m, reg, size, values, lane); after == m.(vfpu := after.vfpu)
    decreases size - lane
  {
    hide VectorIndex, Bit;
    if lane < size {
      var next := if Bit(m.vfpuCtrl[2], 8 + lane) then m
                  else m.(vfpu := m.vfpu[VectorIndex(reg, size, lane) := values[lane]]);
      WriteLanesOnly(next, reg, size, values, lane + 1);
    }
  }

  lemma WriteTouchesOne(before: Memory, after: Memory, region: Region, at: nat, bytes: seq<Byte>)
    requires at + |bytes| <= |before.Bytes(region)|
    requires after.base == before.base
    requires after.Bytes(region) == Splice(before.Bytes(region), at, bytes)
    requires region != Main ==> after.main == before.main
    requires region != Scratchpad ==> after.scratchpad == before.scratchpad
    requires region != Video ==> after.video == before.video
    requires region != Volatile ==> after.volatile == before.volatile
    ensures after == before.Write(region, at, bytes)
  {
  }
}
