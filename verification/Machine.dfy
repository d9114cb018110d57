/** The guest machine as a value: registers, control flow and the four mapped
    memory regions, with the loads and stores of
    include/psprecomp/runtime.hpp. */
module GuestMachine {
  import opened Words

  // ----- memory -----

  datatype Region = Main | Scratchpad | Video | Volatile

  /** Main memory is absent (length 0) or holds at least one word: the word fast
      path subtracts 4 from its size. */
  type Ram = s: seq<Byte> | |s| == 0 || 4 <= |s|

  datatype Memory = Memory(base: Word, main: Ram, scratchpad: seq<Byte>,
                           video: seq<Byte>, volatile: seq<Byte>)
  {
    function Bytes(region: Region): seq<Byte> {
      match region
      case Main => main
      case Scratchpad => scratchpad
      case Video => video
      case Volatile => volatile
    }

    /** Overwrites the bytes from `offset` on. */
    function Write(region: Region, offset: nat, bytes: seq<Byte>): (r: Memory)
      requires offset + |bytes| <= |Bytes(region)|
    {
      var updated := Splice(Bytes(region), offset, bytes);
      match region
      case Main => this.(main := updated)
      case Scratchpad => this.(scratchpad := updated)
      case Video => this.(video := updated)
      case Volatile => this.(volatile := updated)
    }
  }

  function Splice(s: seq<Byte>, offset: nat, bytes: seq<Byte>): (r: seq<Byte>)
    requires offset + |bytes| <= |s|
    ensures |r| == |s|
    ensures forall k :: 0 <= k < |s| ==>
      r[k] == if offset <= k < offset + |bytes| then bytes[k - offset] else s[k]
  {
    s[..offset] + bytes + s[offset + |bytes|..]
  }

  datatype Location = Unmapped | Mapped(region: Region, offset: nat)

  /** RAM is visible through cached, uncached and kernel aliases. */
  function Canonical(address: Word): Word {
    address % 0x2000_0000
  }

  function RegionAddress(region: Region, size: nat, start: Word, address: Word, width: nat): Location {
    if address < start then Unmapped
    else if width <= size - (address - start) then Mapped(region, address - start)
    else Unmapped
  }

  function MappedAddress(mem: Memory, address: Word, width: nat): (r: Location)
    requires 1 <= width
    ensures r.Mapped? ==> r.offset + width <= |mem.Bytes(r.region)|
  {
    var canon := Canonical(address);
    var offset := Sub(canon, mem.base);
    if width <= |mem.main| - offset then Mapped(Main, offset)
    else if canon / 0x100_0000 == 0x00 then
      RegionAddress(Scratchpad, |mem.scratchpad|, 0x0001_0000, canon, width)
    else if canon / 0x100_0000 == 0x04 then
      RegionAddress(Video, |mem.video|, 0x0400_0000, canon, width)
    else if canon / 0x100_0000 == 0x08 then
      RegionAddress(Volatile, |mem.volatile|, 0x0840_0000, canon, width)
    else Unmapped
  }

  /** The little-endian value of 1, 2 or 4 stored bytes. */
  function Peek(bytes: seq<Byte>, offset: nat, width: nat): Word
    requires width in {1, 2, 4} && offset + width <= |bytes|
  {
    if width == 1 then bytes[offset]
    else if width == 2 then bytes[offset] + 0x100 * bytes[offset + 1]
    else ReadWord(bytes, offset)
  }

  /** The low `width` bytes of a word, in memory order. */
  function LowBytes(value: Word, width: nat): (r: seq<Byte>)
    requires width <= 4
    ensures |r| == width
  {
    [ByteOf(value, 0), ByteOf(value, 1), ByteOf(value, 2), ByteOf(value, 3)][..width]
  }

  /** `value` with its bytes from `start` on replaced. */
  function ReplaceBytes(value: Word, start: nat, bytes: seq<Byte>): Word
    requires start + |bytes| <= 4
  {
    var b := Splice(LowBytes(value, 4), start, bytes);
    FromBytes(b[0], b[1], b[2], b[3])
  }

  // ----- machine -----

  datatype StopReason =
    | Running | Returned | StepLimit | InvalidPc | UnsupportedInstruction
    | MemoryFault | Syscall | Breakpoint

  datatype Machine = Machine(
    gpr: Bank32, hi: Word, lo: Word,
    fpr: Bank32, fcr31: Word,
    vfpu: Bank128, vfpuCtrl: Bank16,
    pc: Word, mem: Memory,
    branchPending: bool, branchTarget: Word,
    stop: StopReason, faultAddress: Word, faultInstruction: Word, faultPc: Word)
  {
    function Set(index: nat, value: Word): Machine
      requires index < 32
    {
      this.(gpr := gpr[index := value])
    }

    function SetFpr(index: nat, value: Word): Machine
      requires index < 32
    {
      this.(fpr := fpr[index := value])
    }

    function Jump(target: Word): Machine {
      this.(branchPending := true, branchTarget := target)
    }

    function Fault(address: Word): Machine {
      this.(stop := MemoryFault, faultAddress := address,
            faultPc := if faultPc == 0 then pc else faultPc)
    }

    /** Reads 1, 2 or 4 bytes; a misaligned or unmapped access faults and reads 0. */
    function Load(address: Word, width: nat): (Word, Machine)
      requires width in {1, 2, 4}
    {
      if address % width != 0 then (0, Fault(address))
      else match MappedAddress(mem, address, width)
        case Mapped(region, offset) => (Peek(mem.Bytes(region), offset, width), this)
        case Unmapped => (0, Fault(address))
    }

    function Store(address: Word, width: nat, value: Word): Machine
      requires width in {1, 2, 4}
    {
      if address % width != 0 then Fault(address)
      else match MappedAddress(mem, address, width)
        case Mapped(region, offset) => this.(mem := mem.Write(region, offset, LowBytes(value, width)))
        case Unmapped => Fault(address)
    }

    /** lwl and lwr replace the high or the low bytes of `value`. */
    function LoadWordLeft(address: Word, value: Word): (Word, Machine) {
      var count := address % 4 + 1;
      var aligned := address - address % 4;
      match MappedAddress(mem, aligned, count)
      case Mapped(region, offset) =>
        (ReplaceBytes(value, 4 - count, mem.Bytes(region)[offset..offset + count]), this)
      case Unmapped => (value, Fault(aligned))
    }

    function LoadWordRight(address: Word, value: Word): (Word, Machine) {
      var count := 4 - address % 4;
      match MappedAddress(mem, address, count)
      case Mapped(region, offset) =>
        (ReplaceBytes(value, 0, mem.Bytes(region)[offset..offset + count]), this)
      case Unmapped => (value, Fault(address))
    }

    function StoreWordLeft(address: Word, value: Word): Machine {
      var count := address % 4 + 1;
      var aligned := address - address % 4;
      match MappedAddress(mem, aligned, count)
      case Mapped(region, offset) =>
        this.(mem := mem.Write(region, offset, LowBytes(value, 4)[4 - count..]))
      case Unmapped => Fault(aligned)
    }

    function StoreWordRight(address: Word, value: Word): Machine {
      var count := 4 - address % 4;
      match MappedAddress(mem, address, count)
      case Mapped(region, offset) =>
        this.(mem := mem.Write(region, offset, LowBytes(value, count)))
      case Unmapped => Fault(address)
    }
  }
}
