/** Aligned accesses on a big-endian host (include/psprecomp/runtime.hpp): memcpy
    in host order and a byte swap read and write the little-endian words. */
module EndianSwaps {
  import opened Words
  import opened GuestMachine
  import opened ByteLoops

  // ----- byte_swap and byte_swap16 -----

  /** The masks, shifts and ors of byte_swap. */
  function SwapWord(value: Word): Word {
    Or(Or(Or(ShiftLeft(And(value, 0x0000_00ff), 24), ShiftLeft(And(value, 0x0000_ff00), 8)),
          ShiftRight(And(value, 0x00ff_0000), 8)),
       ShiftRight(And(value, 0xff00_0000), 24))
  }

  /** byte_swap16, cut to 16 bits. */
  function SwapHalf(value: Word): Word
    requires value < 0x1_0000
  {
    Or(ShiftRight(value, 8), ShiftLeft(value, 8)) % 0x1_0000
  }

  /** Masking one byte, whatever lies below and above it. */
  lemma OneByte(n: nat, m: nat, p: nat, low: nat, mid: Byte, high: nat)
    requires p == Pow2(n) && low < p && high < Pow2(m) && n + 8 + m == 32
    ensures Bitwise(AND, 32, low + p * (mid + 0x100 * high), p * 0xff) == p * mid
  {
    hide Pow2, Bitwise;
    EightBits();
    SplitBits(AND, n, 8 + m, p, low, mid + 0x100 * high, 0, 0xff);
    OnesAndZeros(n, low);
    SplitBits(AND, 8, m, 0x100, mid, high, 0xff, 0);
    OnesAndZeros(8, mid);
    OnesAndZeros(m, high);
  }

  lemma MaskedBytes(b0: Byte, b1: Byte, b2: Byte, b3: Byte)
    ensures var value := FromBytes(b0, b1, b2, b3);
      And(value, 0x0000_00ff) == b0 && And(value, 0x0000_ff00) == 0x100 * b1 &&
      And(value, 0x00ff_0000) == 0x1_0000 * b2 && And(value, 0xff00_0000) == 0x100_0000 * b3
  {
    hide And, Bitwise, Pow2;
    Powers();
    var value := FromBytes(b0, b1, b2, b3);
    OneByte(0, 24, 1, 0, b0, b1 + 0x100 * b2 + 0x1_0000 * b3);
    OneByte(8, 16, 0x100, b0, b1, b2 + 0x100 * b3);
    OneByte(16, 8, 0x1_0000, b0 + 0x100 * b1, b2, b3);
    OneByte(24, 0, 0x100_0000, b0 + 0x100 * b1 + 0x1_0000 * b2, b3, 0);
    AsAnd(value, 0x0000_00ff);
    AsAnd(value, 0x0000_ff00);
    AsAnd(value, 0x00ff_0000);
    AsAnd(value, 0xff00_0000);
  }

  lemma JoinedBits(n: nat, m: nat, p: nat, high: nat, low: nat)
    requires p == Pow2(n) && low < p && high < Pow2(m) && n + m == 32
    ensures Bitwise(OR, 32, 0 + p * high, low + p * 0) == low + p * high
    ensures Bitwise(OR, 32, low + p * 0, 0 + p * high) == low + p * high
  {
    hide Bitwise, Pow2;
    SplitBits(OR, n, m, p, 0, high, low, 0);
    SplitBits(OR, n, m, p, low, 0, 0, high);
    OnesAndZeros(n, low);
    OnesAndZeros(m, high);
  }

  /** Or of a high and a low part that share no bit; `top` is the high part in
      its place. */
  lemma Joined(n: nat, m: nat, p: nat, high: nat, low: nat, top: Word)
    requires p == Pow2(n) && low < p && high < Pow2(m) && n + m == 32 && top == p * high && low + top < TWO32
    ensures Or(top, low) == low + top && Or(low, top) == low + top
  {
    hide Or, Bitwise, Pow2;
    JoinedBits(n, m, p, high, low);
    TimesZero(p);
    AsOr(top, low);
    AsOr(low, top);
  }

  lemma TimesZero(p: int)
    ensures p * 0 == 0
  {
  }

  /** byte_swap reverses the four bytes. */
  lemma SwapWordReverses(b0: Byte, b1: Byte, b2: Byte, b3: Byte)
    ensures SwapWord(FromBytes(b0, b1, b2, b3)) == FromBytes(b3, b2, b1, b0)
  {
    hide And, Or, Pow2, ShiftLeft, ShiftRight;
    Powers();
    MaskedBytes(b0, b1, b2, b3);
    ShiftedLeft(b0, 24);
    ShiftedLeft(0x100 * b1, 8);
    ShiftedRight(0x1_0000 * b2, 8);
    ShiftedRight(0x100_0000 * b3, 24);
    Joined(24, 8, 0x100_0000, b0, 0x1_0000 * b1, 0x100_0000 * b0);
    Joined(16, 16, 0x1_0000, b1 + 0x100 * b0, 0x100 * b2, 0x1_0000 * (b1 + 0x100 * b0));
    Joined(8, 24, 0x100, b2 + 0x100 * b1 + 0x1_0000 * b0, b3,
           0x100 * (b2 + 0x100 * b1 + 0x1_0000 * b0));
  }

  lemma SwapHalfReverses(b0: Byte, b1: Byte)
    ensures SwapHalf(b0 + 0x100 * b1) == b1 + 0x100 * b0
  {
    hide Or, Pow2, ShiftLeft, ShiftRight;
    Powers();
    var value := b0 + 0x100 * b1;
    ShiftedRight(value, 8);
    ShiftedLeft(value, 8);
    Joined(8, 24, 0x100, value, b1, 0x100 * value);
  }

  // ----- the accesses -----

  /** memcpy into an integer of a big-endian host. */
  function HostValue(bytes: seq<Byte>, offset: nat, width: nat): Word
    requires width in {2, 4} && offset + width <= |bytes|
  {
    if width == 2 then bytes[offset + 1] + 0x100 * bytes[offset]
    else FromBytes(bytes[offset + 3], bytes[offset + 2], bytes[offset + 1], bytes[offset])
  }

  /** memcpy out of an integer of a big-endian host. */
  function HostBytes(value: Word, width: nat): (r: seq<Byte>)
    requires width in {2, 4}
    ensures |r| == width
  {
    if width == 2 then [ByteOf(value, 1), ByteOf(value, 0)]
    else [ByteOf(value, 3), ByteOf(value, 2), ByteOf(value, 1), ByteOf(value, 0)]
  }

  function Swapped(value: Word, width: nat): Word
    requires width in {2, 4}
  {
    if width == 2 then SwapHalf(value % 0x1_0000) else SwapWord(value)
  }

  /** load16 and load32 with the swap compiled in. */
  function SwappedLoad(m: Machine, address: Word, width: nat): (Word, Machine)
    requires width in {2, 4}
  {
    if address % width != 0 then (0, m.Fault(address))
    else match MappedAddress(m.mem, address, width)
      case Mapped(region, offset) => (Swapped(HostValue(m.mem.Bytes(region), offset, width), width), m)
      case Unmapped => (0, m.Fault(address))
  }

  /** store16 and store32 with the swap compiled in. */
  function SwappedStore(m: Machine, address: Word, width: nat, value: Word): Machine
    requires width in {2, 4}
  {
    if address % width != 0 then m.Fault(address)
    else match MappedAddress(m.mem, address, width)
      case Mapped(region, offset) => m.(mem := m.mem.Write(region, offset, HostBytes(Swapped(value, width), width)))
      case Unmapped => m.Fault(address)
  }

  lemma SwappedPeek(bytes: seq<Byte>, offset: nat, width: nat)
    requires width in {2, 4} && offset + width <= |bytes|
    ensures Swapped(HostValue(bytes, offset, width), width) == Peek(bytes, offset, width)
  {
    hide SwapWord, SwapHalf, FromBytes;
    if width == 2 {
      SwapHalfReverses(bytes[offset + 1], bytes[offset]);
    } else {
      SwapWordReverses(bytes[offset + 3], bytes[offset + 2], bytes[offset + 1], bytes[offset]);
    }
  }

  lemma SwappedBytes(value: Word, width: nat)
    requires width in {2, 4}
    ensures HostBytes(Swapped(value, width), width) == LowBytes(value, width)
  {
    hide SwapWord, SwapHalf;
    var b0, b1, b2, b3 := ByteOf(value, 0), ByteOf(value, 1), ByteOf(value, 2), ByteOf(value, 3);
    var low, high: int := b0, b1;
    if width == 2 {
      SwapHalfReverses(b0, b1);
      assert value % 0x1_0000 == low + 0x100 * high;
    } else {
      BytesRoundTrip(value);
      SwapWordReverses(b0, b1, b2, b3);
      WordRoundTrip(b3, b2, b1, b0);
    }
  }

  /** On a big-endian host the swapping accesses do to the machine what the
      little-endian ones do, faults included. */
  lemma SwappedAccessesAgree(m: Machine, address: Word, width: nat, value: Word)
    requires width in {2, 4}
    ensures SwappedLoad(m, address, width) == m.Load(address, width)
    ensures SwappedStore(m, address, width, value) == m.Store(address, width, value)
  {
    hide Swapped, HostValue, HostBytes, Peek, LowBytes, MappedAddress, Memory.Write;
    var location := MappedAddress(m.mem, address, width);
    if location.Mapped? {
      SwappedPeek(m.mem.Bytes(location.region), location.offset, width);
      SwappedBytes(value, width);
    }
  }
}
