/** What guest memory promises: aliases, round trips and frames of the loads and
    stores, and the unaligned store and load pairs. */
module MemoryModel {
  import opened Words
  import opened GuestMachine

  /** First canonical address of a region. */
  function Start(mem: Memory, region: Region): nat {
    match region
    case Main => mem.base
    case Scratchpad => 0x0001_0000
    case Video => 0x0400_0000
    case Volatile => 0x0840_0000
  }

  predicate Apart(mem: Memory, region: Region) {
    mem.base + |mem.main| <= Start(mem, region) || Start(mem, region) + |mem.Bytes(region)| <= mem.base
  }

  /** Main memory lies inside the 29 address bits and off the fixed windows. */
  predicate Layout(mem: Memory) {
    mem.base + |mem.main| <= 0x2000_0000 &&
    |mem.scratchpad| <= 0xff_0000 && |mem.video| <= 0x100_0000 && |mem.volatile| <= 0xc0_0000 &&
    Apart(mem, Scratchpad) && Apart(mem, Video) && Apart(mem, Volatile)
  }

  lemma MappedIsInWindow(mem: Memory, address: Word, width: nat)
    requires 1 <= width && Layout(mem) && MappedAddress(mem, address, width).Mapped?
    ensures var at := MappedAddress(mem, address, width);
      Canonical(address) == Start(mem, at.region) + at.offset &&
      Canonical(address) + width <= 0x2000_0000
  {
    if width <= |mem.main| - Sub(Canonical(address), mem.base) {
      assert Canonical(address) >= mem.base;
    }
  }

  lemma InWindowIsMapped(mem: Memory, address: Word, width: nat, region: Region, offset: nat)
    requires 1 <= width && Layout(mem)
    requires Canonical(address) == Start(mem, region) + offset && offset + width <= |mem.Bytes(region)|
    ensures MappedAddress(mem, address, width) == Mapped(region, offset)
  {
    var canon := Canonical(address);
    if region != Main {
      if canon < mem.base {
        assert Sub(canon, mem.base) == canon - mem.base + TWO32;
      }
    }
  }

  /** Any part of a mapped range is mapped right behind its beginning. */
  lemma PartIsMapped(mem: Memory, address: Word, width: nat, j: nat, part: nat)
    requires 1 <= part && j + part <= width && Layout(mem)
    requires MappedAddress(mem, address, width).Mapped?
    ensures address + j < TWO32
    ensures MappedAddress(mem, address + j, part)
         == var at := MappedAddress(mem, address, width); Mapped(at.region, at.offset + j)
  {
    MappedIsInWindow(mem, address, width);
    var at := MappedAddress(mem, address, width);
    assert Canonical(address + j) == Canonical(address) + j;
    InWindowIsMapped(mem, address + j, part, at.region, at.offset + j);
  }

  lemma WriteKeepsMapping(mem: Memory, region: Region, offset: nat, bytes: seq<Byte>)
    requires offset + |bytes| <= |mem.Bytes(region)|
    ensures var after := mem.Write(region, offset, bytes);
      after.base == mem.base && after.Bytes(region) == Splice(mem.Bytes(region), offset, bytes) &&
      (forall other: Region :: |after.Bytes(other)| == |mem.Bytes(other)|) &&
      (forall other: Region :: other != region ==> after.Bytes(other) == mem.Bytes(other))
    ensures forall address: Word, width: nat :: 1 <= width ==>
      MappedAddress(mem.Write(region, offset, bytes), address, width) == MappedAddress(mem, address, width)
    ensures Layout(mem) ==> Layout(mem.Write(region, offset, bytes))
  {
    hide Splice;
    assert |Splice(mem.Bytes(region), offset, bytes)| == |mem.Bytes(region)|;
  }

  /** Cached, uncached and kernel addresses of one byte are one location. */
  lemma AliasesAgree(m: Machine, a: Word, b: Word, width: nat, value: Word)
    requires Canonical(a) == Canonical(b) && width in {1, 2, 4}
    requires MappedAddress(m.mem, a, width).Mapped?
    ensures m.Load(a, width) == m.Load(b, width) || a % width != 0
    ensures m.Store(a, width, value) == m.Store(b, width, value) || a % width != 0
    ensures a % width == b % width
  {
    hide Peek, Splice, LowBytes, MappedAddress, Canonical;
    AliasAlignment(a);
    AliasAlignment(b);
    SamePlace(m.mem, a, b, width);
  }

  lemma SamePlace(mem: Memory, a: Word, b: Word, width: nat)
    requires Canonical(a) == Canonical(b) && 1 <= width
    ensures MappedAddress(mem, a, width) == MappedAddress(mem, b, width)
  {
    hide Canonical;
  }

  lemma AliasAlignment(a: Word)
    ensures a % 4 == Canonical(a) % 4 && a % 2 == Canonical(a) % 2
  {
    var q, c: int := a / 0x2000_0000, a % 0x2000_0000;
    ModOfMod(c, q, 0x800_0000, 4);
    ModOfMod(c, q, 0x1000_0000, 2);
  }

  lemma PeekLowBytes(s: seq<Byte>, offset: nat, width: nat, value: Word)
    requires width in {1, 2, 4} && offset + width <= |s|
    ensures Peek(Splice(s, offset, LowBytes(value, width)), offset, width)
         == if width == 1 then value % 0x100 else if width == 2 then value % 0x1_0000 else value
  {
    BytesRoundTrip(value);
    var t := Splice(s, offset, LowBytes(value, width));
    forall k | 0 <= k < width ensures t[offset + k] == ByteOf(value, k) {
    }
    if width == 2 {
      assert t[offset + 1] == value / 0x100 % 0x100;
    } else if width == 4 {
      assert t[offset + 1] == ByteOf(value, 1);
      assert t[offset + 2] == ByteOf(value, 2);
      assert t[offset + 3] == ByteOf(value, 3);
    }
  }

  /** A store is read back, cut to its width, and nothing faults. */
  lemma StoreThenLoad(m: Machine, address: Word, width: nat, value: Word)
    requires width in {1, 2, 4} && address % width == 0
    requires MappedAddress(m.mem, address, width).Mapped?
    ensures var after := m.Store(address, width, value);
      after == m.(mem := after.mem) &&
      after.Load(address, width) ==
        (if width == 1 then value % 0x100 else if width == 2 then value % 0x1_0000 else value, after)
  {
    hide Peek, Splice, LowBytes;
    var Mapped(region, offset) := MappedAddress(m.mem, address, width);
    WriteKeepsMapping(m.mem, region, offset, LowBytes(value, width));
    PeekLowBytes(m.mem.Bytes(region), offset, width, value);
  }

  /** A store leaves every load from other canonical bytes unchanged. */
  lemma StoreFrames(m: Machine, address: Word, width: nat, value: Word, other: Word, span: nat)
    requires width in {1, 2, 4} && span in {1, 2, 4} && Layout(m.mem)
    requires address % width == 0 && MappedAddress(m.mem, address, width).Mapped?
    requires Canonical(other) + span <= Canonical(address) || Canonical(address) + width <= Canonical(other)
    ensures m.Store(address, width, value).Load(other, span).0 == m.Load(other, span).0
  {
    hide Splice, LowBytes, Peek, MappedAddress;
    var Mapped(region, offset) := MappedAddress(m.mem, address, width);
    WriteKeepsMapping(m.mem, region, offset, LowBytes(value, width));
    MappedIsInWindow(m.mem, address, width);
    if MappedAddress(m.mem, other, span).Mapped? {
      MappedIsInWindow(m.mem, other, span);
      var there := MappedAddress(m.mem, other, span);
      if there.region == region {
        PeekFrames(m.mem.Bytes(region), offset, LowBytes(value, width), there.offset, span);
      }
    }
  }

  lemma PeekFrames(s: seq<Byte>, offset: nat, bytes: seq<Byte>, other: nat, span: nat)
    requires offset + |bytes| <= |s| && span in {1, 2, 4} && other + span <= |s|
    requires other + span <= offset || offset + |bytes| <= other
    ensures Peek(Splice(s, offset, bytes), other, span) == Peek(s, other, span)
  {
    SpliceFrames(s, offset, bytes);
  }

  lemma SpliceFrames(s: seq<Byte>, offset: nat, bytes: seq<Byte>)
    requires offset + |bytes| <= |s|
    ensures forall k :: 0 <= k < |s| && !(offset <= k < offset + |bytes|) ==> Splice(s, offset, bytes)[k] == s[k]
  {
  }

  // ----- swl with swr, lwl with lwr -----

  function StoreUnaligned(m: Machine, address: Word, value: Word): Machine
    requires address + 3 < TWO32
  {
    m.StoreWordLeft(address + 3, value).StoreWordRight(address, value)
  }

  function LoadUnaligned(m: Machine, address: Word, value: Word): (Word, Machine)
    requires address + 3 < TWO32
  {
    var (merged, next) := m.LoadWordLeft(address + 3, value);
    next.LoadWordRight(address, merged)
  }

  lemma SpliceTwice(s: seq<Byte>, offset: nat, bytes: seq<Byte>, cut: nat)
    requires cut <= |bytes| && offset + |bytes| <= |s|
    ensures Splice(Splice(s, offset + cut, bytes[cut..]), offset, bytes[..cut]) == Splice(s, offset, bytes)
  {
  }

  lemma WriteTwice(mem: Memory, region: Region, offset: nat, bytes: seq<Byte>, cut: nat)
    requires cut <= |bytes| && offset + |bytes| <= |mem.Bytes(region)|
    ensures mem.Write(region, offset + cut, bytes[cut..]).Write(region, offset, bytes[..cut])
         == mem.Write(region, offset, bytes)
  {
    SpliceTwice(mem.Bytes(region), offset, bytes, cut);
  }

  /** swl and lwl at address + 3 start at the next word boundary. */
  lemma NextBoundary(address: Word)
    requires address + 3 < TWO32
    ensures var high := address + 3; var k := address % 4;
      high - high % 4 == (if k == 0 then address else address + 4 - k) &&
      high % 4 + 1 == (if k == 0 then 4 else k)
  {
    var q := address / 4;
    assert address == 4 * q + address % 4;
  }

  lemma LeftWrites(m: Machine, address: Word, value: Word)
    requires Layout(m.mem) && MappedAddress(m.mem, address, 4).Mapped? && address + 3 < TWO32
    ensures var Mapped(region, offset) := MappedAddress(m.mem, address, 4);
      var cut := if address % 4 == 0 then 0 else 4 - address % 4;
      m.StoreWordLeft(address + 3, value) == m.(mem := m.mem.Write(region, offset + cut, LowBytes(value, 4)[cut..]))
  {
    hide MappedAddress, Splice, LowBytes, Layout;
    var k := address % 4;
    NextBoundary(address);
    if k != 0 {
      PartIsMapped(m.mem, address, 4, 4 - k, k);
    }
  }

  lemma RightWrites(m: Machine, address: Word, value: Word)
    requires Layout(m.mem) && MappedAddress(m.mem, address, 4).Mapped?
    ensures var Mapped(region, offset) := MappedAddress(m.mem, address, 4);
      m.StoreWordRight(address, value) == m.(mem := m.mem.Write(region, offset, LowBytes(value, 4)[..4 - address % 4]))
  {
    hide MappedAddress, Splice, Layout;
    var count := 4 - address % 4;
    PartIsMapped(m.mem, address, 4, 0, count);
    assert LowBytes(value, count) == LowBytes(value, 4)[..count];
  }

  /** Storing an unaligned word writes exactly its four bytes. */
  lemma StoreUnalignedWrites(m: Machine, address: Word, value: Word)
    requires Layout(m.mem) && MappedAddress(m.mem, address, 4).Mapped?
    ensures address + 3 < TWO32
    ensures var Mapped(region, offset) := MappedAddress(m.mem, address, 4);
      StoreUnaligned(m, address, value) == m.(mem := m.mem.Write(region, offset, LowBytes(value, 4)))
  {
    hide MappedAddress, Splice, LowBytes, Layout, Memory.Write, Machine.StoreWordLeft, Machine.StoreWordRight;
    var Mapped(region, offset) := MappedAddress(m.mem, address, 4);
    var bytes := LowBytes(value, 4);
    var cut := if address % 4 == 0 then 0 else 4 - address % 4;
    PartIsMapped(m.mem, address, 4, 3, 1);
    LeftWrites(m, address, value);
    WriteKeepsMapping(m.mem, region, offset + cut, bytes[cut..]);
    RightWrites(m.StoreWordLeft(address + 3, value), address, value);
    if cut == 0 {
      assert bytes[0..] == bytes && bytes[..4] == bytes;
      WriteAgain(m.mem, region, offset, bytes);
    } else {
      WriteTwice(m.mem, region, offset, bytes, cut);
    }
  }

  lemma WriteAgain(mem: Memory, region: Region, offset: nat, bytes: seq<Byte>)
    requires offset + |bytes| <= |mem.Bytes(region)|
    ensures mem.Write(region, offset, bytes).Bytes(region) == Splice(mem.Bytes(region), offset, bytes)
    ensures mem.Write(region, offset, bytes).Write(region, offset, bytes) == mem.Write(region, offset, bytes)
  {
    assert Splice(Splice(mem.Bytes(region), offset, bytes), offset, bytes) == Splice(mem.Bytes(region), offset, bytes);
  }

  lemma ReplaceAll(value: Word, bytes: seq<Byte>, cut: nat)
    requires |bytes| == 4 && cut <= 4
    ensures ReplaceBytes(ReplaceBytes(value, cut, bytes[cut..]), 0, bytes[..cut])
         == FromBytes(bytes[0], bytes[1], bytes[2], bytes[3])
  {
    var first := Splice(LowBytes(value, 4), cut, bytes[cut..]);
    var merged := FromBytes(first[0], first[1], first[2], first[3]);
    WordRoundTrip(first[0], first[1], first[2], first[3]);
    assert LowBytes(merged, 4) == first;
    assert Splice(first, 0, bytes[..cut]) == bytes;
  }

  /** lwl followed by lwr reads the four bytes whatever the register held. */
  lemma LoadUnalignedReads(m: Machine, address: Word, value: Word)
    requires Layout(m.mem) && MappedAddress(m.mem, address, 4).Mapped?
    ensures address + 3 < TWO32
    ensures var Mapped(region, offset) := MappedAddress(m.mem, address, 4);
      LoadUnaligned(m, address, value) == (Peek(m.mem.Bytes(region), offset, 4), m)
  {
    hide MappedAddress, Splice, ReplaceBytes;
    var Mapped(region, offset) := MappedAddress(m.mem, address, 4);
    var bytes := m.mem.Bytes(region)[offset..offset + 4];
    var k := address % 4;
    PartIsMapped(m.mem, address, 4, 3, 1);
    NextBoundary(address);
    if k == 0 {
      assert bytes[0..] == bytes && bytes[..4] == bytes;
      ReplaceWhole(value, bytes);
      ReplaceWhole(ReplaceBytes(value, 0, bytes), bytes);
    } else {
      var cut := 4 - k;
      PartIsMapped(m.mem, address, 4, cut, k);
      PartIsMapped(m.mem, address, 4, 0, cut);
      assert m.mem.Bytes(region)[offset + cut..offset + 4] == bytes[cut..];
      assert m.mem.Bytes(region)[offset..offset + cut] == bytes[..cut];
      ReplaceAll(value, bytes, cut);
      assert m.LoadWordLeft(address + 3, value) == (ReplaceBytes(value, cut, bytes[cut..]), m);
    }
  }

  lemma ReplaceWhole(value: Word, bytes: seq<Byte>)
    requires |bytes| == 4
    ensures ReplaceBytes(value, 0, bytes) == FromBytes(bytes[0], bytes[1], bytes[2], bytes[3])
  {
    assert Splice(LowBytes(value, 4), 0, bytes) == bytes;
  }

  /** At any mapped address, aligned or not, the pair of stores and the pair of
      loads are inverse. */
  lemma UnalignedRoundTrip(m: Machine, address: Word, value: Word, before: Word)
    requires Layout(m.mem) && MappedAddress(m.mem, address, 4).Mapped?
    ensures address + 3 < TWO32
    ensures var after := StoreUnaligned(m, address, value);
      LoadUnaligned(after, address, before) == (value, after)
  {
    hide MappedAddress, Splice, Peek, StoreUnaligned, LoadUnaligned;
    StoreUnalignedWrites(m, address, value);
    var Mapped(region, offset) := MappedAddress(m.mem, address, 4);
    WriteKeepsMapping(m.mem, region, offset, LowBytes(value, 4));
    LoadUnalignedReads(StoreUnaligned(m, address, value), address, before);
    PeekLowBytes(m.mem.Bytes(region), offset, 4, value);
  }
}
