/** The byte loops that a big-endian host runs instead of memcpy: on mapped bytes
    they do the same. */
module ByteLoops {
  import opened Words
  import opened GuestMachine
  import opened MemoryModel

  // ----- masking one byte -----

  lemma {:induction false} SplitBits(op: BitOp, n: nat, m: nat, p: nat, a: nat, b: nat, c: nat, d: nat)
    requires p == Pow2(n) && a < p && c < p
    ensures Bitwise(op, n + m, a + p * b, c + p * d) == Bitwise(op, n, a, c) + p * Bitwise(op, m, b, d)
    decreases n
  {
    hide Bitwise, OneBit, Pow2;
    if n > 0 {
      var q := Pow2(n - 1);
      PowStep(n);
      assert p * b == 2 * q * b && p * d == 2 * q * d;
      EvenPart(a, q, b);
      EvenPart(c, q, d);
      SplitBits(op, n - 1, m, q, a / 2, b, c / 2, d);
      Doubled(q, Bitwise(op, n - 1, a / 2, c / 2), Bitwise(op, m, b, d));
      FirstBit(op, n + m, a + 2 * q * b, c + 2 * q * d);
      FirstBit(op, n, a, c);
    } else {
      PowStep(0);
      NoBit(op, a, c);
    }
  }

  lemma PowStep(n: nat)
    ensures Pow2(n) == if n == 0 then 1 else 2 * Pow2(n - 1)
  {
  }

  lemma FirstBit(op: BitOp, n: nat, a: nat, b: nat)
    requires n > 0
    ensures Bitwise(op, n, a, b) == OneBit(op, a % 2, b % 2) + 2 * Bitwise(op, n - 1, a / 2, b / 2)
  {
  }

  lemma NoBit(op: BitOp, a: nat, b: nat)
    ensures Bitwise(op, 0, a, b) == 0
  {
  }

  lemma EvenPart(a: int, p: int, b: int)
    ensures (a + 2 * p * b) % 2 == a % 2 && (a + 2 * p * b) / 2 == a / 2 + p * b
  {
    assert a + 2 * p * b == a + 2 * (p * b);
  }

  lemma Doubled(p: int, x: int, y: int)
    ensures 2 * (x + p * y) == 2 * x + 2 * p * y
  {
  }

  lemma {:induction false} OnesAndZeros(n: nat, v: nat)
    requires v < Pow2(n)
    ensures Bitwise(AND, n, v, Pow2(n) - 1) == v && Bitwise(AND, n, v, 0) == 0
    ensures Bitwise(OR, n, v, 0) == v && Bitwise(OR, n, 0, v) == v
    decreases n
  {
    if n > 0 {
      OnesAndZeros(n - 1, v / 2);
      assert (Pow2(n) - 1) / 2 == Pow2(n - 1) - 1;
    }
  }

  /** Clearing eight bits above `n` and setting them to a byte. */
  lemma MaskedByte(n: nat, m: nat, p: nat, h: nat, low: nat, mid: Byte, high: nat, byte: Byte)
    requires p == Pow2(n) && h == Pow2(m) && low < p && high < h && n + 8 + m == 32
    ensures Bitwise(AND, 32, low + p * (mid + 0x100 * high), (p - 1) + p * (0x100 * (h - 1))) == low + p * (0x100 * high)
    ensures Bitwise(OR, 32, low + p * (0x100 * high), p * byte) == low + p * (byte + 0x100 * high)
  {
    hide Pow2, Bitwise;
    ClearByte(m, h, mid, high);
    SplitBits(AND, n, 8 + m, p, low, mid + 0x100 * high, p - 1, 0x100 * (h - 1));
    OnesAndZeros(n, low);
    SetByte(m, h, high, byte);
    SplitBits(OR, n, 8 + m, p, low, 0x100 * high, 0, byte);
  }

  lemma ClearByte(m: nat, h: nat, mid: Byte, high: nat)
    requires h == Pow2(m) && high < h
    ensures Bitwise(AND, 8 + m, mid + 0x100 * high, 0x100 * (h - 1)) == 0x100 * high
  {
    hide Pow2, Bitwise;
    EightBits();
    SplitBits(AND, 8, m, 0x100, mid, high, 0, h - 1);
    OnesAndZeros(8, mid);
    OnesAndZeros(m, high);
  }

  lemma SetByte(m: nat, h: nat, high: nat, byte: Byte)
    requires h == Pow2(m) && high < h
    ensures Bitwise(OR, 8 + m, 0x100 * high, byte) == byte + 0x100 * high
  {
    hide Pow2, Bitwise;
    EightBits();
    SplitBits(OR, 8, m, 0x100, 0, high, byte, 0);
    OnesAndZeros(8, byte);
    OnesAndZeros(m, high);
  }

  lemma EightBits()
    ensures Pow2(8) == 0x100
  {
  }

  lemma Powers()
    ensures Pow2(0) == 1 && Pow2(8) == 0x100 && Pow2(16) == 0x1_0000 && Pow2(24) == 0x100_0000
  {
    assert Pow2(8) == 0x100;
    assert Pow2(16) == 0x1_0000;
  }

  lemma {:induction false} ShiftedLeft(a: nat, n: nat)
    requires a * Pow2(n) < TWO32 && a < TWO32
    ensures ShiftLeft(a, n) == a * Pow2(n)
    decreases n
  {
    if n > 0 {
      Regroup(a, Pow2(n - 1));
      RemainderOf(a * 2, TWO32, 0, a * 2);
      ShiftedLeft(a * 2, n - 1);
    }
  }

  lemma Regroup(a: nat, p: nat)
    requires p >= 1
    ensures a * (2 * p) == (a * 2) * p && a * 2 <= (a * 2) * p
  {
  }

  lemma {:induction false} ShiftedRight(a: Word, n: nat)
    ensures ShiftRight(a, n) == a / Pow2(n)
    decreases n
  {
    if n > 0 {
      ShiftedRight(a / 2, n - 1);
      HalfQuotient(a, Pow2(n - 1));
    }
  }

  lemma HalfQuotient(a: int, p: int)
    requires 0 <= a && 0 < p
    ensures a / 2 / p == a / (2 * p)
  {
    var q, r: int := a / 2 / p, a / 2 % p;
    assert a == (2 * p) * q + (2 * r + a % 2);
    QuotientOf(a, 2 * p, q, 2 * r + a % 2);
  }

  lemma QuotientOf(v: int, d: int, q: int, r: int)
    requires v == d * q + r && 0 <= r < d
    ensures v / d == q
  {
    RemainderOf(v, d, q, r);
    MultipleIsFar(d, v / d - q);
    assert d * (v / d - q) == 0;
  }

  /** The C expression for one byte of the merged word. */
  function WithByte(value: Word, shift: nat, byte: Byte): Word
    requires shift <= 24
  {
    Or(And(value, Complement(ShiftLeft(0xff, shift))), ShiftLeft(byte, shift))
  }

  lemma WithByteReplaces(value: Word, k: nat, byte: Byte)
    requires k < 4
    ensures WithByte(value, 8 * k, byte) == ReplaceBytes(value, k, [byte])
  {
    hide And, Or, Pow2, ShiftLeft, ByteOf;
    Powers();
    ShiftedLeft(0xff, 8 * k);
    ShiftedLeft(byte, 8 * k);
    BytesRoundTrip(value);
    var b0, b1, b2, b3: int := ByteOf(value, 0), ByteOf(value, 1), ByteOf(value, 2), ByteOf(value, 3);
    BytewiseReplace(value, k, byte);
    if k == 0 {
      MergesByte0(value, b0, b1, b2, b3, byte);
    } else if k == 1 {
      MergesByte1(value, b0, b1, b2, b3, byte);
    } else if k == 2 {
      MergesByte2(value, b0, b1, b2, b3, byte);
    } else {
      MergesByte3(value, b0, b1, b2, b3, byte);
    }
  }

  lemma MergesByte0(value: Word, b0: Byte, b1: Byte, b2: Byte, b3: Byte, byte: Byte)
    requires value == FromBytes(b0, b1, b2, b3)
    ensures Or(And(value, 0xffff_ff00), byte) == value - b0 + byte
  {
    hide And, Or, Bitwise, Pow2;
    Powers();
    MaskedByte(0, 24, 1, 0x100_0000, 0, b0, b1 + 0x100 * b2 + 0x1_0000 * b3, byte);
    Combined(value, 0xffff_ff00, value - b0, byte, value - b0 + byte);
  }

  lemma MergesByte1(value: Word, b0: Byte, b1: Byte, b2: Byte, b3: Byte, byte: Byte)
    requires value == FromBytes(b0, b1, b2, b3)
    ensures Or(And(value, 0xffff_00ff), 0x100 * byte) == value - 0x100 * b1 + 0x100 * byte
  {
    hide And, Or, Bitwise, Pow2;
    Powers();
    MaskedByte(8, 16, 0x100, 0x1_0000, b0, b1, b2 + 0x100 * b3, byte);
    Combined(value, 0xffff_00ff, value - 0x100 * b1, 0x100 * byte, value - 0x100 * b1 + 0x100 * byte);
  }

  lemma MergesByte2(value: Word, b0: Byte, b1: Byte, b2: Byte, b3: Byte, byte: Byte)
    requires value == FromBytes(b0, b1, b2, b3)
    ensures Or(And(value, 0xff00_ffff), 0x1_0000 * byte) == value - 0x1_0000 * b2 + 0x1_0000 * byte
  {
    hide And, Or, Bitwise, Pow2;
    Powers();
    MaskedByte(16, 8, 0x1_0000, 0x100, b0 + 0x100 * b1, b2, b3, byte);
    Combined(value, 0xff00_ffff, value - 0x1_0000 * b2, 0x1_0000 * byte, value - 0x1_0000 * b2 + 0x1_0000 * byte);
  }

  lemma MergesByte3(value: Word, b0: Byte, b1: Byte, b2: Byte, b3: Byte, byte: Byte)
    requires value == FromBytes(b0, b1, b2, b3)
    ensures Or(And(value, 0x00ff_ffff), 0x100_0000 * byte) == value - 0x100_0000 * b3 + 0x100_0000 * byte
  {
    hide And, Or, Bitwise, Pow2;
    Powers();
    MaskedByte(24, 0, 0x100_0000, 1, b0 + 0x100 * b1 + 0x1_0000 * b2, b3, 0, byte);
    Combined(value, 0x00ff_ffff, value - 0x100_0000 * b3, 0x100_0000 * byte, value - 0x100_0000 * b3 + 0x100_0000 * byte);
  }

  lemma Combined(value: Word, mask: Word, cleared: Word, placed: Word, merged: Word)
    requires Bitwise(AND, 32, value, mask) == cleared && Bitwise(OR, 32, cleared, placed) == merged
    ensures Or(And(value, mask), placed) == merged
  {
    hide Bitwise;
    AsAnd(value, mask);
    AsOr(cleared, placed);
  }

  lemma AsAnd(a: Word, b: Word)
    ensures And(a, b) == Bitwise(AND, 32, a, b)
  {
    hide Bitwise;
  }

  lemma AsOr(a: Word, b: Word)
    ensures Or(a, b) == Bitwise(OR, 32, a, b)
  {
    hide Bitwise;
  }

  lemma BytewiseReplace(value: Word, k: nat, byte: Byte)
    requires k < 4
    ensures ReplaceBytes(value, k, [byte])
         == FromBytes(if k == 0 then byte else ByteOf(value, 0), if k == 1 then byte else ByteOf(value, 1),
                      if k == 2 then byte else ByteOf(value, 2), if k == 3 then byte else ByteOf(value, 3))
  {
    hide ByteOf, FromBytes;
  }

  // ----- loads -----

  lemma ReplaceNothing(value: Word, start: nat)
    requires start <= 4
    ensures ReplaceBytes(value, start, []) == value
  {
    hide ByteOf, FromBytes;
    BytesRoundTrip(value);
    assert Splice(LowBytes(value, 4), start, []) == LowBytes(value, 4);
  }

  lemma ReplaceOneMore(value: Word, start: nat, bytes: seq<Byte>, byte: Byte)
    requires start + |bytes| + 1 <= 4
    ensures ReplaceBytes(ReplaceBytes(value, start, bytes), start + |bytes|, [byte]) == ReplaceBytes(value, start, bytes + [byte])
  {
    hide ByteOf, FromBytes;
    var first := Splice(LowBytes(value, 4), start, bytes);
    WordRoundTrip(first[0], first[1], first[2], first[3]);
    assert LowBytes(ReplaceBytes(value, start, bytes), 4) == first;
    assert Splice(first, start + |bytes|, [byte]) == Splice(LowBytes(value, 4), start, bytes + [byte]);
  }

  lemma LoadsByte(m: Machine, address: Word, width: nat, i: nat)
    requires Layout(m.mem) && i < width && MappedAddress(m.mem, address, width).Mapped?
    ensures address + i < TWO32
    ensures var Mapped(region, offset) := MappedAddress(m.mem, address, width);
      m.Load(address + i, 1) == (m.mem.Bytes(region)[offset + i], m)
  {
    hide Layout, MappedAddress;
    PartIsMapped(m.mem, address, width, i, 1);
  }

  /** One byte after another into the register, from byte `start` of it on. */
  method LoadBytes(m: Machine, address: Word, count: nat, start: nat, value: Word) returns (merged: Word)
    requires Layout(m.mem) && 1 <= count && start + count <= 4 && MappedAddress(m.mem, address, count).Mapped?
    ensures var Mapped(region, offset) := MappedAddress(m.mem, address, count);
      merged == ReplaceBytes(value, start, m.mem.Bytes(region)[offset..offset + count])
  {
    hide Layout, MappedAddress, ReplaceBytes, WithByte, Machine.Load;
    ghost var Mapped(region, offset) := MappedAddress(m.mem, address, count);
    ghost var bytes := m.mem.Bytes(region)[offset..offset + count];
    merged := value;
    ReplaceNothing(value, start);
    assert bytes[..0] == [];
    for i := 0 to count
      invariant merged == ReplaceBytes(value, start, bytes[..i])
    {
      LoadsByte(m, address, count, i);
      var byte := m.Load(address + i, 1).0;
      WithByteReplaces(merged, start + i, byte);
      ReplaceOneMore(value, start, bytes[..i], byte);
      assert bytes[..i + 1] == bytes[..i] + [byte];
      merged := WithByte(merged, 8 * (start + i), byte);
    }
    assert bytes[..count] == bytes;
  }

  /** lwl and lwr by bytes. */
  method LoadWordLeftByBytes(m: Machine, address: Word, value: Word) returns (merged: Word)
    requires Layout(m.mem) && MappedAddress(m.mem, address - address % 4, address % 4 + 1).Mapped?
    ensures (merged, m) == m.LoadWordLeft(address, value)
  {
    hide MappedAddress, Layout;
    merged := LoadBytes(m, address - address % 4, address % 4 + 1, 3 - address % 4, value);
  }

  method LoadWordRightByBytes(m: Machine, address: Word, value: Word) returns (merged: Word)
    requires Layout(m.mem) && MappedAddress(m.mem, address, 4 - address % 4).Mapped?
    ensures (merged, m) == m.LoadWordRight(address, value)
  {
    hide MappedAddress, Layout;
    merged := LoadBytes(m, address, 4 - address % 4, 0, value);
  }

  // ----- stores -----

  lemma ShiftedByte(value: Word, k: nat)
    requires k < 4
    ensures ShiftRight(value, 8 * k) % 0x100 == ByteOf(value, k)
  {
    Powers();
    ShiftedRight(value, 8 * k);
    TopByte(value);
  }

  lemma LowByteAt(value: Word, k: nat)
    requires k < 4
    ensures LowBytes(value, 4)[k] == ByteOf(value, k)
  {
    hide ByteOf;
  }

  lemma TopByte(value: int)
    requires 0 <= value < TWO32
    ensures value / 0x1_0000 == value / 0x100 / 0x100
    ensures value / 0x100_0000 == value / 0x100 / 0x100 / 0x100 < 0x100
  {
  }

  lemma WriteOneMore(mem: Memory, region: Region, offset: nat, bytes: seq<Byte>, byte: Byte)
    requires offset + |bytes| + 1 <= |mem.Bytes(region)|
    ensures mem.Write(region, offset, bytes).Bytes(region) == Splice(mem.Bytes(region), offset, bytes)
    ensures mem.Write(region, offset, bytes).Write(region, offset + |bytes|, [byte])
         == mem.Write(region, offset, bytes + [byte])
    ensures mem.Write(region, offset, []) == mem
  {
    var s := mem.Bytes(region);
    assert Splice(Splice(s, offset, bytes), offset + |bytes|, [byte]) == Splice(s, offset, bytes + [byte]);
    assert Splice(s, offset, []) == s;
  }

  lemma StoresByte(m: Machine, address: Word, width: nat, i: nat, value: Word)
    requires Layout(m.mem) && i < width && MappedAddress(m.mem, address, width).Mapped? && value < 0x100
    ensures address + i < TWO32
    ensures var Mapped(region, offset) := MappedAddress(m.mem, address, width);
      m.Store(address + i, 1, value) == m.(mem := m.mem.Write(region, offset + i, [value]))
  {
    hide Layout, MappedAddress, Splice;
    PartIsMapped(m.mem, address, width, i, 1);
    assert LowBytes(value, 1) == [value];
  }

  /** One byte after another out of the register, from byte `start` of it on. */
  method StoreBytes(m: Machine, address: Word, count: nat, start: nat, value: Word) returns (after: Machine)
    requires Layout(m.mem) && 1 <= count && start + count <= 4 && MappedAddress(m.mem, address, count).Mapped?
    ensures var Mapped(region, offset) := MappedAddress(m.mem, address, count);
      after == m.(mem := m.mem.Write(region, offset, LowBytes(value, 4)[start..start + count]))
  {
    hide Layout, MappedAddress, Splice, ByteOf, Machine.Store, Memory.Write;
    ghost var Mapped(region, offset) := MappedAddress(m.mem, address, count);
    ghost var bytes := LowBytes(value, 4)[start..start + count];
    after := m;
    WriteOneMore(m.mem, region, offset, [], 0);
    assert bytes[..0] == [];
    for i := 0 to count
      invariant after == m.(mem := m.mem.Write(region, offset, bytes[..i]))
    {
      var byte := ShiftRight(value, 8 * (start + i)) % 0x100;
      ShiftedByte(value, start + i);
      LowByteAt(value, start + i);
      WriteKeepsMapping(m.mem, region, offset, bytes[..i]);
      StoresByte(after, address, count, i, byte);
      WriteOneMore(m.mem, region, offset, bytes[..i], byte);
      assert bytes[..i + 1] == bytes[..i] + [byte];
      after := after.Store(address + i, 1, byte);
    }
    assert bytes[..count] == bytes;
  }

  /** swl and swr by bytes. */
  method StoreWordLeftByBytes(m: Machine, address: Word, value: Word) returns (after: Machine)
    requires Layout(m.mem) && MappedAddress(m.mem, address - address % 4, address % 4 + 1).Mapped?
    ensures after == m.StoreWordLeft(address, value)
  {
    hide MappedAddress, Layout, Splice, ByteOf;
    after := StoreBytes(m, address - address % 4, address % 4 + 1, 3 - address % 4, value);
    var bytes := LowBytes(value, 4);
    assert bytes[3 - address % 4..3 - address % 4 + (address % 4 + 1)] == bytes[3 - address % 4..];
  }

  method StoreWordRightByBytes(m: Machine, address: Word, value: Word) returns (after: Machine)
    requires Layout(m.mem) && MappedAddress(m.mem, address, 4 - address % 4).Mapped?
    ensures after == m.StoreWordRight(address, value)
  {
    hide MappedAddress, Layout, Splice, ByteOf;
    after := StoreBytes(m, address, 4 - address % 4, 0, value);
    assert LowBytes(value, 4 - address % 4) == LowBytes(value, 4)[0..0 + (4 - address % 4)];
  }
}
