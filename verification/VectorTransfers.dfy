/** Vector loads and stores whose word relocation has changed.  Generated code
    passes execute_vfpu (include/psprecomp/vfpu.hpp) the word that was
    translated, the interpreter the word it fetches. */
module VectorTransfers {
  import opened Words
  import opened GuestMachine
  import opened Vfpu
  import opened Decoder

  predicate IsTransfer(word: Word) {
    Op(word) in {0x32, 0x35, 0x36, 0x3a, 0x3d, 0x3e}
  }

  /** The unit does the same with both words: they agree on every bit that the
      transfer reads.  Whole-vector transfers do not read bit 1.  Partial ones
      whose displacement, from register 0, fixes one lane on the diagonal of its
      matrix find the same register in row and column. */
  predicate ReadsAlike(word: Word, fetched: Word) {
    fetched == word ||
    (Op(word) in {0x36, 0x3e} && fetched / 4 == word / 4 && fetched % 2 == word % 2) ||
    (Op(word) in {0x35, 0x3d} && fetched / 2 == word / 2 && Rs(word) == 0 && OnDiagonal(word))
  }

  predicate OnDiagonal(word: Word) {
    if word / 2 % 2 == 0 then word / 4 % 4 == 0 && Column(word) == 3
    else word / 4 % 4 == 3 && Column(word) == 0
  }

  function Column(word: Word): (c: nat)
    ensures c < 4
  {
    word / 0x1_0000 % 4
  }

  /** The vector register of a quad transfer, and the register of a lane of it. */
  function Quad(word: Word): Word {
    word / 0x1_0000 % 32 + 32 * (word % 2)
  }

  function Cell(word: Word, lane: nat): (r: nat)
    requires lane < 4
    ensures r < 128
  {
    VectorIndex(Quad(word), 4, lane)
  }

  lemma CellShape(word: Word, lane: nat)
    requires lane < 4
    ensures Cell(word, lane)
         == word / 0x4_0000 % 8 * 4 + if word % 2 == 0 then Column(word) + 32 * lane else lane + 32 * Column(word)
  {
    var top: int := word / 0x1_0000;
    QuadParts(top % 32, word % 2);
    LowFive(top);
    assert word / 0x4_0000 == top / 4;
    LaneInRow(Quad(word), lane);
  }

  lemma QuadParts(low: int, bit: int)
    requires 0 <= low < 32 && 0 <= bit < 2
    ensures var q := low + 32 * bit;
      q / 4 % 8 == low / 4 && q % 4 == low % 4 && q / 32 % 2 == bit && q / 64 % 2 == 0
  {
  }

  lemma LowFive(top: int)
    ensures top % 32 / 4 == top / 4 % 8 && top % 32 % 4 == top % 4
  {
    assert top == 32 * (top / 32) + top % 32;
  }

  lemma LaneInRow(reg: Word, lane: nat)
    requires lane < 4 && reg / 64 % 2 == 0
    ensures VectorIndex(reg, 4, lane)
         == if reg / 32 % 2 != 0 then reg / 4 % 8 * 4 + lane + reg % 4 * 32 else reg / 4 % 8 * 4 + reg % 4 + lane * 32
  {
  }

  // ----- what the words have in common -----

  lemma SameFields(word: Word, fetched: Word)
    requires word / 0x1_0000 == fetched / 0x1_0000
    ensures Op(word) == Op(fetched) && Rs(word) == Rs(fetched) && Rt(word) == Rt(fetched) && Column(word) == Column(fetched)
  {
    assert word / 0x400_0000 == word / 0x1_0000 / 0x400 && fetched / 0x400_0000 == fetched / 0x1_0000 / 0x400;
    assert word / 0x20_0000 == word / 0x1_0000 / 0x20 && fetched / 0x20_0000 == fetched / 0x1_0000 / 0x20;
  }

  // ----- a machine that sees no memory -----

  predicate Blind(m: Machine) {
    m.mem.main == [] && m.mem.scratchpad == [] && m.mem.video == [] && m.mem.volatile == []
  }

  /** Everything but registers, control and memory may have changed. */
  predicate SameBanks(m: Machine, next: Machine) {
    next.gpr == m.gpr && next.vfpu == m.vfpu && next.vfpuCtrl == m.vfpuCtrl && next.mem == m.mem
  }

  lemma BlindAccess(m: Machine, address: Word, value: Word)
    requires Blind(m)
    ensures m.Load(address, 4).0 == 0 && m.Load(address, 4).1 == m.Fault(address)
    ensures m.Store(address, 4, value) == m.Fault(address)
  {
    hide Peek, LowBytes;
    assert MappedAddress(m.mem, address, 4).Unmapped?;
  }

  lemma {:induction false} BlindLoads(m: Machine, address: Word, values: Lanes, i: nat, stop: nat)
    requires Blind(m) && i < stop <= 4
    ensures var (up, next) := LoadLanes(m, address, values, i, stop);
      SameBanks(m, next) && next.faultAddress == LaneAddress(address, stop - 1) &&
      forall l :: 0 <= l < 4 ==> up[l] == if i <= l < stop then 0 else values[l]
    ensures var (down, next) := LoadLanesDown(m, address, values, i, stop);
      SameBanks(m, next) && next.faultAddress == LaneAddress(address, 1 - stop) &&
      forall l :: 0 <= l < 4 ==> down[l] == if i <= 3 - l < stop then 0 else values[l]
    decreases stop - i
  {
    hide Machine.Load, LaneAddress;
    BlindAccess(m, LaneAddress(address, i), 0);
    BlindAccess(m, LaneAddress(address, 0 - i), 0);
    if i + 1 < stop {
      BlindLoads(m.Fault(LaneAddress(address, i)), address, values[i := 0], i + 1, stop);
      BlindLoads(m.Fault(LaneAddress(address, 0 - i)), address, values[3 - i := 0], i + 1, stop);
    }
  }

  lemma {:induction false} BlindStores(m: Machine, address: Word, values: Lanes, i: nat, stop: nat)
    requires Blind(m) && i < stop <= 4
    ensures StoreLanes(m, address, values, i, stop).faultAddress == LaneAddress(address, stop - 1)
    ensures StoreLanesDown(m, address, values, i, stop).faultAddress == LaneAddress(address, 1 - stop)
    decreases stop - i
  {
    hide Machine.Store, LaneAddress;
    BlindAccess(m, LaneAddress(address, i), values[i]);
    BlindAccess(m, LaneAddress(address, 0 - i), values[3 - i]);
    if i + 1 < stop {
      BlindStores(m.Fault(LaneAddress(address, i)), address, values, i + 1, stop);
      BlindStores(m.Fault(LaneAddress(address, 0 - i)), address, values, i + 1, stop);
    }
  }

  // ----- a machine that sees one word -----

  /** Main memory is one word. */
  predicate Peephole(m: Machine) {
    |m.mem.main| == 4 && m.mem.scratchpad == [] && m.mem.video == [] && m.mem.volatile == [] && m.mem.base < 0x2000_0000
  }

  lemma PeepholeStore(m: Machine, address: Word, value: Word)
    requires Peephole(m) && address % 4 == 0
    ensures var next := m.Store(address, 4, value);
      Peephole(next) && next.mem.base == m.mem.base &&
      next.mem.main == if Canonical(address) == m.mem.base then LowBytes(value, 4) else m.mem.main
  {
    hide LowBytes;
    var offset := Sub(Canonical(address), m.mem.base);
    if Canonical(address) == m.mem.base {
      assert offset == 0;
      assert m.mem.Write(Main, 0, LowBytes(value, 4)).main == LowBytes(value, 4);
    } else {
      assert MappedAddress(m.mem, address, 4).Unmapped?;
    }
  }

  /** Lanes lie at different places, aliases included. */
  lemma LanesApart(address: Word, i: int, k: int)
    requires -4 < i < 4 && -4 < k < 4 && i != k && -4 < i - k < 4
    ensures Canonical(LaneAddress(address, i)) != Canonical(LaneAddress(address, k))
  {
    var a, b: int := address + 4 * i, address + 4 * k;
    CanonicalWrap(a);
    CanonicalWrap(b);
    NearApart(a, b);
  }

  lemma CanonicalWrap(a: int)
    ensures a % TWO32 % 0x2000_0000 == a % 0x2000_0000
  {
    var q, r: int := a / TWO32, a % TWO32;
    assert a == q * (8 * 0x2000_0000) + r;
    ModOfMod(r, q, 8, 0x2000_0000);
  }

  lemma NearApart(a: int, b: int)
    requires a != b && -0x2000_0000 < a - b < 0x2000_0000
    ensures a % 0x2000_0000 != b % 0x2000_0000
  {
  }

  lemma LaneAligned(address: Word, i: int)
    requires address % 4 == 0
    ensures LaneAddress(address, i) % 4 == 0
  {
  }

  lemma {:induction false} PeepholeStores(m: Machine, address: Word, values: Lanes, i: nat, stop: nat, k: nat)
    requires Peephole(m) && address % 4 == 0 && i <= stop <= 4 && k < stop
    ensures m.mem.base == Canonical(LaneAddress(address, k)) ==>
      StoreLanes(m, address, values, i, stop).mem.main == if i <= k then LowBytes(values[k], 4) else m.mem.main
    ensures m.mem.base == Canonical(LaneAddress(address, 0 - k)) ==>
      StoreLanesDown(m, address, values, i, stop).mem.main == if i <= k then LowBytes(values[3 - k], 4) else m.mem.main
    decreases stop - i
  {
    hide Machine.Store, LaneAddress, Canonical, LowBytes;
    if i < stop {
      LaneAligned(address, i);
      LaneAligned(address, 0 - i);
      PeepholeStore(m, LaneAddress(address, i), values[i]);
      PeepholeStore(m, LaneAddress(address, 0 - i), values[3 - i]);
      if i != k {
        LanesApart(address, i, k);
        LanesApart(address, 0 - i, 0 - k);
      }
      PeepholeStores(m.Store(LaneAddress(address, i), 4, values[i]), address, values, i + 1, stop, k);
      PeepholeStores(m.Store(LaneAddress(address, 0 - i), 4, values[3 - i]), address, values, i + 1, stop, k);
    }
  }

  // ----- writing a quad -----

  lemma NoMask(lane: nat)
    ensures !Bit(0, lane)
  {
    ShiftedZero(lane);
  }

  lemma ShiftedZero(n: nat)
    ensures ShiftRight(0, n) == 0
  {
  }

  lemma {:induction false} WrittenLanes(m: Machine, reg: Word, values: Lanes, lane: nat, r: nat)
    requires lane <= 4 && r < 128 && reg / 64 % 2 == 0 && m.vfpuCtrl[2] == 0
    ensures var after := WriteLanes(m, reg, 4, values, lane).vfpu[r];
      (forall l: nat {:trigger values[l]} :: lane <= l < 4 && r == VectorIndex(reg, 4, l) ==> after == values[l]) &&
      ((forall l: nat :: lane <= l < 4 ==> r != VectorIndex(reg, 4, l)) ==> after == m.vfpu[r])
    decreases 4 - lane
  {
    hide VectorIndex, Bit;
    if lane < 4 {
      NoMask(8 + lane);
      var next := m.(vfpu := m.vfpu[VectorIndex(reg, 4, lane) := values[lane]]);
      WrittenLanes(next, reg, values, lane + 1, r);
      forall l: nat | lane < l < 4 ensures VectorIndex(reg, 4, l) != VectorIndex(reg, 4, lane) {
        LaneInRow(reg, l);
        LaneInRow(reg, lane);
      }
    }
  }

  // ----- what a transfer does to those machines -----

  function Single(word: Word): nat {
    Rt(word) + 32 * (word % 4)
  }

  lemma SingleIndex(word: Word)
    ensures VectorIndex(word / 0x1_0000 % 32 + 32 * (word % 4), 1, 0) == Single(word) < 128
  {
    var reg: Word := word / 0x1_0000 % 32 + 32 * (word % 4);
    assert reg / 32 % 4 == word % 4 && reg % 4 + reg / 4 % 8 * 4 == reg % 32 == word / 0x1_0000 % 32;
  }

  lemma BlindSingle(m: Machine, word: Word)
    requires Blind(m) && Op(word) in {0x32, 0x3a}
    ensures Single(word) < 128
    ensures var after := ExecuteTransfer(m, word);
      after.faultAddress == TransferAddress(m, word) &&
      (Op(word) == 0x32 ==> after.vfpu == m.vfpu[Single(word) := 0])
  {
    hide Machine.Load, Machine.Store, TransferAddress, VectorIndex;
    SingleIndex(word);
    BlindAccess(m, TransferAddress(m, word), m.vfpu[Single(word)]);
  }

  /** lv.s, where its word can be read. */
  lemma LoadSingle(m: Machine, word: Word)
    requires Op(word) == 0x32 && m.Load(TransferAddress(m, word), 4).1 == m
    ensures Single(word) < 128
    ensures ExecuteTransfer(m, word) == m.(vfpu := m.vfpu[Single(word) := m.Load(TransferAddress(m, word), 4).0])
  {
    hide Machine.Load, TransferAddress, VectorIndex;
    SingleIndex(word);
  }

  /** The lanes that a quad transfer moves at a word offset, where each lies from
      the address, and which is accessed last. */
  predicate Moved(word: Word, offset: nat, lane: nat) {
    Op(word) in {0x36, 0x3e} || (if word / 2 % 2 == 0 then lane + offset >= 3 else lane + offset <= 3)
  }

  function PlaceOf(word: Word, lane: nat): int {
    if Op(word) in {0x35, 0x3d} && word / 2 % 2 == 0 then lane - 3 else lane
  }

  function LastPlace(word: Word, offset: nat): int {
    if Op(word) in {0x36, 0x3e} then 3 else if word / 2 % 2 == 0 then 0 - offset else 3 - offset
  }

  predicate IsQuad(word: Word) {
    Op(word) in {0x35, 0x36, 0x3d, 0x3e}
  }

  function Offset(m: Machine, word: Word): (r: nat)
    ensures r < 4
  {
    TransferAddress(m, word) / 4 % 4
  }

  lemma BlindQuadEnds(m: Machine, word: Word)
    requires Blind(m) && IsQuad(word)
    ensures ExecuteTransfer(m, word).faultAddress == LaneAddress(TransferAddress(m, word), LastPlace(word, Offset(m, word)))
  {
    hide LoadLanes, LoadLanesDown, StoreLanes, StoreLanesDown, WriteLanes, ReadVector, TransferAddress, LaneAddress;
    var address, held, offset := TransferAddress(m, word), ReadVector(m, Quad(word), 4), Offset(m, word);
    BlindLoads(m, address, held, 0, offset + 1);
    BlindLoads(m, address, held, 0, 4 - offset);
    BlindLoads(m, address, [0, 0, 0, 0], 0, 4);
    BlindStores(m, address, held, 0, offset + 1);
    BlindStores(m, address, held, 0, 4 - offset);
    BlindStores(m, address, held, 0, 4);
    WritesKeepFault(LoadLanesDown(m, address, held, 0, offset + 1).1, Quad(word), LoadLanesDown(m, address, held, 0, offset + 1).0, 0);
    WritesKeepFault(LoadLanes(m, address, held, 0, 4 - offset).1, Quad(word), LoadLanes(m, address, held, 0, 4 - offset).0, 0);
    WritesKeepFault(LoadLanes(m, address, [0, 0, 0, 0], 0, 4).1, Quad(word), LoadLanes(m, address, [0, 0, 0, 0], 0, 4).0, 0);
  }

  lemma {:induction false} WritesKeepFault(m: Machine, reg: Word, values: Lanes, lane: nat)
    requires lane <= 4
    ensures WriteLanes(m, reg, 4, values, lane).faultAddress == m.faultAddress
    decreases 4 - lane
  {
    hide VectorIndex, Bit;
    if lane < 4 {
      var next := if Bit(m.vfpuCtrl[2], 8 + lane) then m
                  else m.(vfpu := m.vfpu[VectorIndex(reg, 4, lane) := values[lane]]);
      WritesKeepFault(next, reg, values, lane + 1);
    }
  }

  /** A load that faults everywhere clears the lanes it moves and nothing else. */
  lemma BlindQuadLoad(m: Machine, word: Word, r: nat)
    requires Blind(m) && Op(word) in {0x35, 0x36} && m.vfpuCtrl[2] == 0 && r < 128
    ensures var after := ExecuteTransfer(m, word).vfpu[r];
      (forall l: nat :: l < 4 && r == Cell(word, l) && Moved(word, Offset(m, word), l) ==> after == 0) &&
      ((forall l: nat :: l < 4 && r == Cell(word, l) ==> !Moved(word, Offset(m, word), l)) ==> after == m.vfpu[r])
  {
    hide LoadLanes, LoadLanesDown, WriteLanes, TransferAddress, LaneAddress, VectorIndex;
    var address, held, offset := TransferAddress(m, word), ReadVector(m, Quad(word), 4), Offset(m, word);
    var zeros: Lanes := [0, 0, 0, 0];
    BlindLoads(m, address, held, 0, offset + 1);
    BlindLoads(m, address, held, 0, 4 - offset);
    BlindLoads(m, address, zeros, 0, 4);
    var (values, next) :=
      if Op(word) == 0x36 then LoadLanes(m, address, zeros, 0, 4)
      else if word / 2 % 2 == 0 then LoadLanesDown(m, address, held, 0, offset + 1)
      else LoadLanes(m, address, held, 0, 4 - offset);
    QuadIsLow(word);
    WrittenLanes(next, Quad(word), values, 0, r);
    assert ExecuteTransfer(m, word) == WriteLanes(next, Quad(word), 4, values, 0);
    forall l: nat | l < 4 ensures values[l] == if Moved(word, offset, l) then 0 else m.vfpu[Cell(word, l)] {
    }
    if l: nat :| l < 4 && r == Cell(word, l) {
      assert ExecuteTransfer(m, word).vfpu[r] == values[l];
    } else {
      forall l: nat | l < 4 ensures r != VectorIndex(Quad(word), 4, l) {
        assert r != Cell(word, l);
      }
    }
  }

  lemma QuadIsLow(word: Word)
    ensures Quad(word) / 64 % 2 == 0
  {
    QuadParts(word / 0x1_0000 % 32, word % 2);
  }

  /** A store to the one visible word puts the lane there that belongs there. */
  lemma PeepholeQuadStore(m: Machine, word: Word, lane: nat)
    requires Peephole(m) && Op(word) in {0x3d, 0x3e} && lane < 4 && Moved(word, Offset(m, word), lane)
    requires TransferAddress(m, word) % 4 == 0
    requires m.mem.base == Canonical(LaneAddress(TransferAddress(m, word), PlaceOf(word, lane)))
    ensures ExecuteTransfer(m, word).mem.main == LowBytes(m.vfpu[Cell(word, lane)], 4)
  {
    hide StoreLanes, StoreLanesDown, TransferAddress, LaneAddress, VectorIndex, Canonical, LowBytes;
    var address, held, offset := TransferAddress(m, word), ReadVector(m, Quad(word), 4), Offset(m, word);
    if Op(word) == 0x3e {
      PeepholeStores(m, address, held, 0, 4, lane);
    } else if word / 2 % 2 == 0 {
      PeepholeStores(m, address, held, 0, offset + 1, 3 - lane);
    } else {
      PeepholeStores(m, address, held, 0, 4 - offset, lane);
    }
    assert held[lane] == m.vfpu[Cell(word, lane)];
  }

  // ----- telling two words apart -----

  /** `g` in the base register, every vector register different, no memory. */
  function Observer(rs: nat, g: Word): Machine
    requires rs < 32
  {
    Machine(seq(32, _ => 0)[rs := g][0 := 0], 0, 0, seq(32, _ => 0), 0, seq(128, r requires 0 <= r < 128 => r + 1),
            seq(16, _ => 0), 0, Memory(0, [], [], [], []), false, 0, Running, 0, 0, 0)
  }

  function LookingAt(m: Machine, address: Word): Machine {
    m.(mem := Memory(Canonical(address), [0, 0, 0, 0], [], [], []))
  }

  function Displacement(word: Word): Word {
    SignExtend16(word % 0x1_0000 / 4 * 4)
  }

  lemma Observed(word: Word, g: Word)
    ensures var m := Observer(Rs(word), g);
      Blind(m) && m.gpr[0] == 0 && m.stop == Running && m.vfpuCtrl[2] == 0 && (forall r :: 0 <= r < 128 ==> m.vfpu[r] == r + 1) &&
      TransferAddress(m, word) == Add(if Rs(word) == 0 then 0 else g, Displacement(word))
  {
    hide SignExtend16;
  }

  lemma Looked(m: Machine, address: Word, word: Word)
    ensures var n := LookingAt(m, address);
      Peephole(n) && n.mem.base == Canonical(address) && n.gpr == m.gpr && n.stop == m.stop && n.vfpu == m.vfpu &&
      TransferAddress(n, word) == TransferAddress(m, word)
  {
    hide SignExtend16;
  }

  lemma DisplacementShape(word: Word)
    ensures Displacement(word) % 4 == 0 && Displacement(word) / 4 % 4 == word / 4 % 4
    ensures Displacement(word) % 16 == word / 4 % 4 * 4
  {
    var low: int := word % 0x1_0000 / 4;
    LowFourth(word);
    assert (low * 4) % 4 == 0 && low * 4 / 4 == low;
  }

  lemma LowFourth(word: int)
    ensures word % 0x1_0000 / 4 % 4 == word / 4 % 4
    ensures word % 0x1_0000 / 4 == word / 4 % 0x4000
  {
    var q, low: int := word / 0x1_0000, word % 0x1_0000;
    assert word == 4 * (0x4000 * q) + low;
    assert word / 4 == 0x4000 * q + low / 4;
    FourthsOf(q, low / 4);
  }

  lemma FourthsOf(q: int, x: int)
    requires 0 <= x < 0x4000
    ensures (0x4000 * q + x) % 4 == x % 4 && (0x4000 * q + x) % 0x4000 == x
  {
    RemainderOf(0x4000 * q + x, 4, 0x1000 * q + x / 4, x % 4);
  }

  lemma DisplacementsDiffer(word: Word, fetched: Word)
    requires word / 0x1_0000 == fetched / 0x1_0000
    ensures Displacement(word) == Displacement(fetched) <==> word / 4 == fetched / 4
  {
    LowFourth(word);
    LowFourth(fetched);
    var a, b: int := word % 0x1_0000 / 4 * 4, fetched % 0x1_0000 / 4 * 4;
    assert word / 4 == word / 0x1_0000 * 0x4000 + word % 0x1_0000 / 4;
    assert fetched / 4 == fetched / 0x1_0000 * 0x4000 + fetched % 0x1_0000 / 4;
    SignExtendSeparates(a, b);
  }

  lemma SignExtendSeparates(a: Word, b: Word)
    requires a < 0x1_0000 && b < 0x1_0000
    ensures SignExtend16(a) == SignExtend16(b) <==> a == b
  {
  }

  /** A machine as the CPU could be in it, on which the words do different things. */
  ghost predicate Separates(m: Machine, word: Word, fetched: Word) {
    m.gpr[0] == 0 && m.stop == Running && ExecuteTransfer(m, word) != ExecuteTransfer(m, fetched)
  }

  lemma BytesTellValues(a: Word, b: Word)
    requires a != b
    ensures LowBytes(a, 4) != LowBytes(b, 4)
  {
    BytesRoundTrip(a);
    BytesRoundTrip(b);
    hide ByteOf, FromBytes;
    assert LowBytes(a, 4) == [ByteOf(a, 0), ByteOf(a, 1), ByteOf(a, 2), ByteOf(a, 3)];
    assert LowBytes(b, 4) == [ByteOf(b, 0), ByteOf(b, 1), ByteOf(b, 2), ByteOf(b, 3)];
  }

  lemma SinglesDiffer(word: Word, fetched: Word) returns (m: Machine)
    requires word / 0x1_0000 == fetched / 0x1_0000 && Op(word) in {0x32, 0x3a} && word != fetched
    ensures Separates(m, word, fetched)
  {
    hide TransferAddress, ExecuteTransfer, Observer, Displacement, LowBytes, Canonical;
    SameFields(word, fetched);
    m := Observer(Rs(word), 0);
    Observed(word, 0);
    Observed(fetched, 0);
    BlindSingle(m, word);
    BlindSingle(m, fetched);
    DisplacementsDiffer(word, fetched);
    if word / 4 == fetched / 4 {
      assert word % 4 != fetched % 4;
      if Op(word) == 0x3a {
        var address := TransferAddress(m, word);
        DisplacementShape(word);
        SingleStore(m, address, word);
        SingleStore(m, address, fetched);
        BytesTellValues(m.vfpu[Single(word)], m.vfpu[Single(fetched)]);
        m := LookingAt(m, address);
      } else {
        var s := Single(word);
        assert m.vfpu[s := 0][s] == 0 && m.vfpu[Single(fetched) := 0][s] == s + 1;
      }
    }
  }

  lemma SingleStore(m: Machine, address: Word, word: Word)
    requires Op(word) == 0x3a && TransferAddress(m, word) == address && address % 4 == 0
    ensures Single(word) < 128
    ensures var n := LookingAt(m, address);
      n.gpr == m.gpr && n.stop == m.stop && ExecuteTransfer(n, word).mem.main == LowBytes(m.vfpu[Single(word)], 4)
  {
    hide TransferAddress, VectorIndex, Machine.Store, LowBytes, Canonical;
    SingleIndex(word);
    Looked(m, address, word);
    PeepholeStore(LookingAt(m, address), address, m.vfpu[Single(word)]);
  }

  /** A lane whose register the other word leaves alone. */
  lemma LoadTells(m: Machine, word: Word, fetched: Word, lane: nat)
    requires Blind(m) && m.vfpuCtrl[2] == 0 && (forall r :: 0 <= r < 128 ==> m.vfpu[r] == r + 1)
    requires Op(word) in {0x35, 0x36} && Op(fetched) == Op(word) && lane < 4 && Moved(word, Offset(m, word), lane)
    requires forall l: nat :: l < 4 && Cell(word, lane) == Cell(fetched, l) ==> !Moved(fetched, Offset(m, fetched), l)
    ensures ExecuteTransfer(m, word) != ExecuteTransfer(m, fetched)
  {
    hide ExecuteTransfer, TransferAddress, Cell, Moved, Offset;
    BlindQuadLoad(m, word, Cell(word, lane));
    BlindQuadLoad(m, fetched, Cell(word, lane));
  }

  /** One place that both store to, from different registers. */
  lemma StoreTells(m: Machine, word: Word, fetched: Word, lane: nat, other: nat)
    requires (forall r :: 0 <= r < 128 ==> m.vfpu[r] == r + 1)
    requires Op(word) in {0x3d, 0x3e} && Op(fetched) == Op(word) && lane < 4 && other < 4
    requires Moved(word, Offset(m, word), lane) && Moved(fetched, Offset(m, fetched), other)
    requires TransferAddress(m, word) % 4 == 0 && TransferAddress(m, fetched) % 4 == 0
    requires LaneAddress(TransferAddress(m, word), PlaceOf(word, lane))
          == LaneAddress(TransferAddress(m, fetched), PlaceOf(fetched, other))
    requires Cell(word, lane) != Cell(fetched, other)
    ensures var n := LookingAt(m, LaneAddress(TransferAddress(m, word), PlaceOf(word, lane)));
      n.gpr == m.gpr && n.stop == m.stop && ExecuteTransfer(n, word) != ExecuteTransfer(n, fetched)
  {
    hide ExecuteTransfer, TransferAddress, Cell, Moved, PlaceOf, LaneAddress, LowBytes, Canonical;
    var at := LaneAddress(TransferAddress(m, word), PlaceOf(word, lane));
    var n := LookingAt(m, at);
    Looked(m, at, word);
    Looked(m, at, fetched);
    PeepholeQuadStore(n, word, lane);
    PeepholeQuadStore(n, fetched, other);
    BytesTellValues(m.vfpu[Cell(word, lane)], m.vfpu[Cell(fetched, other)]);
  }

  /** Lanes of a row and of a column of one matrix meet on its diagonal only. */
  lemma CellsMeet(word: Word, fetched: Word, lane: nat, other: nat)
    requires word / 0x1_0000 == fetched / 0x1_0000 && lane < 4 && other < 4
    ensures Cell(word, lane) == Cell(fetched, other)
       <==> lane == other && (word % 2 == fetched % 2 || lane == Column(word))
  {
    hide Cell;
    SameFields(word, fetched);
    CellShape(word, lane);
    CellShape(fetched, other);
    assert word / 0x4_0000 == word / 0x1_0000 / 4 && fetched / 0x4_0000 == fetched / 0x1_0000 / 4;
  }

  lemma LaneOf(address: Word, place: int)
    requires address % 16 / 4 + place >= 0 && address % 16 / 4 + place <= 3 && address % 4 == 0
    ensures LaneAddress(address, place) == address + 4 * place
  {
    assert address - address % 16 <= TWO32 - 16;
  }

  lemma WholeQuadsDiffer(word: Word, fetched: Word) returns (m: Machine)
    requires word / 0x1_0000 == fetched / 0x1_0000 && Op(word) in {0x36, 0x3e} && !ReadsAlike(word, fetched)
    ensures Separates(m, word, fetched)
  {
    hide TransferAddress, ExecuteTransfer, Observer, Displacement, LookingAt, Cell;
    SameFields(word, fetched);
    m := Observer(Rs(word), 0);
    Observed(word, 0);
    Observed(fetched, 0);
    DisplacementsDiffer(word, fetched);
    if word / 4 != fetched / 4 {
      BlindQuadEnds(m, word);
      BlindQuadEnds(m, fetched);
      FarLanes(TransferAddress(m, word), TransferAddress(m, fetched));
    } else {
      var lane := if Column(word) == 0 then 1 else 0;
      DisplacementShape(word);
      m := QuadsTold(m, word, fetched, lane);
    }
  }

  lemma FarLanes(a: Word, b: Word)
    requires a != b
    ensures LaneAddress(a, 3) != LaneAddress(b, 3)
  {
  }

  /** Two words that differ in row against column only, at one address. */
  lemma QuadsTold(m: Machine, word: Word, fetched: Word, lane: nat) returns (n: Machine)
    requires word / 0x1_0000 == fetched / 0x1_0000 && IsQuad(word) && word % 2 != fetched % 2
    requires Op(word) in {0x35, 0x3d} ==> word / 2 % 2 == fetched / 2 % 2
    requires Blind(m) && m.gpr[0] == 0 && m.stop == Running && m.vfpuCtrl[2] == 0
    requires forall r :: 0 <= r < 128 ==> m.vfpu[r] == r + 1
    requires TransferAddress(m, word) == TransferAddress(m, fetched) && TransferAddress(m, word) % 4 == 0
    requires lane < 4 && lane != Column(word) && Moved(word, Offset(m, word), lane)
    ensures Separates(n, word, fetched)
  {
    hide TransferAddress, ExecuteTransfer, LookingAt, Cell, LaneAddress;
    SameFields(word, fetched);
    n := m;
    if Op(word) in {0x35, 0x36} {
      forall l: nat | l < 4 ensures Cell(word, lane) != Cell(fetched, l) {
        CellsMeet(word, fetched, lane, l);
      }
      LoadTells(m, word, fetched, lane);
    } else {
      CellsMeet(word, fetched, lane, lane);
      StoreTells(m, word, fetched, lane, lane);
      n := LookingAt(m, LaneAddress(TransferAddress(m, word), PlaceOf(word, lane)));
    }
  }

  /** Where the last access of a partial transfer goes: the first or the last
      word of the aligned quad. */
  lemma PartialEnds(address: Word, word: Word)
    requires address % 4 == 0 && Op(word) in {0x35, 0x3d}
    ensures LaneAddress(address, LastPlace(word, address / 4 % 4))
         == address - address % 16 + if word / 2 % 2 == 0 then 0 else 12
  {
    assert address % 16 == 4 * (address / 4 % 4);
    LaneOf(address, LastPlace(word, address / 4 % 4));
  }

  /** Partial transfers that end at one place but move different lanes. */
  lemma LanesTold(m: Machine, word: Word, fetched: Word) returns (n: Machine)
    requires word / 0x1_0000 == fetched / 0x1_0000 && Op(word) in {0x35, 0x3d} && word / 2 % 2 == fetched / 2 % 2
    requires Blind(m) && m.gpr[0] == 0 && m.stop == Running && m.vfpuCtrl[2] == 0
    requires forall r :: 0 <= r < 128 ==> m.vfpu[r] == r + 1
    requires TransferAddress(m, word) % 4 == 0 && TransferAddress(m, fetched) % 4 == 0
    requires LaneAddress(TransferAddress(m, word), LastPlace(word, Offset(m, word)))
          == LaneAddress(TransferAddress(m, fetched), LastPlace(fetched, Offset(m, fetched)))
    requires Offset(m, word) != Offset(m, fetched)
    ensures Separates(n, word, fetched)
  {
    hide TransferAddress, ExecuteTransfer, LookingAt, Cell, LaneAddress, Offset;
    SameFields(word, fetched);
    n := m;
    var here, there := Offset(m, word), Offset(m, fetched);
    if Op(word) == 0x3d {
      CellsMeet(word, fetched, 3 - here, 3 - there);
      StoreTells(m, word, fetched, 3 - here, 3 - there);
      n := LookingAt(m, LaneAddress(TransferAddress(m, word), PlaceOf(word, 3 - here)));
    } else if Moved(fetched, there, 3 - here) {
      forall l: nat | l < 4 && Cell(fetched, 3 - there) == Cell(word, l) ensures !Moved(word, here, l) {
        CellsMeet(fetched, word, 3 - there, l);
      }
      LoadTells(m, fetched, word, 3 - there);
    } else {
      forall l: nat | l < 4 && Cell(word, 3 - here) == Cell(fetched, l) ensures !Moved(fetched, there, l) {
        CellsMeet(word, fetched, 3 - here, l);
      }
      LoadTells(m, word, fetched, 3 - here);
    }
  }

  lemma PartialQuadsDiffer(word: Word, fetched: Word) returns (m: Machine)
    requires word / 0x1_0000 == fetched / 0x1_0000 && Op(word) in {0x35, 0x3d} && !ReadsAlike(word, fetched)
    ensures Separates(m, word, fetched)
  {
    hide TransferAddress, ExecuteTransfer, Observer, Displacement, LaneAddress, Cell, Op, Rs, Rt, Column, LastPlace, ReadsAlike;
    SameFields(word, fetched);
    m := Observer(Rs(word), 0);
    Observed(word, 0);
    Observed(fetched, 0);
    DisplacementShape(word);
    DisplacementShape(fetched);
    DisplacementsDiffer(word, fetched);
    AddZero(Displacement(word));
    AddZero(Displacement(fetched));
    var here, there := TransferAddress(m, word), TransferAddress(m, fetched);
    BlindQuadEnds(m, word);
    BlindQuadEnds(m, fetched);
    PartialEnds(here, word);
    PartialEnds(there, fetched);
    if here - here % 16 == there - there % 16 && word / 2 % 2 == fetched / 2 % 2 {
      if here / 4 % 4 != there / 4 % 4 {
        m := LanesTold(m, word, fetched);
      } else {
        SameQuarter(here, there);
        m := ColumnsTold(word, fetched);
      }
    } else {
      AlignedApart(here, there);
    }
  }

  lemma SameQuarter(a: int, b: int)
    requires a % 4 == 0 && b % 4 == 0 && a - a % 16 == b - b % 16 && a / 4 % 4 == b / 4 % 4
    ensures a == b
  {
  }

  lemma AlignedApart(a: int, b: int)
    ensures a - a % 16 != b - b % 16 + 12 && a - a % 16 + 12 != b - b % 16
  {
  }

  /** Same displacement, row against column: a base that moves a second lane
      tells them apart, and without a base register some lane off the diagonal. */
  lemma ColumnsTold(word: Word, fetched: Word) returns (m: Machine)
    requires word / 0x1_0000 == fetched / 0x1_0000 && Op(word) in {0x35, 0x3d} && !ReadsAlike(word, fetched)
    requires word / 4 == fetched / 4 && word / 2 % 2 == fetched / 2 % 2
    ensures Separates(m, word, fetched)
  {
    hide TransferAddress, ExecuteTransfer, Observer, Displacement, Cell, Op, Rs, Rt, Column, ReadsAlike, Moved;
    SameFields(word, fetched);
    var g: Word := if !OnDiagonal(word) then 0 else if word / 2 % 2 == 0 then 12 else 4;
    m := Observer(Rs(word), g);
    Observed(word, g);
    Observed(fetched, g);
    DisplacementShape(word);
    DisplacementsDiffer(word, fetched);
    BitZeroDiffers(word, fetched);
    Moves16(Displacement(word), if Rs(word) == 0 then 0 else g);
    var lane := LaneOffDiagonal(word, Offset(m, word));
    m := QuadsTold(m, word, fetched, lane);
  }

  lemma BitZeroDiffers(word: Word, fetched: Word)
    requires Op(word) in {0x35, 0x3d} && !ReadsAlike(word, fetched)
    requires word / 4 == fetched / 4 && word / 2 % 2 == fetched / 2 % 2
    ensures word % 2 != fetched % 2 && (OnDiagonal(word) ==> Rs(word) != 0)
  {
    assert word / 2 == fetched / 2;
  }

  lemma LaneOffDiagonal(word: Word, offset: nat) returns (lane: nat)
    requires offset < 4 && (if word / 2 % 2 == 0 then offset != 0 || Column(word) != 3 else offset != 3 || Column(word) != 0)
    ensures lane < 4 && lane != Column(word) && Moved(word, offset, lane)
  {
    hide Column;
    lane := if word / 2 % 2 == 0 then (if Column(word) != 3 then 3 else 2) else if Column(word) != 0 then 0 else 1;
  }

  lemma AddZero(a: Word)
    ensures Add(0, a) == a
  {
  }

  lemma Moves16(a: Word, g: Word)
    requires a % 4 == 0 && (g == 0 || (g == 12 && a % 16 == 0) || (g == 4 && a % 16 == 12))
    ensures Add(g, a) % 4 == 0 && Add(g, a) / 4 % 4 == if g == 0 then a / 4 % 4 else if g == 12 then 3 else 0
  {
  }

  /** Words that read differently do different things on some machine. */
  lemma Separate(word: Word, fetched: Word) returns (m: Machine)
    requires word / 0x1_0000 == fetched / 0x1_0000 && IsTransfer(word) && !ReadsAlike(word, fetched)
    ensures Separates(m, word, fetched)
  {
    if Op(word) in {0x32, 0x3a} {
      m := SinglesDiffer(word, fetched);
    } else if Op(word) in {0x36, 0x3e} {
      m := WholeQuadsDiffer(word, fetched);
    } else {
      m := PartialQuadsDiffer(word, fetched);
    }
  }

  // ----- words that read alike -----

  lemma SameAddress(m: Machine, word: Word, fetched: Word)
    requires word / 0x1_0000 == fetched / 0x1_0000 && word / 4 == fetched / 4
    ensures TransferAddress(m, word) == TransferAddress(m, fetched)
  {
    hide SignExtend16;
    SameFields(word, fetched);
    DisplacementsDiffer(word, fetched);
  }

  /** Writing back what all lanes but one hold. */
  lemma {:induction false} WritesOne(m: Machine, reg: Word, values: Lanes, only: nat, lane: nat)
    requires reg / 64 % 2 == 0 && only < 4 && lane <= 4
    requires forall l: nat :: lane <= l < 4 && l != only ==> values[l] == m.vfpu[VectorIndex(reg, 4, l)]
    ensures WriteLanes(m, reg, 4, values, lane)
         == if only < lane || Bit(m.vfpuCtrl[2], 8 + only) then m
            else m.(vfpu := m.vfpu[VectorIndex(reg, 4, only) := values[only]])
    decreases 4 - lane
  {
    hide VectorIndex, Bit;
    if lane < 4 {
      var index := VectorIndex(reg, 4, lane);
      var next := if Bit(m.vfpuCtrl[2], 8 + lane) then m else m.(vfpu := m.vfpu[index := values[lane]]);
      if lane != only {
        assert m.vfpu[index := m.vfpu[index]] == m.vfpu;
      }
      forall l: nat | lane < l < 4 ensures VectorIndex(reg, 4, l) != index {
        LaneInRow(reg, l);
        LaneInRow(reg, lane);
      }
      WritesOne(next, reg, values, only, lane + 1);
    }
  }

  /** A partial transfer of one lane, as the access it makes. */
  lemma OneLaneTransfer(m: Machine, word: Word, lane: nat)
    requires Op(word) in {0x35, 0x3d} && m.gpr[0] == 0
    requires if word / 2 % 2 == 0 then Offset(m, word) == 0 && lane == 3 else Offset(m, word) == 3 && lane == 0
    ensures var address := TransferAddress(m, word);
      var (value, next) := m.Load(LaneAddress(address, 0), 4);
      ExecuteTransfer(m, word)
        == if Op(word) == 0x3d then m.Store(LaneAddress(address, 0), 4, m.vfpu[Cell(word, lane)])
           else if Bit(m.vfpuCtrl[2], 8 + lane) then next
           else next.(vfpu := m.vfpu[Cell(word, lane) := value])
  {
    hide TransferAddress, Machine.Load, Machine.Store, LaneAddress, VectorIndex, Bit;
    var address, held := TransferAddress(m, word), ReadVector(m, Quad(word), 4);
    var (value, next) := m.Load(LaneAddress(address, 0), 4);
    LoadKeepsBanks(m, LaneAddress(address, 0));
    if Op(word) == 0x35 {
      QuadIsLow(word);
      var values: Lanes := held[lane := value];
      assert LoadLanesDown(next, address, held[3 := value], 1, 1) == (held[3 := value], next);
      assert LoadLanes(next, address, held[0 := value], 1, 1) == (held[0 := value], next);
      WritesOne(next, Quad(word), values, lane, 0);
    } else {
      var stored := m.Store(LaneAddress(address, 0), 4, held[lane]);
      assert StoreLanesDown(stored, address, held, 1, 1) == stored && StoreLanes(stored, address, held, 1, 1) == stored;
    }
  }

  lemma LoadKeepsBanks(m: Machine, address: Word)
    ensures SameBanks(m, m.Load(address, 4).1)
  {
    hide Peek, MappedAddress;
  }

  lemma AlikeAgree(m: Machine, word: Word, fetched: Word)
    requires word / 0x1_0000 == fetched / 0x1_0000 && IsTransfer(word) && ReadsAlike(word, fetched) && m.gpr[0] == 0
    ensures ExecuteTransfer(m, word) == ExecuteTransfer(m, fetched)
  {
    hide TransferAddress, LoadLanes, StoreLanes, LoadLanesDown, StoreLanesDown, WriteLanes, ReadVector, Cell, Column;
    SameFields(word, fetched);
    if word != fetched {
      SameFourth(word, fetched);
      SameAddress(m, word, fetched);
      if Op(word) in {0x35, 0x3d} {
        var lane := if word / 2 % 2 == 0 then 3 else 0;
        AddressFromZero(m, word);
        CellsMeet(word, fetched, lane, lane);
        OneLaneTransfer(m, word, lane);
        OneLaneTransfer(m, fetched, lane);
      }
    }
  }

  lemma SameFourth(word: Word, fetched: Word)
    requires ReadsAlike(word, fetched)
    ensures word / 4 == fetched / 4 && (Op(word) in {0x35, 0x3d} ==> word / 2 % 2 == fetched / 2 % 2)
  {
    assert word / 4 == word / 2 / 2 && fetched / 4 == fetched / 2 / 2;
  }

  lemma AddressFromZero(m: Machine, word: Word)
    requires m.gpr[0] == 0 && Rs(word) == 0
    ensures Offset(m, word) == word / 4 % 4
  {
    hide SignExtend16;
    DisplacementShape(word);
    AddZero(Displacement(word));
  }
}
