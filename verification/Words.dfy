/** 32-bit guest words as integers in [0, 2^32), and the helpers that the
    interpreter and the generated code share.  A mask of low ones is written as
    `%`, a right shift by a constant as `/`, and `|` of disjoint fields as `+`. */
module Words {

  const TWO32: int := 0x1_0000_0000

  type Word = w: int | 0 <= w < 0x1_0000_0000
  type Byte = b: int | 0 <= b < 0x100

  /** A register file of `n` words has a fixed length. */
  type Bank32 = s: seq<Word> | |s| == 32 witness seq(32, _ => 0)
  type Bank128 = s: seq<Word> | |s| == 128 witness seq(128, _ => 0)
  type Bank16 = s: seq<Word> | |s| == 16 witness seq(16, _ => 0)

  function Add(a: Word, b: Word): Word {
    (a + b) % TWO32
  }

  function Sub(a: Word, b: Word): Word {
    (a - b) % TWO32
  }

  function Complement(a: Word): Word {
    0xffff_ffff - a
  }

  /** Two's complement reading of a word. */
  function S32(a: Word): int {
    if a < 0x8000_0000 then a else a - TWO32
  }

  /** The word that a signed result is stored as. */
  function Wrap(value: int): Word {
    value % TWO32
  }

  /** The high word of a 64-bit result, taken modulo 2^64. */
  function High(value: int): Word {
    (value / TWO32) % TWO32
  }

  function Bool32(condition: bool): Word {
    if condition then 1 else 0
  }

  function SignExtend16(a: Word): Word {
    var low := a % 0x1_0000;
    if low >= 0x8000 then low + 0xffff_0000 else low
  }

  function SignExtend8(a: Word): Word {
    var low := a % 0x100;
    if low >= 0x80 then low + 0xffff_ff00 else low
  }

  // ----- shifts -----

  function ShiftLeft(a: Word, n: nat): Word
    decreases n
  {
    if n == 0 then a else ShiftLeft((a * 2) % TWO32, n - 1)
  }

  function ShiftRight(a: Word, n: nat): (r: Word)
    ensures r <= a
  {
    if n == 0 then a else ShiftRight(a / 2, n - 1)
  }

  function ShiftRightArithmetic(a: Word, amount: Word): Word {
    var n := amount % 32;
    if n == 0 then a
    else if a < 0x8000_0000 then ShiftRight(a, n)
    else Or(ShiftRight(a, n), ShiftLeft(0xffff_ffff, 32 - n))
  }

  function RotateRight(a: Word, amount: Word): Word {
    var n := amount % 32;
    if n == 0 then a else Or(ShiftRight(a, n), ShiftLeft(a, 32 - n))
  }

  function Bit(a: Word, n: nat): bool {
    ShiftRight(a, n) % 2 == 1
  }

  // ----- bitwise operations -----

  function Pow2(n: nat): (r: nat)
    ensures r >= 1
  {
    if n == 0 then 1 else 2 * Pow2(n - 1)
  }

  datatype BitOp = AND | OR | XOR

  function OneBit(op: BitOp, x: int, y: int): (r: int)
    ensures 0 <= r <= 1
  {
    var one := match op
      case AND => x == 1 && y == 1
      case OR => x == 1 || y == 1
      case XOR => x != y;
    if one then 1 else 0
  }

  function Bitwise(op: BitOp, n: nat, a: nat, b: nat): (r: nat)
    ensures r < Pow2(n)
  {
    if n == 0 then 0
    else OneBit(op, a % 2, b % 2) + 2 * Bitwise(op, n - 1, a / 2, b / 2)
  }

  function BitwiseWord(op: BitOp, a: Word, b: Word): Word {
    assert Pow2(8) == 0x100;
    assert Pow2(16) == 0x1_0000;
    assert Pow2(24) == 0x100_0000;
    assert Pow2(32) == TWO32;
    Bitwise(op, 32, a, b)
  }

  function And(a: Word, b: Word): Word {
    BitwiseWord(AND, a, b)
  }

  function Or(a: Word, b: Word): Word {
    BitwiseWord(OR, a, b)
  }

  function Xor(a: Word, b: Word): Word {
    BitwiseWord(XOR, a, b)
  }

  // ----- counting and reordering bits -----

  function CountLeadingZeros(a: Word): (r: Word)
    ensures r <= 32
  {
    LeadingZerosBelow(a, 32)
  }

  /** Zero bits of `a` from position `n - 1` down to its highest one. */
  function LeadingZerosBelow(a: Word, n: nat): (r: nat)
    ensures r <= n
  {
    if n == 0 || Bit(a, n - 1) then 0 else 1 + LeadingZerosBelow(a, n - 1)
  }

  function CountLeadingOnes(a: Word): Word {
    CountLeadingZeros(Complement(a))
  }

  function ByteOf(a: Word, k: nat): Byte
    requires k < 4
  {
    if k == 0 then a % 0x100
    else if k == 1 then a / 0x100 % 0x100
    else if k == 2 then a / 0x100 / 0x100 % 0x100
    else a / 0x100 / 0x100 / 0x100
  }

  function FromBytes(b0: Byte, b1: Byte, b2: Byte, b3: Byte): Word {
    b0 + 0x100 * b1 + 0x1_0000 * b2 + 0x100_0000 * b3
  }

  /** The little-endian word at an offset. */
  function ReadWord(bytes: seq<Byte>, offset: nat): Word
    requires offset + 4 <= |bytes|
  {
    FromBytes(bytes[offset], bytes[offset + 1], bytes[offset + 2], bytes[offset + 3])
  }

  function ByteSwap(a: Word): Word {
    FromBytes(ByteOf(a, 3), ByteOf(a, 2), ByteOf(a, 1), ByteOf(a, 0))
  }

  function SwapHalfwordBytes(a: Word): Word {
    FromBytes(ByteOf(a, 1), ByteOf(a, 0), ByteOf(a, 3), ByteOf(a, 2))
  }

  function ReverseBits(a: Word): Word {
    var v1 := Or(ShiftLeft(And(a, 0x5555_5555), 1), ShiftRight(And(a, 0xaaaa_aaaa), 1));
    var v2 := Or(ShiftLeft(And(v1, 0x3333_3333), 2), ShiftRight(And(v1, 0xcccc_cccc), 2));
    var v3 := Or(ShiftLeft(And(v2, 0x0f0f_0f0f), 4), ShiftRight(And(v2, 0xf0f0_f0f0), 4));
    var v4 := Or(ShiftLeft(And(v3, 0x00ff_00ff), 8), ShiftRight(And(v3, 0xff00_ff00), 8));
    Or(ShiftLeft(v4, 16), ShiftRight(v4, 16))
  }

  /** `width` low ones, as the bit-field instructions build their masks. */
  function FieldMask(width: nat): Word {
    if width == 32 then 0xffff_ffff else Sub(ShiftLeft(1, width), 1)
  }

  // ----- division as the CPU does it -----

  function UnsignedQuotient(a: Word, b: Word): Word
    requires b != 0
  {
    a / b
  }

  function UnsignedRemainder(a: Word, b: Word): Word
    requires b != 0
  {
    a % b
  }

  /** C++ division and remainder truncate towards zero. */
  function SignedQuotient(a: Word, b: Word): Word
    requires b != 0
  {
    var magnitude := Magnitude(S32(a)) / Magnitude(S32(b));
    Wrap(if (S32(a) >= 0) == (S32(b) > 0) then magnitude else -magnitude)
  }

  function SignedRemainder(a: Word, b: Word): Word
    requires b != 0
  {
    var magnitude := Magnitude(S32(a)) % Magnitude(S32(b));
    Wrap(if S32(a) >= 0 then magnitude else -magnitude)
  }

  function Magnitude(a: int): (r: nat)
    ensures a != 0 ==> r != 0
  {
    if a < 0 then -a else a
  }

  /** The bytes of a word survive packing and unpacking. */
  lemma BytesRoundTrip(a: Word)
    ensures FromBytes(ByteOf(a, 0), ByteOf(a, 1), ByteOf(a, 2), ByteOf(a, 3)) == a
  {
  }

  lemma WordRoundTrip(b0: Byte, b1: Byte, b2: Byte, b3: Byte)
    ensures ByteOf(FromBytes(b0, b1, b2, b3), 0) == b0
    ensures ByteOf(FromBytes(b0, b1, b2, b3), 1) == b1
    ensures ByteOf(FromBytes(b0, b1, b2, b3), 2) == b2
    ensures ByteOf(FromBytes(b0, b1, b2, b3), 3) == b3
  {
  }

  /** Addition of words is associative although each sum wraps. */
  lemma AddAssociative(a: Word, b: Word, c: Word)
    ensures Add(Add(a, b), c) == Add(a, Add(b, c))
  {
  }

  lemma SubThenAdd(a: Word, b: Word)
    ensures Add(b, Sub(a, b)) == a
  {
  }

  // ----- remainders -----

  /** Quotient and remainder are unique. */
  lemma RemainderOf(v: int, d: int, q: int, r: int)
    requires v == d * q + r && 0 <= r < d
    ensures v % d == r
  {
    var apart: int := v / d - q;
    assert d * apart == r - v % d;
    MultipleIsFar(d, apart);
  }

  lemma MultipleIsFar(d: int, x: int)
    requires 0 < d
    ensures x >= 1 ==> d * x >= d
    ensures x <= -1 ==> d * x <= -d
  {
  }

  lemma ModOfMod(r: int, q: int, n: int, d: int)
    requires 0 < d && 0 <= r
    ensures (q * (n * d) + r) % d == r % d
  {
    RemainderOf(q * (n * d) + r, d, q * n + r / d, r % d);
  }
}
