/** Rounding up with a mask, as align_up of refract/src/runtime.cpp and the shard
    boundaries of src/emitter/analysis.cpp do. */
module Alignment {
  import opened Words

  function AlignUp(value: Word, alignment: Word): Word {
    And(Sub(Add(value, alignment), 1), Complement(Sub(alignment, 1)))
  }

  lemma {:induction false} MaskedBits(n: nat, k: nat, v: nat)
    requires k <= n && v < Pow2(n)
    ensures 0 <= Pow2(n) - Pow2(k)
    ensures Bitwise(AND, n, v, Pow2(n) - Pow2(k)) == v - v % Pow2(k)
    decreases n
  {
    hide Bitwise;
    if n > 0 {
      if k == 0 {
        MaskedBits(n - 1, 0, v / 2);
        MaskStep(n, v, Pow2(n - 1) - 1, 1);
      } else {
        MaskedBits(n - 1, k - 1, v / 2);
        MaskStep(n, v, Pow2(n - 1) - Pow2(k - 1), 0);
        HalvedRemainder(v, Pow2(k - 1));
      }
    } else {
      NoBits(v, Pow2(n) - Pow2(k));
    }
  }

  /** One bit of the mask. */
  lemma MaskStep(n: nat, v: nat, mask: nat, bit: nat)
    requires 0 < n && bit < 2
    ensures Bitwise(AND, n, v, 2 * mask + bit) == bit * (v % 2) + 2 * Bitwise(AND, n - 1, v / 2, mask)
  {
    assert (2 * mask + bit) % 2 == bit && (2 * mask + bit) / 2 == mask;
  }

  lemma NoBits(v: nat, mask: nat)
    ensures Bitwise(AND, 0, v, mask) == 0
  {
  }

  lemma HalvedRemainder(v: int, p: int)
    requires 0 <= v && 0 < p
    ensures v % (2 * p) == 2 * (v / 2 % p) + v % 2
  {
    var h: int := v / 2;
    var q, r := h / p, h % p;
    assert v == (2 * p) * q + (2 * r + v % 2);
    RemainderOf(v, 2 * p, q, 2 * r + v % 2);
  }

  lemma {:induction false} PowGrows(k: nat)
    requires k <= 32
    ensures k < 32 ==> Pow2(k) < Pow2(32)
    ensures Pow2(32) == TWO32
    decreases 32 - k
  {
    if k < 32 {
      PowGrows(k + 1);
    } else {
      assert Pow2(8) == 0x100 && Pow2(16) == 0x1_0000 && Pow2(24) == 0x100_0000;
    }
  }

  lemma Bumped(value: Word, alignment: Word)
    requires 0 < alignment
    ensures Sub(Add(value, alignment), 1) == (value + alignment - 1) % TWO32
    ensures Complement(Sub(alignment, 1)) == TWO32 - alignment
  {
    var sum: int := value + alignment;
    assert sum - 1 == sum / TWO32 * TWO32 + (sum % TWO32 - 1);
  }

  /** For a power of two, the next multiple, modulo 2^32. */
  lemma AlignsUp(value: Word, k: nat)
    requires k < 32
    ensures Pow2(k) < TWO32
    ensures var bumped := (value + Pow2(k) - 1) % TWO32;
      AlignUp(value, Pow2(k)) == bumped - bumped % Pow2(k)
  {
    hide Pow2, Bitwise, Add, Sub, Complement;
    PowGrows(k);
    Bumped(value, Pow2(k));
    var bumped: int := (value + Pow2(k) - 1) % TWO32;
    MaskedBits(32, k, bumped);
  }

  predicate PowerOfTwo(a: Word) {
    exists k: nat :: k < 32 && a == Pow2(k)
  }

  lemma AlignedAddress(value: Word, alignment: Word)
    requires PowerOfTwo(alignment)
    ensures 0 < alignment
    ensures var r := AlignUp(value, alignment);
      (value + alignment - 1 < TWO32 ==> value <= r < value + alignment && r % alignment == 0) &&
      (value + alignment - 1 >= TWO32 ==> r == 0)
  {
    hide Pow2, AlignUp;
    var k: nat :| k < 32 && alignment == Pow2(k);
    AlignedAt(value, k);
  }

  lemma AlignedAt(value: Word, k: nat)
    requires k < 32
    ensures 0 < Pow2(k) < TWO32
    ensures var r := AlignUp(value, Pow2(k));
      (value + Pow2(k) - 1 < TWO32 ==> value <= r < value + Pow2(k) && r % Pow2(k) == 0) &&
      (value + Pow2(k) - 1 >= TWO32 ==> r == 0)
  {
    hide Pow2, AlignUp;
    AlignsUp(value, k);
    RoundedUp(value, Pow2(k));
  }

  lemma RoundedUp(value: int, alignment: int)
    requires 0 <= value < TWO32 && 0 < alignment < TWO32
    ensures var bumped := (value + alignment - 1) % TWO32;
      var r := bumped - bumped % alignment;
      (value + alignment - 1 < TWO32 ==> value <= r < value + alignment && r % alignment == 0) &&
      (value + alignment - 1 >= TWO32 ==> r == 0)
  {
    var sum: int := value + alignment - 1;
    if sum < TWO32 {
      assert sum % TWO32 == sum;
      RoundDown(sum, alignment);
    } else {
      assert sum % TWO32 == sum - TWO32;
      RemainderOf(sum - TWO32, alignment, 0, sum - TWO32);
    }
  }

  lemma RoundDown(sum: int, alignment: int)
    requires 0 < alignment && 0 <= sum
    ensures sum - alignment < sum - sum % alignment <= sum && (sum - sum % alignment) % alignment == 0
  {
    RemainderOf(sum - sum % alignment, alignment, sum / alignment, 0);
  }
}
