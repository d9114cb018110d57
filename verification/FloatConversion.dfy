/** Conversion of 32-bit floats to integers: rounded_word
    (include/psprecomp/runtime.hpp) and the plain casts of round.w.s and
    trunc.w.s in include/psprecomp/interpreter.hpp.  A finite float is the
    fraction Numerator / Denominator under its sign.  nearbyint rounds in the
    host's default direction, to nearest with ties to even. */
module FloatConversion {
  import opened Words
  import opened Vfpu

  const INVALID_CONVERSION: Word := 0x8000_0000

  // ----- the value of a float word -----

  function Exponent(w: Word): (e: nat)
    ensures e < 0x100
  {
    w / 0x80_0000 % 0x100
  }

  function Significand(w: Word): (s: nat)
    ensures s < 0x100_0000
  {
    if Exponent(w) == 0 then w % 0x80_0000 else 0x80_0000 + w % 0x80_0000
  }

  predicate IsNegative(w: Word) {
    w >= 0x8000_0000
  }

  predicate IsFinite(w: Word) {
    Exponent(w) != 0xff
  }

  function Numerator(w: Word): nat {
    if Exponent(w) <= 150 then Significand(w) else Significand(w) * Pow2(Exponent(w) - 150)
  }

  function Denominator(w: Word): (d: nat)
    ensures d >= 1
  {
    var e := Exponent(w);
    if e >= 150 then 1 else Pow2(150 - if e == 0 then 1 else e)
  }

  function Signed(w: Word, magnitude: nat): int {
    if IsNegative(w) then 0 - magnitude else magnitude
  }

  // ----- rounding a fraction -----

  function Truncated(n: nat, d: nat): nat
    requires d >= 1
  {
    n / d
  }

  /** std::round: halves go away from zero. */
  function HalfAway(n: nat, d: nat): nat
    requires d >= 1
  {
    if 2 * (n % d) >= d then n / d + 1 else n / d
  }

  /** std::nearbyint: halves go to the even neighbour. */
  function HalfEven(n: nat, d: nat): nat
    requires d >= 1
  {
    if 2 * (n % d) > d || (2 * (n % d) == d && n / d % 2 == 1) then n / d + 1 else n / d
  }

  function RoundUp(n: nat, d: nat): nat
    requires d >= 1
  {
    if n % d != 0 then n / d + 1 else n / d
  }

  function Rounded(w: Word, mode: Word): int {
    var n, d := Numerator(w), Denominator(w);
    match mode % 4
    case 0 => Signed(w, HalfEven(n, d))
    case 1 => Signed(w, Truncated(n, d))
    case 2 => Signed(w, if IsNegative(w) then Truncated(n, d) else RoundUp(n, d))
    case _ => Signed(w, if IsNegative(w) then RoundUp(n, d) else Truncated(n, d))
  }

  predicate FitsInt32(value: int) {
    -0x8000_0000 <= value <= 0x7fff_ffff
  }

  /** rounded_word: a value outside 32 bits gives 0x80000000. */
  function RoundedWord(w: Word, mode: Word): Word {
    if !IsFinite(w) || !FitsInt32(Rounded(w, mode)) then INVALID_CONVERSION
    else Wrap(Rounded(w, mode))
  }

  /** static_cast<int32_t>(std::round(x)); outside 32 bits the host decides. */
  function RoundCast(fpu: FloatUnit, w: Word): Word {
    hide Numerator, Denominator, HalfAway;
    var value := Signed(w, HalfAway(Numerator(w), Denominator(w)));
    if IsFinite(w) && FitsInt32(value) then Wrap(value) else fpu.roundOutOfRange(w)
  }

  /** static_cast<int32_t>(std::trunc(x)). */
  function TruncateCast(fpu: FloatUnit, w: Word): Word {
    hide Numerator, Denominator, Truncated;
    var value := Signed(w, Truncated(Numerator(w), Denominator(w)));
    if IsFinite(w) && FitsInt32(value) then Wrap(value) else fpu.truncateOutOfRange(w)
  }

  // ----- what the two roundings mean -----

  function Distance(a: int, b: int): nat {
    if a < b then b - a else a - b
  }

  /** Both give a nearest integer; they differ in what they do half-way. */
  lemma RoundingIsNearest(n: nat, d: nat)
    requires d >= 1
    ensures 2 * Distance(HalfAway(n, d) * d, n) <= d && 2 * Distance(HalfEven(n, d) * d, n) <= d
    ensures 2 * Distance(HalfAway(n, d) * d, n) == d ==> HalfAway(n, d) * d > n
    ensures 2 * Distance(HalfEven(n, d) * d, n) == d ==> HalfEven(n, d) % 2 == 0
  {
    var q, r := n / d, n % d;
    assert n == q * d + r;
    assert (q + 1) * d == q * d + d;
  }

  // ----- where the casts agree -----

  /** The 32-bit range, read off the word: below 2^31 in magnitude, or -2^31. */
  predicate InRange(w: Word) {
    Exponent(w) <= 157 || w == 0xcf00_0000
  }

  /** Half-way between an even integer and the next one away from zero. */
  predicate HalfAboveEven(w: Word) {
    2 * (Numerator(w) % Denominator(w)) == Denominator(w) && Numerator(w) / Denominator(w) % 2 == 0
  }

  lemma {:induction false} Pow2Grows(a: nat, b: nat)
    requires a <= b
    ensures Pow2(a) <= Pow2(b)
    decreases b
  {
    if a < b {
      Pow2Grows(a, b - 1);
    }
  }

  lemma SmallPowers()
    ensures Pow2(7) == 0x80 && Pow2(8) == 0x100 && Pow2(9) == 0x200
  {
    assert Pow2(4) == 0x10;
  }

  lemma Scaled(s: nat, p: nat)
    ensures p <= 0x80 && s < 0x100_0000 ==> s * p < 0x8000_0000
    ensures p >= 0x100 && s >= 0x80_0000 ==> s * p >= 0x8000_0000
    ensures p >= 0x100 && s >= 0x80_0001 ==> s * p > 0x8000_0000
    ensures p >= 0x200 && s >= 0x80_0000 ==> s * p > 0x8000_0000
  {
    if s >= 0x80_0000 && p >= 0x100 {
      assert s * p >= s * 0x100;
      if p >= 0x200 {
        assert s * p >= s * 0x200;
      }
    }
    if p <= 0x80 {
      assert s * p <= s * 0x80;
    }
  }

  lemma FewQuotients(n: nat, d: nat)
    requires d >= 1
    ensures n / d <= n
  {
    var q, r: int := n / d, n % d;
    assert n == d * q + r;
    Grows(q, d);
  }

  lemma Grows(q: int, d: int)
    requires q >= 0 && d >= 1
    ensures q <= d * q
  {
  }

  /** No rounding moves a value into or out of the range. */
  lemma RangeIsExact(w: Word)
    requires IsFinite(w)
    ensures forall magnitude: nat ::
      Numerator(w) / Denominator(w) <= magnitude <= Numerator(w) / Denominator(w) + (if Denominator(w) == 1 then 0 else 1)
      ==> (FitsInt32(Signed(w, magnitude)) <==> InRange(w))
  {
    hide Pow2;
    var e := Exponent(w);
    if e < 150 {
      FewQuotients(Numerator(w), Denominator(w));
    } else {
      SmallPowers();
      Pow2Grows(if e <= 157 then e - 150 else if e == 158 then 8 else 9, if e <= 157 then 7 else e - 150);
      Scaled(Significand(w), Pow2(e - 150));
    }
  }

  lemma QuotientSteps(n: nat, d: nat)
    requires d >= 1
    ensures HalfAway(n, d) == n / d || HalfAway(n, d) == n / d + 1
    ensures HalfEven(n, d) == n / d || HalfEven(n, d) == n / d + 1
    ensures HalfAway(n, d) == HalfEven(n, d) <==> !(2 * (n % d) == d && n / d % 2 == 0)
    ensures d == 1 ==> HalfAway(n, d) == n / d && HalfEven(n, d) == n / d
  {
  }

  lemma WrapSeparates(a: int, b: int)
    requires FitsInt32(a) && FitsInt32(b)
    ensures Wrap(a) == Wrap(b) <==> a == b
  {
  }

  /** round.w.s gives the interpreter and generated code the same word exactly
      where the operand is in range and not half-way above an even integer, or
      is out of range and the host's cast gives 0x80000000 as well. */
  lemma RoundCastIsExact(fpu: FloatUnit, w: Word)
    ensures RoundCast(fpu, w) == RoundedWord(w, 0)
       <==> (if InRange(w) then !HalfAboveEven(w) else fpu.roundOutOfRange(w) == INVALID_CONVERSION)
  {
    hide Numerator, Denominator, HalfAway, HalfEven;
    var n, d := Numerator(w), Denominator(w);
    QuotientSteps(n, d);
    if IsFinite(w) {
      RangeIsExact(w);
      assert FitsInt32(Signed(w, HalfAway(n, d))) == FitsInt32(Signed(w, HalfEven(n, d))) == InRange(w);
      if InRange(w) {
        WrapSeparates(Signed(w, HalfAway(n, d)), Signed(w, HalfEven(n, d)));
      }
    }
  }

  lemma TruncateCastIsExact(fpu: FloatUnit, w: Word)
    ensures TruncateCast(fpu, w) == RoundedWord(w, 1)
       <==> (InRange(w) || fpu.truncateOutOfRange(w) == INVALID_CONVERSION)
  {
    hide Numerator, Denominator;
    if IsFinite(w) {
      RangeIsExact(w);
      assert FitsInt32(Signed(w, Truncated(Numerator(w), Denominator(w)))) == InRange(w);
    }
  }

  /** 0.5: the interpreter rounds it to 1, generated code to 0. */
  lemma HalfDiffers(fpu: FloatUnit)
    ensures RoundCast(fpu, 0x3f00_0000) == 1 && RoundedWord(0x3f00_0000, 0) == 0
  {
    SmallPowers();
    assert Pow2(16) == 0x80 * 0x200;
    assert Pow2(24) == 0x100_0000;
  }
}
