/** The instruction decoder shared by translator and interpreter
    (include/psprecomp/allegrex_decoder.hpp). */
module Decoder {
  import opened Words
  import opened Vfpu

  datatype Lowering = Native | GuardedNative | RuntimeFallback | Invalid

  datatype Decoded = Decoded(word: Word, op: nat, rs: nat, rt: nat, rd: nat, shift: nat, function_: nat,
                             lowering: Lowering, delayed: bool, likely: bool, call: bool)
  {
    predicate Valid() {
      !lowering.Invalid?
    }
  }

  function Op(word: Word): (r: nat) ensures r < 64 { word / 0x400_0000 }
  function Rs(word: Word): (r: nat) ensures r < 32 { word / 0x20_0000 % 32 }
  function Rt(word: Word): (r: nat) ensures r < 32 { word / 0x1_0000 % 32 }
  function Rd(word: Word): (r: nat) ensures r < 32 { word / 0x800 % 32 }
  function Shift(word: Word): (r: nat) ensures r < 32 { word / 0x40 % 32 }
  function FunctionCode(word: Word): (r: nat) ensures r < 64 { word % 64 }

  predicate ValidSpecial(word: Word) {
    var f := FunctionCode(word);
    if f == 0x00 || f == 0x03 then Rs(word) == 0
    else if f == 0x02 then Rs(word) <= 1
    else if f == 0x04 || f == 0x07 then Shift(word) == 0
    else if f == 0x06 then Shift(word) <= 1
    else 0x08 <= f <= 0x0d || 0x0f <= f <= 0x13 || 0x16 <= f <= 0x1d || 0x20 <= f <= 0x27 || 0x2a <= f <= 0x2f
  }

  predicate ValidRegimm(rt: nat) {
    rt <= 3 || 0x10 <= rt <= 0x13
  }

  predicate RegimmLikely(rt: nat) {
    rt == 0x02 || rt == 0x03 || rt == 0x12 || rt == 0x13
  }

  predicate RegimmLink(rt: nat) {
    0x10 <= rt <= 0x13
  }

  predicate ScalarFloat(word: Word) {
    var f := FunctionCode(word);
    Rs(word) == 0x10 &&
    (f <= 0x07 || 0x0c <= f <= 0x0f || f == 0x11 || f == 0x20 || f == 0x24 || f >= 0x30)
  }

  predicate ValidFloat(word: Word) {
    Rs(word) in {0x00, 0x02, 0x04, 0x06} || ScalarFloat(word) ||
    (Rs(word) == 0x14 && FunctionCode(word) == 0x20)
  }

  predicate ValidSpecial3(word: Word) {
    var f := FunctionCode(word);
    f == 0 || (f == 4 && Rd(word) >= Shift(word)) ||
    (f == 0x20 && Shift(word) in {0x02, 0x03, 0x10, 0x14, 0x18})
  }

  /** Lowering and the delayed-branch, likely and call flags of one word. */
  function Classify(word: Word): (Lowering, bool, bool, bool) {
    var op := Op(word);
    var f := FunctionCode(word);
    if VfpuOpcodeSupported(word) then
      var lowering := if StaticOperation(word) == NoOperation then RuntimeFallback else GuardedNative;
      var branch := op == 0x12 && Rs(word) == 0x08;
      (lowering, branch, branch && Rt(word) / 2 % 2 == 1, false)
    else if op == 0x00 then
      if ValidSpecial(word) then (Native, f == 0x08 || f == 0x09, false, f == 0x09) else (Invalid, false, false, false)
    else if op == 0x01 then
      var rt := Rt(word);
      if ValidRegimm(rt) then (Native, true, RegimmLikely(rt), RegimmLink(rt)) else (Invalid, false, false, false)
    else if op == 0x02 || op == 0x03 then (Native, true, false, op == 0x03)
    else if 0x04 <= op <= 0x07 then (Native, true, false, false)
    else if 0x08 <= op <= 0x0f then (Native, false, false, false)
    else if op == 0x11 then
      if ValidFloat(word) then (Native, false, false, false)
      else if Rs(word) == 0x08 then (Native, true, Rt(word) / 2 % 2 == 1, false)
      else (Invalid, false, false, false)
    else if 0x14 <= op <= 0x17 then (Native, true, true, false)
    else if op == 0x1c then (if f in {0x20, 0x21, 0x2c, 0x2d} then Native else Invalid, false, false, false)
    else if op == 0x1f then (if ValidSpecial3(word) then Native else Invalid, false, false, false)
    else if 0x20 <= op <= 0x26 || 0x28 <= op <= 0x2b || op in {0x2e, 0x2f, 0x30, 0x31, 0x38, 0x39} then
      (Native, false, false, false)
    else (Invalid, false, false, false)
  }

  function Decode(word: Word): Decoded {
    var (lowering, delayed, likely, call) := Classify(word);
    Decoded(word, Op(word), Rs(word), Rt(word), Rd(word), Shift(word), FunctionCode(word),
            lowering, delayed, likely, call)
  }

  /** src/emitter/format.cpp: a word that starts a delayed branch. */
  predicate StartsDelayedBranch(word: Word) {
    Decode(word).delayed
  }

  predicate NeedsPostDelayEntry(word: Word) {
    StartsDelayedBranch(word)
  }
}
