/** What a relocated image contains: every patched word, and the address that a
    HI16 and its LO16 spell together. */
module RelocatedPairs {
  import opened Wrappers
  import opened Words
  import opened ElfImage
  import opened RelocationApply
  import ControlFlow

  predicate Overlap(a: nat, b: nat) {
    a < b + 4 && b < a + 4
  }

  /** Every record patches a word of its own. */
  predicate DistinctWords(rs: seq<Relocation>, segments: seq<Segment>, size: nat) {
    forall i, j ::
      (0 <= i < j < |rs| && PatchOffset(rs[i], segments, size).Some? && PatchOffset(rs[j], segments, size).Some?) ==>
      !Overlap(PatchOffset(rs[i], segments, size).value, PatchOffset(rs[j], segments, size).value)
  }

  predicate Patches(r: Relocation, segments: seq<Segment>, size: nat, at: nat) {
    PatchOffset(r, segments, size).Some? &&
    PatchOffset(r, segments, size).value <= at < PatchOffset(r, segments, size).value + 4
  }

  lemma ReadAfterWrite(memory: seq<Byte>, offset: nat, word: Word, other: nat)
    requires offset + 4 <= |memory| && other + 4 <= |memory|
    ensures ReadWord(WriteWord(memory, offset, word), offset) == word
    ensures !Overlap(offset, other) ==> ReadWord(WriteWord(memory, offset, word), other) == ReadWord(memory, other)
    ensures forall k :: 0 <= k < |memory| && !(offset <= k < offset + 4) ==>
      WriteWord(memory, offset, word)[k] == memory[k]
  {
    BytesRoundTrip(word);
  }

  /** The relocated value of the word that record `r` patches. */
  function NewWord(guestBase: Word, segments: seq<Segment>, r: Relocation, word: Word, low: Word): Word {
    match FindSegment(segments, r.targetSegment)
    case None => word
    case Some(target) =>
      var relocateTo := Add(guestBase, target.address);
      if r.kind == 2 then Add(word, relocateTo)
      else if r.kind == 4 then RelocateJump(word, relocateTo)
      else if r.kind == 5 then RelocateHigh(word, low, relocateTo)
      else if r.kind == 6 then RelocateLow(word, relocateTo)
      else word
  }

  function LowWord(memory: seq<Byte>, segments: seq<Segment>, rs: seq<Relocation>, k: nat): Word
    requires k < |rs|
  {
    var partner := FindPartner(rs[k + 1..], rs[k].targetSegment, segments, |memory|);
    if partner.LowAt? then ReadWord(memory, partner.offset) else 0
  }

  lemma OneWord(memory: seq<Byte>, guestBase: Word, segments: seq<Segment>, r: Relocation, partner: Partner)
    requires partner.LowAt? ==> partner.offset + 4 <= |memory|
    requires ApplyOne(memory, guestBase, segments, r, partner).0 == Success
    ensures PatchOffset(r, segments, |memory|).Some?
    ensures var offset := PatchOffset(r, segments, |memory|).value;
      var low := if partner.LowAt? then ReadWord(memory, partner.offset) else 0;
      ApplyOne(memory, guestBase, segments, r, partner).1
        == WriteWord(memory, offset, NewWord(guestBase, segments, r, ReadWord(memory, offset), low))
  {
    hide WriteWord, RelocateHigh, RelocateLow, RelocateJump, ReadWord;
  }

  lemma FailureKeeps(memory: seq<Byte>, guestBase: Word, segments: seq<Segment>, r: Relocation, partner: Partner)
    requires partner.LowAt? ==> partner.offset + 4 <= |memory|
    ensures var (outcome, next) := ApplyOne(memory, guestBase, segments, r, partner);
      outcome != Success ==> next == memory
  {
    hide WriteWord, RelocateHigh, RelocateLow, RelocateJump, ReadWord, PatchOffset;
  }

  /** Bytes that no record patches keep their value, whatever the outcome. */
  lemma {:induction false} UnpatchedBytesKept(memory: seq<Byte>, guestBase: Word, segments: seq<Segment>, rs: seq<Relocation>, at: nat)
    requires at < |memory|
    requires forall k :: 0 <= k < |rs| ==> !Patches(rs[k], segments, |memory|, at)
    ensures PlainApply(memory, guestBase, segments, rs).1[at] == memory[at]
    decreases |rs|
  {
    hide ApplyOne, FindPartner, PatchOffset;
    if rs != [] {
      var partner := FindPartner(rs[1..], rs[0].targetSegment, segments, |memory|);
      var (outcome, next) := ApplyOne(memory, guestBase, segments, rs[0], partner);
      FailureKeeps(memory, guestBase, segments, rs[0], partner);
      if outcome == Success {
        NextKeeps(memory, guestBase, segments, rs[0], partner, at);
        UnpatchedBytesKept(next, guestBase, segments, rs[1..], at);
      }
    }
  }

  lemma NextKeeps(memory: seq<Byte>, guestBase: Word, segments: seq<Segment>, r: Relocation, partner: Partner, at: nat)
    requires partner.LowAt? ==> partner.offset + 4 <= |memory|
    requires ApplyOne(memory, guestBase, segments, r, partner).0 == Success
    requires at < |memory| && !Patches(r, segments, |memory|, at)
    ensures ApplyOne(memory, guestBase, segments, r, partner).1[at] == memory[at]
  {
    hide PatchOffset, ApplyOne, WriteWord;
    OneWord(memory, guestBase, segments, r, partner);
    var offset := PatchOffset(r, segments, |memory|).value;
    var low := if partner.LowAt? then ReadWord(memory, partner.offset) else 0;
    ReadAfterWrite(memory, offset, NewWord(guestBase, segments, r, ReadWord(memory, offset), low), offset);
  }

  /** Words off the patched one are read as before. */
  lemma NextWordKept(memory: seq<Byte>, guestBase: Word, segments: seq<Segment>, r: Relocation, partner: Partner, other: nat)
    requires partner.LowAt? ==> partner.offset + 4 <= |memory|
    requires ApplyOne(memory, guestBase, segments, r, partner).0 == Success
    requires other + 4 <= |memory|
    requires PatchOffset(r, segments, |memory|).Some? ==> !Overlap(PatchOffset(r, segments, |memory|).value, other)
    ensures ReadWord(ApplyOne(memory, guestBase, segments, r, partner).1, other) == ReadWord(memory, other)
  {
    hide PatchOffset, ApplyOne, WriteWord, ReadWord;
    OneWord(memory, guestBase, segments, r, partner);
    var offset := PatchOffset(r, segments, |memory|).value;
    var low := if partner.LowAt? then ReadWord(memory, partner.offset) else 0;
    ReadAfterWrite(memory, offset, NewWord(guestBase, segments, r, ReadWord(memory, offset), low), other);
  }

  /** Where the partner of a HI16 is found. */
  lemma {:induction false} PartnerIndex(rs: seq<Relocation>, target: Byte, segments: seq<Segment>, size: nat) returns (j: nat)
    requires FindPartner(rs, target, segments, size).LowAt?
    ensures j < |rs| && IsPartner(rs[j], target) && (forall i :: 0 <= i < j ==> !IsPartner(rs[i], target))
    ensures PatchOffset(rs[j], segments, size) == Some(FindPartner(rs, target, segments, size).offset)
  {
    hide PatchOffset;
    if IsPartner(rs[0], target) {
      j := 0;
    } else {
      var k := PartnerIndex(rs[1..], target, segments, size);
      j := k + 1;
    }
  }

  lemma TailDistinct(rs: seq<Relocation>, segments: seq<Segment>, size: nat)
    requires rs != [] && DistinctWords(rs, segments, size)
    ensures DistinctWords(rs[1..], segments, size)
  {
    hide PatchOffset;
    forall i, j | 0 <= i < j < |rs| - 1 && PatchOffset(rs[1..][i], segments, size).Some? && PatchOffset(rs[1..][j], segments, size).Some?
      ensures !Overlap(PatchOffset(rs[1..][i], segments, size).value, PatchOffset(rs[1..][j], segments, size).value)
    {
      assert rs[1..][i] == rs[i + 1] && rs[1..][j] == rs[j + 1];
    }
  }

  lemma {:induction false} FirstWordStays(memory: seq<Byte>, guestBase: Word, segments: seq<Segment>, rs: seq<Relocation>, other: nat)
    requires other + 4 <= |memory|
    requires forall k :: 0 <= k < |rs| && PatchOffset(rs[k], segments, |memory|).Some? ==>
      !Overlap(PatchOffset(rs[k], segments, |memory|).value, other)
    ensures PlainApply(memory, guestBase, segments, rs).0 == Success ==>
      ReadWord(PlainApply(memory, guestBase, segments, rs).1, other) == ReadWord(memory, other)
    decreases |rs|
  {
    hide ApplyOne, FindPartner, PatchOffset, ReadWord;
    if rs != [] {
      var partner := FindPartner(rs[1..], rs[0].targetSegment, segments, |memory|);
      var (outcome, next) := ApplyOne(memory, guestBase, segments, rs[0], partner);
      if outcome == Success {
        NextWordKept(memory, guestBase, segments, rs[0], partner, other);
        FirstWordStays(next, guestBase, segments, rs[1..], other);
      }
    }
  }

  /** After a successful run over distinct words, word k is its own original
      word relocated, a HI16 with the original word of its partner. */
  lemma {:induction false} EveryWordRelocated(memory: seq<Byte>, guestBase: Word, segments: seq<Segment>, rs: seq<Relocation>, k: nat)
    requires k < |rs| && DistinctWords(rs, segments, |memory|)
    requires PlainApply(memory, guestBase, segments, rs).0 == Success
    ensures PatchOffset(rs[k], segments, |memory|).Some?
    ensures var offset := PatchOffset(rs[k], segments, |memory|).value;
      ReadWord(PlainApply(memory, guestBase, segments, rs).1, offset)
        == NewWord(guestBase, segments, rs[k], ReadWord(memory, offset), LowWord(memory, segments, rs, k))
    decreases |rs|
  {
    hide ApplyOne, PatchOffset, ReadWord, WriteWord, NewWord, FindPartner;
    var partner := FindPartner(rs[1..], rs[0].targetSegment, segments, |memory|);
    var (outcome, next) := ApplyOne(memory, guestBase, segments, rs[0], partner);
    OneWord(memory, guestBase, segments, rs[0], partner);
    var first := PatchOffset(rs[0], segments, |memory|).value;
    if k == 0 {
      ReadAfterWrite(memory, first, NewWord(guestBase, segments, rs[0], ReadWord(memory, first), LowWord(memory, segments, rs, 0)), first);
      FirstWordStays(next, guestBase, segments, rs[1..], first);
    } else {
      TailDistinct(rs, segments, |memory|);
      EveryWordRelocated(next, guestBase, segments, rs[1..], k - 1);
      NextWordKept(memory, guestBase, segments, rs[0], partner, PatchOffset(rs[k], segments, |memory|).value);
      assert rs[1..][k..] == rs[k + 1..];
      if FindPartner(rs[k + 1..], rs[k].targetSegment, segments, |memory|).LowAt? {
        var j := PartnerIndex(rs[k + 1..], rs[k].targetSegment, segments, |memory|);
        assert rs[k + 1..][j] == rs[k + 1 + j];
        NextWordKept(memory, guestBase, segments, rs[0], partner, PatchOffset(rs[k + 1 + j], segments, |memory|).value);
      }
    }
  }

  /** The carry of the low half is what + 0x8000 accounts for. */
  lemma HalvesRecombine(high: Word, low: Word, relocateTo: Word)
    ensures FullAddress(RelocateHigh(high, low, relocateTo), RelocateLow(low, relocateTo))
         == Add(FullAddress(high, low), relocateTo)
    ensures RelocateHigh(high, low, relocateTo) / 0x1_0000 == high / 0x1_0000
    ensures RelocateLow(low, relocateTo) / 0x1_0000 == low / 0x1_0000
  {
    hide SignExtend16;
    var full: Word := Add(FullAddress(high, low), relocateTo);
    var newHigh: int := Add(full, 0x8000) / 0x1_0000;
    var newLow: int := (SignExtend16(low) + relocateTo) % 0x1_0000;
    TopHalfKept(high, newHigh);
    TopHalfKept(low, newLow);
    LowHalf(high % 0x1_0000, SignExtend16(low), relocateTo);
    Recombine(full, newHigh, newLow);
    LowHalfDecides(RelocateLow(low, relocateTo), newLow);
    assert (newHigh * 0x1_0000) % TWO32 == newHigh * 0x1_0000;
  }

  lemma LowHalfDecides(a: Word, b: Word)
    requires a % 0x1_0000 == b % 0x1_0000
    ensures SignExtend16(a) == SignExtend16(b)
  {
  }

  lemma TopHalfKept(word: int, half: int)
    requires 0 <= half < 0x1_0000
    ensures (word - word % 0x1_0000 + half) % 0x1_0000 == half
    ensures (word - word % 0x1_0000 + half) / 0x1_0000 == word / 0x1_0000
  {
  }

  lemma LowHalf(high: int, low: int, relocateTo: int)
    requires 0 <= high < 0x1_0000
    ensures (((high * 0x1_0000 + low) % TWO32 + relocateTo) % TWO32) % 0x1_0000 == (low + relocateTo) % 0x1_0000
  {
    var a := (high * 0x1_0000 + low) / TWO32;
    var b := ((high * 0x1_0000 + low) % TWO32 + relocateTo) / TWO32;
    var q := high - 0x1_0000 * (a + b);
    assert ((high * 0x1_0000 + low) % TWO32 + relocateTo) % TWO32 == low + relocateTo + 0x1_0000 * q;
    ModShift(low + relocateTo, q);
  }

  lemma ModShift(x: int, q: int)
    ensures (x + 0x1_0000 * q) % 0x1_0000 == x % 0x1_0000
  {
  }

  lemma Recombine(full: Word, newHigh: int, newLow: int)
    requires newHigh == Add(full, 0x8000) / 0x1_0000 && newLow == full % 0x1_0000
    ensures Add((newHigh * 0x1_0000) % TWO32, SignExtend16(newLow)) == full
  {
    if full + 0x8000 >= TWO32 {
      assert newHigh == 0;
    } else if newLow >= 0x8000 {
      assert newHigh == full / 0x1_0000 + 1;
    } else {
      assert newHigh == full / 0x1_0000;
    }
  }

  /** For every HI16 and the first LO16 of its target segment behind it, the
      relocated halves spell the original address plus guest base and target
      address; opcode halves stay. */
  lemma PairsSpellTheAddress(memory: seq<Byte>, guestBase: Word, segments: seq<Segment>, rs: seq<Relocation>, i: nat, j: nat)
    requires i < j < |rs| && rs[i].kind == 5 && DistinctWords(rs, segments, |memory|)
    requires IsPartner(rs[j], rs[i].targetSegment)
    requires forall k :: i < k < j ==> !IsPartner(rs[k], rs[i].targetSegment)
    requires PlainApply(memory, guestBase, segments, rs).0 == Success
    ensures PatchOffset(rs[i], segments, |memory|).Some? && PatchOffset(rs[j], segments, |memory|).Some?
    ensures FindSegment(segments, rs[i].targetSegment).Some?
    ensures var high, low := PatchOffset(rs[i], segments, |memory|).value, PatchOffset(rs[j], segments, |memory|).value;
      var out := PlainApply(memory, guestBase, segments, rs).1;
      var target := FindSegment(segments, rs[i].targetSegment).value;
      FullAddress(ReadWord(out, high), ReadWord(out, low))
        == Add(guestBase, Add(FullAddress(ReadWord(memory, high), ReadWord(memory, low)), target.address)) &&
      ReadWord(out, high) / 0x1_0000 == ReadWord(memory, high) / 0x1_0000 &&
      ReadWord(out, low) / 0x1_0000 == ReadWord(memory, low) / 0x1_0000
  {
    hide ReadWord, PatchOffset, RelocateHigh, RelocateLow, FullAddress, PlainApply, DistinctWords, FindPartner;
    EveryWordRelocated(memory, guestBase, segments, rs, i);
    EveryWordRelocated(memory, guestBase, segments, rs, j);
    PartnerIs(rs, i, j, segments, |memory|);
    TargetKnown(memory, guestBase, segments, rs, i);
    var high := ReadWord(memory, PatchOffset(rs[i], segments, |memory|).value);
    var low := ReadWord(memory, PatchOffset(rs[j], segments, |memory|).value);
    var target := FindSegment(segments, rs[i].targetSegment).value;
    HalvesRecombine(high, low, Add(guestBase, target.address));
    Regroup(FullAddress(high, low), guestBase, target.address);
  }

  lemma {:induction false} FirstLowIs(rs: seq<Relocation>, target: Byte, j: nat)
    requires j < |rs| && IsPartner(rs[j], target)
    requires forall k :: 0 <= k < j ==> !IsPartner(rs[k], target)
    ensures ControlFlow.FirstLow(rs, target) == Some(rs[j])
  {
    if j > 0 {
      FirstLowIs(rs[1..], target, j - 1);
    }
  }

  /** The word a record patches lies where static discovery reads it. */
  lemma SameOffset(image: Image, r: Relocation, memory: seq<Byte>)
    requires |memory| <= TWO32 && PatchOffset(r, image.segments, |memory|).Some?
    ensures ControlFlow.LoadedOffset(image, r, memory) == PatchOffset(r, image.segments, |memory|)
  {
  }

  /** Static discovery (src/emitter/analysis.cpp) finds the address of every such
      pair, and at run time the relocated pair spells it above the guest base. */
  lemma PairsMeetDiscovery(memory: seq<Byte>, guestBase: Word, image: Image, i: nat, j: nat)
    requires var rs := image.relocations;
      i < j < |rs| && rs[i].kind == 5 && DistinctWords(rs, image.segments, |memory|) &&
      IsPartner(rs[j], rs[i].targetSegment) && forall k :: i < k < j ==> !IsPartner(rs[k], rs[i].targetSegment)
    requires |memory| <= TWO32 && PlainApply(memory, guestBase, image.segments, image.relocations).0 == Success
    ensures var rs := image.relocations;
      PatchOffset(rs[i], image.segments, |memory|).Some? && PatchOffset(rs[j], image.segments, |memory|).Some?
    ensures var rs := image.relocations;
      var out := PlainApply(memory, guestBase, image.segments, rs).1;
      var high, low := PatchOffset(rs[i], image.segments, |memory|).value, PatchOffset(rs[j], image.segments, |memory|).value;
      var found := ControlFlow.PairAddress(image, rs[i..], memory);
      found.Some? && FullAddress(ReadWord(out, high), ReadWord(out, low)) == Add(guestBase, found.value)
  {
    hide ReadWord, PatchOffset, FullAddress, PlainApply, DistinctWords, ControlFlow.LoadedOffset;
    var rs := image.relocations;
    PairsSpellTheAddress(memory, guestBase, image.segments, rs, i, j);
    SameOffset(image, rs[i], memory);
    SameOffset(image, rs[j], memory);
    FirstLowIs(rs[i + 1..], rs[i].targetSegment, j - i - 1);
    assert rs[i..][1..] == rs[i + 1..];
  }

  lemma Regroup(a: Word, b: Word, c: Word)
    ensures Add(a, Add(b, c)) == Add(b, Add(a, c))
  {
  }

  lemma {:induction false} PartnerIs(rs: seq<Relocation>, i: nat, j: nat, segments: seq<Segment>, size: nat)
    requires i < j < |rs| && IsPartner(rs[j], rs[i].targetSegment)
    requires forall k :: i < k < j ==> !IsPartner(rs[k], rs[i].targetSegment)
    requires PatchOffset(rs[j], segments, size).Some?
    ensures FindPartner(rs[i + 1..], rs[i].targetSegment, segments, size)
         == LowAt(PatchOffset(rs[j], segments, size).value)
  {
    SkipTo(rs[i + 1..], rs[i].targetSegment, segments, size, j - i - 1);
  }

  lemma {:induction false} SkipTo(rs: seq<Relocation>, target: Byte, segments: seq<Segment>, size: nat, j: nat)
    requires j < |rs| && IsPartner(rs[j], target)
    requires forall k :: 0 <= k < j ==> !IsPartner(rs[k], target)
    ensures FindPartner(rs, target, segments, size) == PartnerAt(rs[j], segments, size)
  {
    hide PartnerAt;
    if j > 0 {
      SkipTo(rs[1..], target, segments, size, j - 1);
    }
  }

  /** A successful run found every record's target segment. */
  lemma {:induction false} TargetKnown(memory: seq<Byte>, guestBase: Word, segments: seq<Segment>, rs: seq<Relocation>, k: nat)
    requires k < |rs| && PlainApply(memory, guestBase, segments, rs).0 == Success
    ensures FindSegment(segments, rs[k].targetSegment).Some?
    decreases |rs|
  {
    hide PatchOffset, FindPartner, RelocateHigh, RelocateLow, RelocateJump, WriteWord, ReadWord;
    if k > 0 {
      var partner := FindPartner(rs[1..], rs[0].targetSegment, segments, |memory|);
      TargetKnown(ApplyOne(memory, guestBase, segments, rs[0], partner).1, guestBase, segments, rs[1..], k - 1);
    }
  }
}
