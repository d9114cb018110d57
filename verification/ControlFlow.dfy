/** Static discovery of block entries (src/emitter/analysis.cpp) against what the
    interpreter can do next. */
module ControlFlow {
  import opened Wrappers
  import opened Words
  import opened GuestMachine
  import opened Vfpu
  import opened Decoder
  import opened ElfImage
  import opened RelocationApply
  import Alignment
  import I = Interpreter

  // ----- targets -----

  /** The target segment's address for every J or JAL that a R_MIPS_26 patches;
      a later record for the same word wins. */
  function JumpBasesFrom(image: Image, rs: seq<Relocation>, bases: map<Word, Word>): map<Word, Word>
    decreases |rs|
  {
    if rs == [] then bases
    else
      var r := rs[0];
      var patch, target := FindSegment(image.segments, r.patchSegment), FindSegment(image.segments, r.targetSegment);
      JumpBasesFrom(image, rs[1..],
        if r.kind == 4 && patch.Some? && target.Some? then bases[Add(patch.value.address, r.offset) := target.value.address]
        else bases)
  }

  /** The record patches the word at `pc` with R_MIPS_26, and both its segments
      are known. */
  predicate GivesBase(image: Image, r: Relocation, pc: Word) {
    var patch := FindSegment(image.segments, r.patchSegment);
    r.kind == 4 && patch.Some? && FindSegment(image.segments, r.targetSegment).Some? &&
    Add(patch.value.address, r.offset) == pc
  }

  predicate LastGivingBase(image: Image, rs: seq<Relocation>, i: nat, pc: Word) {
    i < |rs| && GivesBase(image, rs[i], pc) && forall j :: i < j < |rs| ==> !GivesBase(image, rs[j], pc)
  }

  /** `pc` has a base exactly if some record gives it one, and that of the last
      such record counts. */
  ghost predicate HoldsLastBases(image: Image, rs: seq<Relocation>, bases: map<Word, Word>) {
    (forall pc: Word :: pc in bases <==> exists r :: r in rs && GivesBase(image, r, pc)) &&
    (forall i: nat, pc: Word :: LastGivingBase(image, rs, i, pc) ==>
      pc in bases && bases[pc] == FindSegment(image.segments, rs[i].targetSegment).value.address)
  }

  lemma BasesStep(image: Image, rs: seq<Relocation>, i: nat, bases: map<Word, Word>, next: map<Word, Word>)
    requires i < |rs| && HoldsLastBases(image, rs[..i], bases)
    requires var patch := FindSegment(image.segments, rs[i].patchSegment);
      var target := FindSegment(image.segments, rs[i].targetSegment);
      next == if rs[i].kind == 4 && patch.Some? && target.Some?
              then bases[Add(patch.value.address, rs[i].offset) := target.value.address] else bases
    ensures HoldsLastBases(image, rs[..i + 1], next)
  {
    hide FindSegment;
    var before, after := rs[..i], rs[..i + 1];
    assert after == before + [rs[i]];
    forall pc: Word ensures pc in next <==> exists r :: r in after && GivesBase(image, r, pc) {
      assert rs[i] in after;
      assert forall r :: r in after <==> r in before || r == rs[i];
      if pc in bases {
        var r :| r in before && GivesBase(image, r, pc);
        assert r in after && pc in next;
      }
    }
    forall k: nat, pc: Word | LastGivingBase(image, after, k, pc)
      ensures pc in next && next[pc] == FindSegment(image.segments, after[k].targetSegment).value.address
    {
      if k < i {
        assert after[i] == rs[i] && !GivesBase(image, rs[i], pc);
        assert LastGivingBase(image, before, k, pc);
      }
    }
  }

  lemma {:induction false} LastBasesFrom(image: Image, rs: seq<Relocation>, i: nat, bases: map<Word, Word>)
    requires i <= |rs| && HoldsLastBases(image, rs[..i], bases)
    ensures HoldsLastBases(image, rs, JumpBasesFrom(image, rs[i..], bases))
    decreases |rs| - i
  {
    hide HoldsLastBases, FindSegment;
    if i < |rs| {
      var patch, target := FindSegment(image.segments, rs[i].patchSegment), FindSegment(image.segments, rs[i].targetSegment);
      var next := if rs[i].kind == 4 && patch.Some? && target.Some?
                  then bases[Add(patch.value.address, rs[i].offset) := target.value.address] else bases;
      BasesStep(image, rs, i, bases, next);
      assert rs[i..][1..] == rs[i + 1..];
      LastBasesFrom(image, rs, i + 1, next);
    } else {
      assert rs[..i] == rs;
    }
  }

  lemma BasesHold(image: Image)
    ensures HoldsLastBases(image, image.relocations, Bases(image))
  {
    assert image.relocations[0..] == image.relocations;
    LastBasesFrom(image, image.relocations, 0, map[]);
  }

  method JumpRelocationBases(image: Image) returns (bases: map<Word, Word>)
    ensures HoldsLastBases(image, image.relocations, bases)
    ensures bases == Bases(image)
  {
    bases := map[];
    for i := 0 to |image.relocations|
      invariant JumpBasesFrom(image, image.relocations[i..], bases) == Bases(image)
    {
      var r := image.relocations[i];
      assert image.relocations[i..][1..] == image.relocations[i + 1..];
      if r.kind == 4 {
        var patch := FindSegment(image.segments, r.patchSegment);
        var target := FindSegment(image.segments, r.targetSegment);
        if patch.Some? && target.Some? {
          bases := bases[Add(patch.value.address, r.offset) := target.value.address];
        }
      }
    }
    BasesHold(image);
  }

  function DirectControlTarget(pc: Word, word: Word, bases: map<Word, Word>, preferred: Word): Option<Word> {
    if !StartsDelayedBranch(word) then None
    else if Op(word) == 0 then None
    else if Op(word) == 0x02 || Op(word) == 0x03 then
      var field := if pc in bases then (word % 0x400_0000 + bases[pc] / 4) % 0x400_0000 else word % 0x400_0000;
      var next := Add(Add(pc, preferred), 4);
      Some(Sub(next - next % 0x1000_0000 + field * 4, preferred))
    else Some(BranchTarget(pc, word))
  }

  // ----- the entry set -----

  /** What the caller passes besides the image: the entry point, the shard size,
      the code map's function starts and block entries, and the loaded bytes. */
  datatype Inputs = Inputs(entry: Word, shardSize: Word, mapped: seq<Word>, memory: seq<Byte>)

  predicate Usable(image: Image, inputs: Inputs) {
    inputs.shardSize > 0 && WholeWords(image) &&
    forall s :: s in image.sections ==> s.address + |s.bytes| + inputs.shardSize < TWO32
  }

  function Added(image: Image, found: set<Word>, address: Word): set<Word> {
    if IsExecutableWord(image, address) then found + {address} else found
  }

  function AddedAll(image: Image, found: set<Word>, addresses: seq<Word>): set<Word>
    decreases |addresses|
  {
    if addresses == [] then found else AddedAll(image, Added(image, found, addresses[0]), addresses[1..])
  }

  function Boundaries(image: Image, found: set<Word>, boundary: nat, end: nat, step: nat): set<Word>
    requires step > 0 && end + step < TWO32
    decreases end - boundary
  {
    if boundary >= end then found
    else Boundaries(image, Added(image, found, boundary), boundary + step, end, step)
  }

  function FirstBoundary(section: Section, step: Word): Word {
    Alignment.AlignUp(section.address, step)
  }

  function SectionStarts(image: Image, found: set<Word>, sections: seq<Section>, step: Word): set<Word>
    requires step > 0 && forall s :: s in sections ==> s.address + |s.bytes| + step < TWO32
    decreases |sections|
  {
    if sections == [] then found
    else
      var s := sections[0];
      var started := Added(image, found, s.address);
      SectionStarts(image, Boundaries(image, started, FirstBoundary(s, step), s.address + |s.bytes|, step), sections[1..], step)
  }

  /** A delayed branch makes its return point and its direct target entries. */
  function AddBranch(image: Image, found: set<Word>, pc: Word, word: Word, bases: map<Word, Word>): set<Word> {
    if !StartsDelayedBranch(word) then found
    else
      var after := if NeedsPostDelayEntry(word) then Added(image, found, Add(pc, 8)) else found;
      match DirectControlTarget(pc, word, bases, image.preferredBase)
      case None => after
      case Some(target) => Added(image, after, target)
  }

  function ScanSection(image: Image, found: set<Word>, section: Section, offset: nat, bases: map<Word, Word>): set<Word>
    requires offset <= |section.bytes| && offset % 4 == 0 && |section.bytes| % 4 == 0
    decreases |section.bytes| - offset
  {
    if offset == |section.bytes| then found
    else
      NextWordFits(offset, |section.bytes|);
      ScanSection(image, AddBranch(image, found, Wrap(section.address + offset), WordAt(section, offset), bases),
                  section, offset + 4, bases)
  }

  function Scan(image: Image, found: set<Word>, sections: seq<Section>, bases: map<Word, Word>): set<Word>
    requires forall s :: s in sections ==> |s.bytes| % 4 == 0
    decreases |sections|
  {
    if sections == [] then found
    else Scan(image, ScanSection(image, found, sections[0], 0, bases), sections[1..], bases)
  }

  /** The image address that a raw word of a fixed-address image means. */
  function RawAddress(image: Image, memory: seq<Byte>, at: nat): Word
    requires at + 4 <= |memory|
  {
    var value := ReadWord(memory, at);
    if image.preferredBase != 0 && value >= image.preferredBase then value - image.preferredBase else value
  }

  /** Every word of a fixed-address image that could be a code pointer. */
  function RawPointers(image: Image, found: set<Word>, memory: seq<Byte>, offset: nat): set<Word>
    decreases |memory| - offset
  {
    if offset + 4 > |memory| then found
    else RawPointers(image, Added(image, found, RawAddress(image, memory, offset)), memory, offset + 4)
  }

  /** Where a relocation record's word lies in the loaded bytes. */
  function LoadedOffset(image: Image, r: Relocation, memory: seq<Byte>): Option<nat> {
    match FindSegment(image.segments, r.patchSegment)
    case None => None
    case Some(patch) =>
      var address := Add(patch.address, r.offset);
      if address + 4 > |memory| then None else Some(address)
  }

  function FirstLow(rs: seq<Relocation>, target: Byte): Option<Relocation> {
    if rs == [] then None
    else if IsPartner(rs[0], target) then Some(rs[0])
    else FirstLow(rs[1..], target)
  }

  /** The address that a HI16 at the head of `rs` and its LO16 materialize. */
  function PairAddress(image: Image, rs: seq<Relocation>, memory: seq<Byte>): Option<Word>
    requires rs != []
  {
    var low := FirstLow(rs[1..], rs[0].targetSegment);
    var target := FindSegment(image.segments, rs[0].targetSegment);
    if rs[0].kind != 5 || low.None? || target.None? then None
    else
      var highAt, lowAt := LoadedOffset(image, rs[0], memory), LoadedOffset(image, low.value, memory);
      if highAt.None? || lowAt.None? || highAt.value + 4 > |memory| || lowAt.value + 4 > |memory| then None
      else Some(Add(FullAddress(ReadWord(memory, highAt.value), ReadWord(memory, lowAt.value)), target.value.address))
  }

  function Pairs(image: Image, found: set<Word>, rs: seq<Relocation>, memory: seq<Byte>): set<Word>
    decreases |rs|
  {
    if rs == [] then found
    else
      var address := PairAddress(image, rs, memory);
      Pairs(image, if address.Some? then Added(image, found, address.value) else found, rs[1..], memory)
  }

  /** The address that a R_MIPS_32 outside code holds. */
  function PointerAddress(image: Image, r: Relocation, memory: seq<Byte>): Option<Word> {
    var at := LoadedOffset(image, r, memory);
    var target := FindSegment(image.segments, r.targetSegment);
    if r.kind != 2 || at.None? || target.None? || at.value >= TWO32 || IsExecutableWord(image, at.value) || at.value + 4 > |memory|
    then None
    else Some(Add(ReadWord(memory, at.value), target.value.address))
  }

  function Pointers(image: Image, found: set<Word>, rs: seq<Relocation>, memory: seq<Byte>): set<Word>
    decreases |rs|
  {
    if rs == [] then found
    else
      var address := PointerAddress(image, rs[0], memory);
      Pointers(image, if address.Some? then Added(image, found, address.value) else found, rs[1..], memory)
  }

  function Bases(image: Image): map<Word, Word> {
    JumpBasesFrom(image, image.relocations, map[])
  }

  function BeforeScan(image: Image, inputs: Inputs): set<Word>
    requires Usable(image, inputs)
  {
    AddedAll(image, SectionStarts(image, Added(image, {}, inputs.entry), image.sections, inputs.shardSize), inputs.mapped)
  }

  function Entries(image: Image, inputs: Inputs): set<Word>
    requires Usable(image, inputs)
  {
    var scanned := Scan(image, BeforeScan(image, inputs), image.sections, Bases(image));
    var raw := if image.relocations == [] then RawPointers(image, scanned, inputs.memory, 0) else scanned;
    Pointers(image, Pairs(image, raw, image.relocations, inputs.memory), image.relocations, inputs.memory)
  }

  // ----- potential_block_entries, loop by loop -----

  method AddSections(image: Image, found: set<Word>, step: Word) returns (result: set<Word>)
    requires step > 0 && forall s :: s in image.sections ==> s.address + |s.bytes| + step < TWO32
    ensures result == SectionStarts(image, found, image.sections, step)
  {
    hide IsExecutableWord, FirstBoundary;
    result := found;
    for i := 0 to |image.sections|
      invariant SectionStarts(image, result, image.sections[i..], step) == SectionStarts(image, found, image.sections, step)
    {
      var section := image.sections[i];
      assert image.sections[i..][1..] == image.sections[i + 1..];
      result := Added(image, result, section.address);
      var end := section.address + |section.bytes|;
      var boundary: nat := FirstBoundary(section, step);
      ghost var started := result;
      while boundary < end
        invariant Boundaries(image, result, boundary, end, step)
               == Boundaries(image, started, FirstBoundary(section, step), end, step)
      {
        result := Added(image, result, boundary);
        boundary := boundary + step;
      }
    }
  }

  method AddSectionBranches(image: Image, found: set<Word>, section: Section, bases: map<Word, Word>) returns (result: set<Word>)
    requires |section.bytes| % 4 == 0
    ensures result == ScanSection(image, found, section, 0, bases)
  {
    hide AddBranch, WordAt;
    result := found;
    var offset := 0;
    while offset < |section.bytes|
      invariant 0 <= offset <= |section.bytes| && offset % 4 == 0
      invariant ScanSection(image, result, section, offset, bases) == ScanSection(image, found, section, 0, bases)
    {
      result := AddBranch(image, result, Wrap(section.address + offset), WordAt(section, offset), bases);
      offset := offset + 4;
    }
  }

  method AddBranches(image: Image, found: set<Word>, bases: map<Word, Word>) returns (result: set<Word>)
    requires WholeWords(image)
    ensures result == Scan(image, found, image.sections, bases)
  {
    hide ScanSection;
    result := found;
    for i := 0 to |image.sections|
      invariant Scan(image, result, image.sections[i..], bases) == Scan(image, found, image.sections, bases)
    {
      assert image.sections[i..][1..] == image.sections[i + 1..];
      result := AddSectionBranches(image, result, image.sections[i], bases);
    }
  }

  method PotentialBlockEntries(image: Image, inputs: Inputs) returns (result: set<Word>)
    requires Usable(image, inputs)
    ensures result == Entries(image, inputs)
  {
    hide Added, Scan, PairAddress, PointerAddress, SectionStarts;
    result := Added(image, {}, inputs.entry);
    result := AddSections(image, result, inputs.shardSize);
    ghost var started := result;
    for i := 0 to |inputs.mapped|
      invariant AddedAll(image, result, inputs.mapped[i..]) == AddedAll(image, started, inputs.mapped)
    {
      assert inputs.mapped[i..][1..] == inputs.mapped[i + 1..];
      result := Added(image, result, inputs.mapped[i]);
    }
    var bases := JumpRelocationBases(image);
    result := AddBranches(image, result, bases);
    if image.relocations == [] {
      ghost var scanned := result;
      var offset := 0;
      while offset + 4 <= |inputs.memory|
        invariant RawPointers(image, result, inputs.memory, offset) == RawPointers(image, scanned, inputs.memory, 0)
        decreases |inputs.memory| - offset
      {
        var value := ReadWord(inputs.memory, offset);
        result := Added(image, result,
          if image.preferredBase != 0 && value >= image.preferredBase then value - image.preferredBase else value);
        offset := offset + 4;
      }
    }
    ghost var raw := result;
    for i := 0 to |image.relocations|
      invariant Pairs(image, result, image.relocations[i..], inputs.memory) == Pairs(image, raw, image.relocations, inputs.memory)
    {
      assert image.relocations[i..][1..] == image.relocations[i + 1..];
      var address := PairAddress(image, image.relocations[i..], inputs.memory);
      if address.Some? {
        result := Added(image, result, address.value);
      }
    }
    ghost var paired := result;
    for i := 0 to |image.relocations|
      invariant Pointers(image, result, image.relocations[i..], inputs.memory) == Pointers(image, paired, image.relocations, inputs.memory)
    {
      assert image.relocations[i..][1..] == image.relocations[i + 1..];
      var address := PointerAddress(image, image.relocations[i], inputs.memory);
      if address.Some? {
        result := Added(image, result, address.value);
      }
    }
  }

  // ----- the scan finds every branch -----

  /** Everything a branch can lead to is found, as far as it is executable. */
  predicate Covers(image: Image, found: set<Word>, pc: Word, word: Word, bases: map<Word, Word>) {
    StartsDelayedBranch(word) ==>
      (IsExecutableWord(image, Add(pc, 8)) ==> Add(pc, 8) in found) &&
      (var target := DirectControlTarget(pc, word, bases, image.preferredBase);
       target.Some? && IsExecutableWord(image, target.value) ==> target.value in found)
  }

  lemma AddBranchCovers(image: Image, found: set<Word>, pc: Word, word: Word, bases: map<Word, Word>)
    ensures found <= AddBranch(image, found, pc, word, bases)
    ensures Covers(image, AddBranch(image, found, pc, word, bases), pc, word, bases)
  {
    hide Decode, DirectControlTarget, IsExecutableWord;
  }

  lemma CoversGrows(image: Image, small: set<Word>, large: set<Word>, pc: Word, word: Word, bases: map<Word, Word>)
    requires small <= large && Covers(image, small, pc, word, bases)
    ensures Covers(image, large, pc, word, bases)
  {
    hide StartsDelayedBranch, DirectControlTarget, IsExecutableWord;
  }

  ghost predicate CoveredAt(image: Image, found: set<Word>, section: Section, at: nat, bases: map<Word, Word>) {
    at + 4 <= |section.bytes| ==> Covers(image, found, Wrap(section.address + at), WordAt(section, at), bases)
  }

  /** Covers, for every word of a section from `offset` on. */
  ghost predicate SectionCovered(image: Image, found: set<Word>, section: Section, offset: nat, bases: map<Word, Word>) {
    forall at: nat :: offset <= at && at % 4 == 0 ==> CoveredAt(image, found, section, at, bases)
  }

  lemma {:induction false} SectionScanCovers(image: Image, found: set<Word>, section: Section, offset: nat, bases: map<Word, Word>)
    requires offset <= |section.bytes| && offset % 4 == 0 && |section.bytes| % 4 == 0
    ensures found <= ScanSection(image, found, section, offset, bases)
    ensures SectionCovered(image, ScanSection(image, found, section, offset, bases), section, offset, bases)
    decreases |section.bytes| - offset
  {
    hide AddBranch, Covers, WordAt;
    if offset < |section.bytes| {
      NextWordFits(offset, |section.bytes|);
      var pc, word := Wrap(section.address + offset), WordAt(section, offset);
      var next := AddBranch(image, found, pc, word, bases);
      AddBranchCovers(image, found, pc, word, bases);
      SectionScanCovers(image, next, section, offset + 4, bases);
      var all := ScanSection(image, next, section, offset + 4, bases);
      CoversGrows(image, next, all, pc, word, bases);
      forall at: nat | offset <= at && at % 4 == 0 ensures CoveredAt(image, all, section, at, bases) {
        if at != offset {
          NextWordFits(offset, at);
        }
      }
    }
  }

  /** Covers, for every word of the given sections. */
  ghost predicate SectionsCovered(image: Image, found: set<Word>, sections: seq<Section>, bases: map<Word, Word>)
    requires forall s :: s in sections ==> |s.bytes| % 4 == 0
  {
    forall s :: s in sections ==> SectionCovered(image, found, s, 0, bases)
  }

  lemma SectionCoveredGrows(image: Image, small: set<Word>, large: set<Word>, section: Section, bases: map<Word, Word>)
    requires small <= large && SectionCovered(image, small, section, 0, bases)
    ensures SectionCovered(image, large, section, 0, bases)
  {
    hide Covers, WordAt;
    forall at: nat | at % 4 == 0 ensures CoveredAt(image, large, section, at, bases) {
      assert CoveredAt(image, small, section, at, bases);
      if at + 4 <= |section.bytes| {
        CoversGrows(image, small, large, Wrap(section.address + at), WordAt(section, at), bases);
      }
    }
  }

  lemma {:induction false} ScanCovers(image: Image, found: set<Word>, sections: seq<Section>, bases: map<Word, Word>)
    requires forall s :: s in sections ==> |s.bytes| % 4 == 0
    ensures found <= Scan(image, found, sections, bases)
    ensures SectionsCovered(image, Scan(image, found, sections, bases), sections, bases)
    decreases |sections|
  {
    hide ScanSection, SectionCovered;
    if sections != [] {
      var next := ScanSection(image, found, sections[0], 0, bases);
      SectionScanCovers(image, found, sections[0], 0, bases);
      ScanCovers(image, next, sections[1..], bases);
      var all := Scan(image, found, sections, bases);
      forall s | s in sections ensures SectionCovered(image, all, s, 0, bases) {
        if s == sections[0] {
          SectionCoveredGrows(image, next, all, s, bases);
        } else {
          assert s in sections[1..];
        }
      }
    }
  }

  lemma {:induction false} LaterPassesGrow(image: Image, found: set<Word>, rs: seq<Relocation>, memory: seq<Byte>)
    ensures found <= Pairs(image, found, rs, memory) && found <= Pointers(image, found, rs, memory)
    decreases |rs|
  {
    hide PairAddress, PointerAddress, IsExecutableWord;
    if rs != [] {
      var pair, pointer := PairAddress(image, rs, memory), PointerAddress(image, rs[0], memory);
      LaterPassesGrow(image, if pair.Some? then Added(image, found, pair.value) else found, rs[1..], memory);
      LaterPassesGrow(image, if pointer.Some? then Added(image, found, pointer.value) else found, rs[1..], memory);
    }
  }

  lemma {:induction false} RawPointersGrow(image: Image, found: set<Word>, memory: seq<Byte>, offset: nat)
    ensures found <= RawPointers(image, found, memory, offset)
    decreases |memory| - offset
  {
    hide IsExecutableWord, ReadWord;
    if offset + 4 <= |memory| {
      RawPointersGrow(image, Added(image, found, RawAddress(image, memory, offset)), memory, offset + 4);
    }
  }

  /** Where a word of the code map comes from. */
  lemma {:induction false} SectionCodeOrigin(section: Section, offset: nat, code: map<Word, Word>, pc: Word) returns (at: nat)
    requires offset <= |section.bytes| && offset % 4 == 0 && |section.bytes| % 4 == 0
    requires pc in SectionCode(section, offset, code)
    requires !(pc in code && SectionCode(section, offset, code)[pc] == code[pc])
    ensures offset <= at < |section.bytes| && at % 4 == 0
    ensures pc == Wrap(section.address + at) && SectionCode(section, offset, code)[pc] == WordAt(section, at)
    decreases |section.bytes| - offset
  {
    hide WordAt;
    NextWordFits(offset, |section.bytes|);
    var here: Word := Wrap(section.address + offset);
    var next := code[here := WordAt(section, offset)];
    if pc in next && SectionCode(section, offset + 4, next)[pc] == next[pc] {
      at := offset;
    } else {
      at := SectionCodeOrigin(section, offset + 4, next, pc);
    }
  }

  lemma {:induction false} CodeOrigin(sections: seq<Section>, code: map<Word, Word>, pc: Word) returns (i: nat, at: nat)
    requires forall s :: s in sections ==> |s.bytes| % 4 == 0
    requires pc in CodeFrom(sections, code) && !(pc in code && CodeFrom(sections, code)[pc] == code[pc])
    ensures i < |sections| && at < |sections[i].bytes| && at % 4 == 0
    ensures pc == Wrap(sections[i].address + at) && CodeFrom(sections, code)[pc] == WordAt(sections[i], at)
    decreases |sections|
  {
    hide WordAt, SectionCode;
    var next := SectionCode(sections[0], 0, code);
    if pc in next && CodeFrom(sections[1..], next)[pc] == next[pc] {
      i := 0;
      at := SectionCodeOrigin(sections[0], 0, code, pc);
    } else {
      i, at := CodeOrigin(sections[1..], next, pc);
      i := i + 1;
    }
  }

  /** Every branch of the image has its return point and its direct target among
      the block entries. */
  lemma EveryBranchCovered(image: Image, inputs: Inputs, pc: Word)
    requires Usable(image, inputs) && pc in Code(image)
    ensures Covers(image, Entries(image, inputs), pc, Code(image)[pc], Bases(image))
  {
    hide Covers, WordAt, Scan, Pairs, Pointers, RawPointers, BeforeScan, CodeFrom, JumpBasesFrom;
    var i, at := CodeOrigin(image.sections, map[], pc);
    var scanned := Scan(image, BeforeScan(image, inputs), image.sections, Bases(image));
    ScanCovers(image, BeforeScan(image, inputs), image.sections, Bases(image));
    RawPointersGrow(image, scanned, inputs.memory, 0);
    var raw := if image.relocations == [] then RawPointers(image, scanned, inputs.memory, 0) else scanned;
    LaterPassesGrow(image, raw, image.relocations, inputs.memory);
    LaterPassesGrow(image, Pairs(image, raw, image.relocations, inputs.memory), image.relocations, inputs.memory);
    NextWordFits(at, |image.sections[i].bytes|);
    assert CoveredAt(image, scanned, image.sections[i], at, Bases(image));
    CoversGrows(image, scanned, Entries(image, inputs), pc, Code(image)[pc], Bases(image));
  }

  // ----- the other passes find what they look for -----

  predicate Listed(image: Image, found: set<Word>, address: Word) {
    IsExecutableWord(image, address) ==> address in found
  }

  lemma {:induction false} AllAreAdded(image: Image, found: set<Word>, addresses: seq<Word>)
    ensures found <= AddedAll(image, found, addresses)
    ensures forall a :: a in addresses ==> Listed(image, AddedAll(image, found, addresses), a)
    decreases |addresses|
  {
    hide IsExecutableWord;
    if addresses != [] {
      AllAreAdded(image, Added(image, found, addresses[0]), addresses[1..]);
      assert forall a :: a in addresses ==> a == addresses[0] || a in addresses[1..];
    }
  }

  lemma {:induction false} BoundariesGrow(image: Image, found: set<Word>, boundary: nat, end: nat, step: nat)
    requires step > 0 && end + step < TWO32
    ensures found <= Boundaries(image, found, boundary, end, step)
    decreases end - boundary
  {
    hide IsExecutableWord;
    if boundary < end {
      BoundariesGrow(image, Added(image, found, boundary), boundary + step, end, step);
    }
  }

  lemma {:induction false} SectionStartsGrow(image: Image, found: set<Word>, sections: seq<Section>, step: Word)
    requires step > 0 && forall s :: s in sections ==> s.address + |s.bytes| + step < TWO32
    ensures found <= SectionStarts(image, found, sections, step)
    decreases |sections|
  {
    hide IsExecutableWord, Boundaries, FirstBoundary;
    if sections != [] {
      var s := sections[0];
      var started := Added(image, found, s.address);
      var next := Boundaries(image, started, FirstBoundary(s, step), s.address + |s.bytes|, step);
      BoundariesGrow(image, started, FirstBoundary(s, step), s.address + |s.bytes|, step);
      SectionStartsGrow(image, next, sections[1..], step);
    }
  }

  lemma {:induction false} RawPointersFound(image: Image, found: set<Word>, memory: seq<Byte>, offset: nat, at: nat)
    requires offset <= at && at + 4 <= |memory| && offset % 4 == 0 && at % 4 == 0
    ensures Listed(image, RawPointers(image, found, memory, offset), RawAddress(image, memory, at))
    decreases at - offset
  {
    hide IsExecutableWord, ReadWord;
    var next := Added(image, found, RawAddress(image, memory, offset));
    if offset == at {
      RawPointersGrow(image, next, memory, offset + 4);
    } else {
      NextWordFits(offset, at);
      RawPointersFound(image, next, memory, offset + 4, at);
    }
  }

  lemma {:induction false} PairsFound(image: Image, found: set<Word>, rs: seq<Relocation>, memory: seq<Byte>, i: nat)
    requires i < |rs| && PairAddress(image, rs[i..], memory).Some?
    ensures Listed(image, Pairs(image, found, rs, memory), PairAddress(image, rs[i..], memory).value)
    decreases i
  {
    hide IsExecutableWord, PairAddress;
    var address := PairAddress(image, rs, memory);
    var next := if address.Some? then Added(image, found, address.value) else found;
    if i == 0 {
      assert rs[0..] == rs;
      LaterPassesGrow(image, next, rs[1..], memory);
    } else {
      assert rs[1..][i - 1..] == rs[i..];
      PairsFound(image, next, rs[1..], memory, i - 1);
    }
  }

  lemma {:induction false} PointersFound(image: Image, found: set<Word>, rs: seq<Relocation>, memory: seq<Byte>, k: nat)
    requires k < |rs| && PointerAddress(image, rs[k], memory).Some?
    ensures Listed(image, Pointers(image, found, rs, memory), PointerAddress(image, rs[k], memory).value)
    decreases k
  {
    hide IsExecutableWord, PointerAddress;
    var address := PointerAddress(image, rs[0], memory);
    var next := if address.Some? then Added(image, found, address.value) else found;
    if k == 0 {
      LaterPassesGrow(image, next, rs[1..], memory);
    } else {
      PointersFound(image, next, rs[1..], memory, k - 1);
    }
  }

  /** Every executable address that some pass comes across is an entry: the entry
      point, the code map's, the pairs, the pointers and the raw words. */
  lemma FoundAreEntries(image: Image, inputs: Inputs)
    requires Usable(image, inputs)
    ensures Listed(image, Entries(image, inputs), inputs.entry)
    ensures forall a :: a in inputs.mapped ==> Listed(image, Entries(image, inputs), a)
    ensures forall i: nat :: i < |image.relocations| && PairAddress(image, image.relocations[i..], inputs.memory).Some? ==>
      Listed(image, Entries(image, inputs), PairAddress(image, image.relocations[i..], inputs.memory).value)
    ensures forall r :: r in image.relocations && PointerAddress(image, r, inputs.memory).Some? ==>
      Listed(image, Entries(image, inputs), PointerAddress(image, r, inputs.memory).value)
    ensures image.relocations == [] ==> forall at: nat :: at + 4 <= |inputs.memory| && at % 4 == 0 ==>
      Listed(image, Entries(image, inputs), RawAddress(image, inputs.memory, at))
  {
    hide IsExecutableWord, PairAddress, PointerAddress, RawAddress, Scan, SectionStarts, JumpBasesFrom;
    var rs, memory := image.relocations, inputs.memory;
    var first := Added(image, {}, inputs.entry);
    var started := SectionStarts(image, first, image.sections, inputs.shardSize);
    SectionStartsGrow(image, first, image.sections, inputs.shardSize);
    AllAreAdded(image, started, inputs.mapped);
    var scanned := Scan(image, BeforeScan(image, inputs), image.sections, Bases(image));
    ScanCovers(image, BeforeScan(image, inputs), image.sections, Bases(image));
    RawPointersGrow(image, scanned, memory, 0);
    var raw := if rs == [] then RawPointers(image, scanned, memory, 0) else scanned;
    var paired := Pairs(image, raw, rs, memory);
    LaterPassesGrow(image, raw, rs, memory);
    LaterPassesGrow(image, paired, rs, memory);
    forall i: nat | i < |rs| && PairAddress(image, rs[i..], memory).Some?
      ensures Listed(image, paired, PairAddress(image, rs[i..], memory).value)
    {
      PairsFound(image, raw, rs, memory, i);
    }
    forall r | r in rs && PointerAddress(image, r, memory).Some?
      ensures Listed(image, Entries(image, inputs), PointerAddress(image, r, memory).value)
    {
      var k :| 0 <= k < |rs| && rs[k] == r;
      PointersFound(image, paired, rs, memory, k);
    }
    if rs == [] {
      forall at: nat | at + 4 <= |memory| && at % 4 == 0
        ensures Listed(image, raw, RawAddress(image, memory, at))
      {
        RawPointersFound(image, scanned, memory, 0, at);
      }
    }
  }
}
