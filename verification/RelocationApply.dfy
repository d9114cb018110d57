/** Applying PSP relocations to a loaded image: from plain records and from the
    compact stream (include/psprecomp/relocation.hpp). */
module RelocationApply {
  import opened Wrappers
  import opened Words
  import opened ElfImage
  import opened RelocationCodec

  datatype Outcome = Success | InvalidSegment | InvalidPatch | InvalidStream | MissingLo16 | UnsupportedType

  // ----- the decoder object -----

  class CompactRelocationDecoder {
    const bytes: seq<Byte>
    var cursor: nat
    var decoded: nat
    var previousOffsets: Table
    var kind: Byte
    var patchSegment: Byte
    var targetSegment: Byte
    var hasMetadata: bool
    var valid: bool

    ghost predicate Inside()
      reads this
    {
      cursor <= |bytes|
    }

    function Remembered(): Context
      reads this
    {
      Context(previousOffsets, if hasMetadata then Some(Meta(kind, patchSegment, targetSegment)) else None)
    }

    constructor (bytes: seq<Byte>)
      ensures this.bytes == bytes && cursor == 0 && decoded == 0 && valid && Remembered() == START
    {
      this.bytes := bytes;
      cursor, decoded := 0, 0;
      previousOffsets := seq(256, _ => 0);
      kind, patchSegment, targetSegment := 0, 0, 0;
      hasMetadata, valid := false, true;
    }

    /** The copy that the HI16 look-ahead works on. */
    constructor Copy(other: CompactRelocationDecoder)
      ensures bytes == other.bytes && cursor == other.cursor && decoded == other.decoded
      ensures valid == other.valid && Remembered() == other.Remembered()
    {
      bytes := other.bytes;
      cursor, decoded := other.cursor, other.decoded;
      previousOffsets := other.previousOffsets;
      kind, patchSegment, targetSegment := other.kind, other.patchSegment, other.targetSegment;
      hasMetadata, valid := other.hasMetadata, other.valid;
    }

    method ReadTag() returns (ok: bool, tag: nat)
      requires Inside()
      modifies this`cursor
      ensures Inside() && cursor >= old(cursor)
      ensures match ReadLeb(bytes[old(cursor)..], 9)
        case None => !ok
        case Some((value, used)) => ok && tag == value && cursor == old(cursor) + used
    {
      tag := 0;
      var shift: nat, scale: nat := 0, 1;
      ghost var start := cursor;
      ghost var i := 0;
      while true
        invariant Inside() && cursor == start + i && i <= 9 && shift == 7 * i
        invariant Continues(bytes[start..], bytes[cursor..], i, tag, scale)
        decreases 9 - i
      {
        hide Continues;
        if cursor >= |bytes| || shift >= 63 {
          Stops(bytes[start..], bytes[cursor..], i, tag, scale);
          return false, 0;
        }
        var byte: nat := bytes[cursor];
        assert bytes[cursor..][1..] == bytes[cursor + 1..];
        Continued(bytes[start..], bytes[cursor..], i, tag, scale);
        cursor := cursor + 1;
        tag := tag + (byte % 128) * scale;
        if byte < 128 {
          return true, tag;
        }
        scale := scale * 128;
        shift := shift + 7;
        i := i + 1;
      }
    }

    method ReadMetadata() returns (ok: bool)
      requires Inside()
      modifies this`cursor, this`kind, this`patchSegment, this`targetSegment, this`hasMetadata
      ensures Inside() && cursor >= old(cursor)
      ensures match ReadMeta(bytes[old(cursor)..])
        case None => !ok
        case Some((meta, used)) =>
          ok && cursor == old(cursor) + used && Remembered() == Context(previousOffsets, Some(meta))
    {
      if cursor >= |bytes| {
        return false;
      }
      var packed := bytes[cursor];
      cursor := cursor + 1;
      if packed != 0xff {
        kind, patchSegment, targetSegment := packed % 16, packed / 16 % 4, packed / 64;
      } else {
        if |bytes| - cursor < 3 {
          return false;
        }
        kind, patchSegment, targetSegment := bytes[cursor], bytes[cursor + 1], bytes[cursor + 2];
        cursor := cursor + 3;
      }
      hasMetadata := true;
      return true;
    }

    /** Reads the next record; a failure leaves the decoder invalid. */
    method Next() returns (ok: bool, record: Relocation)
      requires Inside()
      modifies this
      ensures Inside() && cursor >= old(cursor) && decoded == old(decoded)
      ensures match DecodeOne(bytes[old(cursor)..], old(Remembered()))
        case None => !ok && !valid
        case Some(step) =>
          ok && record == step.record && cursor == old(cursor) + step.used &&
          Remembered() == step.context && valid == old(valid)
    {
      record := Relocation(0, 0, 0, 0);
      ghost var start := cursor;
      if cursor >= |bytes| {
        valid := false;
        return false, record;
      }
      var first := bytes[cursor];
      cursor := cursor + 1;
      assert bytes[start..][1..] == bytes[cursor..];
      var delta: int;
      if first != 0xff {
        var meta := ShortMeta(first);
        kind, patchSegment, targetSegment := meta.kind, meta.patch, meta.target;
        delta := ShortDelta(first);
        hasMetadata := true;
      } else {
        var found, tag := ReadTag();
        if !found {
          valid := false;
          return false, record;
        }
        assert bytes[start..][1 + (cursor - start - 1)..] == bytes[cursor..];
        if tag % 2 == 1 {
          var complete := ReadMetadata();
          if !complete {
            valid := false;
            return false, record;
          }
        }
        if !hasMetadata {
          valid := false;
          return false, record;
        }
        delta := Unzigzag(tag / 2);
      }
      var nextOffset := previousOffsets[patchSegment] + delta;
      if nextOffset < 0 || nextOffset > 0xffff_ffff {
        valid := false;
        return false, record;
      }
      previousOffsets := previousOffsets[patchSegment := nextOffset];
      record := Relocation(nextOffset, kind, patchSegment, targetSegment);
      return true, record;
    }
  }

  /** Having read `i` bytes worth `tag`, the next one counts for `scale`. */
  ghost predicate Continues(all: seq<Byte>, rest: seq<Byte>, i: nat, tag: nat, scale: nat)
    requires i <= 9
  {
    match ReadLeb(rest, 9 - i)
    case None => ReadLeb(all, 9) == None
    case Some((high, used)) => ReadLeb(all, 9) == Some((tag + scale * high, i + used))
  }

  lemma Stops(all: seq<Byte>, rest: seq<Byte>, i: nat, tag: nat, scale: nat)
    requires i <= 9 && Continues(all, rest, i, tag, scale) && (rest == [] || i == 9)
    ensures ReadLeb(all, 9) == None
  {
  }

  lemma Continued(all: seq<Byte>, rest: seq<Byte>, i: nat, tag: nat, scale: nat)
    requires i < 9 && rest != [] && Continues(all, rest, i, tag, scale)
    ensures rest[0] < 128 ==> ReadLeb(all, 9) == Some((tag + rest[0] % 128 * scale, i + 1))
    ensures rest[0] >= 128 ==> Continues(all, rest[1..], i + 1, tag + rest[0] % 128 * scale, scale * 128)
  {
    if rest[0] >= 128 {
      var after := ReadLeb(rest[1..], 8 - i);
      if after.Some? {
        ScaleStep(tag, scale, rest[0] - 128, after.value.0);
      }
    }
  }

  lemma ScaleStep(tag: int, scale: int, low: int, high: int)
    ensures tag + scale * (low + 128 * high) == (tag + low * scale) + (scale * 128) * high
  {
    assert scale * (low + 128 * high) == scale * low + scale * (128 * high);
    assert scale * (128 * high) == (scale * 128) * high;
  }

  // ----- what one record does -----

  /** Offset in memory of the word a record patches. */
  function PatchOffset(r: Relocation, segments: seq<Segment>, size: nat): (o: Option<nat>)
    ensures o.Some? ==> o.value + 4 <= size
  {
    match FindSegment(segments, r.patchSegment)
    case None => None
    case Some(segment) =>
      if r.offset + 4 > segment.memorySize || segment.address + r.offset + 4 > size then None
      else Some(segment.address + r.offset)
  }

  function WriteWord(memory: seq<Byte>, offset: nat, word: Word): (r: seq<Byte>)
    requires offset + 4 <= |memory|
    ensures |r| == |memory|
  {
    memory[offset := ByteOf(word, 0)][offset + 1 := ByteOf(word, 1)]
          [offset + 2 := ByteOf(word, 2)][offset + 3 := ByteOf(word, 3)]
  }

  function RelocateJump(word: Word, relocateTo: Word): Word {
    word - word % 0x400_0000 + (word % 0x400_0000 + relocateTo / 4) % 0x400_0000
  }

  function FullAddress(high: Word, low: Word): Word {
    Add(high % 0x1_0000 * 0x1_0000, SignExtend16(low))
  }

  function RelocateHigh(word: Word, low: Word, relocateTo: Word): Word {
    word - word % 0x1_0000 + Add(Add(FullAddress(word, low), relocateTo), 0x8000) / 0x1_0000
  }

  function RelocateLow(word: Word, relocateTo: Word): Word {
    word - word % 0x1_0000 + (SignExtend16(word) + relocateTo) % 0x1_0000
  }

  /** What the search for the partner of a HI16 ends with. */
  datatype Partner = LowAt(offset: nat) | LowInvalid | LowMissing | LowUnreadable

  function ApplyOne(memory: seq<Byte>, guestBase: Word, segments: seq<Segment>, r: Relocation, partner: Partner)
    : (res: (Outcome, seq<Byte>))
    requires partner.LowAt? ==> partner.offset + 4 <= |memory|
    ensures |res.1| == |memory|
  {
    match FindSegment(segments, r.targetSegment)
    case None => (InvalidSegment, memory)
    case Some(target) =>
      match PatchOffset(r, segments, |memory|)
      case None => (InvalidPatch, memory)
      case Some(offset) =>
        var relocateTo := Add(guestBase, target.address);
        var word := ReadWord(memory, offset);
        if r.kind == 0 then (Success, WriteWord(memory, offset, word))
        else if r.kind == 2 then (Success, WriteWord(memory, offset, Add(word, relocateTo)))
        else if r.kind == 4 then (Success, WriteWord(memory, offset, RelocateJump(word, relocateTo)))
        else if r.kind == 5 then
          match partner
          case LowUnreadable => (InvalidStream, memory)
          case LowInvalid => (InvalidPatch, memory)
          case LowMissing => (MissingLo16, memory)
          case LowAt(low) => (Success, WriteWord(memory, offset, RelocateHigh(word, ReadWord(memory, low), relocateTo)))
        else if r.kind == 6 then (Success, WriteWord(memory, offset, RelocateLow(word, relocateTo)))
        else (UnsupportedType, memory)
  }

  /** Only a HI16 looks for a partner. */
  lemma PartnerOnlyForHigh(memory: seq<Byte>, guestBase: Word, segments: seq<Segment>, r: Relocation, p: Partner, q: Partner)
    requires p.LowAt? ==> p.offset + 4 <= |memory|
    requires q.LowAt? ==> q.offset + 4 <= |memory|
    ensures r.kind != 5 || p == q ==>
      ApplyOne(memory, guestBase, segments, r, p) == ApplyOne(memory, guestBase, segments, r, q)
  {
    hide WriteWord, RelocateHigh;
  }

  // ----- from plain records -----

  predicate IsPartner(r: Relocation, target: Byte) {
    r.kind == 6 && r.targetSegment == target
  }

  function PartnerAt(r: Relocation, segments: seq<Segment>, size: nat): (p: Partner)
    ensures p.LowAt? ==> p.offset + 4 <= size
  {
    match PatchOffset(r, segments, size)
    case None => LowInvalid
    case Some(offset) => LowAt(offset)
  }

  function FindPartner(rs: seq<Relocation>, target: Byte, segments: seq<Segment>, size: nat): (p: Partner)
    ensures p.LowAt? ==> p.offset + 4 <= size
  {
    if rs == [] then LowMissing
    else if IsPartner(rs[0], target) then PartnerAt(rs[0], segments, size)
    else FindPartner(rs[1..], target, segments, size)
  }

  function PlainApply(memory: seq<Byte>, guestBase: Word, segments: seq<Segment>, rs: seq<Relocation>)
    : (res: (Outcome, seq<Byte>))
    ensures |res.1| == |memory|
    decreases |rs|
  {
    if rs == [] then (Success, memory)
    else
      var partner := FindPartner(rs[1..], rs[0].targetSegment, segments, |memory|);
      var (outcome, next) := ApplyOne(memory, guestBase, segments, rs[0], partner);
      if outcome != Success then (outcome, next) else PlainApply(next, guestBase, segments, rs[1..])
  }

  method ApplyRecord(memory: array<Byte>, guestBase: Word, segments: seq<Segment>, r: Relocation, partner: Partner)
    returns (outcome: Outcome)
    requires partner.LowAt? ==> partner.offset + 4 <= memory.Length
    modifies memory
    ensures (outcome, memory[..]) == ApplyOne(old(memory[..]), guestBase, segments, r, partner)
  {
    hide RelocateJump, RelocateHigh, RelocateLow, FindSegment, PatchOffset, ByteOf, FromBytes;
    var target := FindSegment(segments, r.targetSegment);
    if target.None? {
      return InvalidSegment;
    }
    var found := PatchOffset(r, segments, memory.Length);
    if found.None? {
      return InvalidPatch;
    }
    var offset := found.value;
    var relocateTo := Add(guestBase, target.value.address);
    var word := FromBytes(memory[offset], memory[offset + 1], memory[offset + 2], memory[offset + 3]);
    match r.kind {
      case 0 =>
      case 2 => word := Add(word, relocateTo);
      case 4 => word := RelocateJump(word, relocateTo);
      case 5 =>
        match partner {
          case LowUnreadable => return InvalidStream;
          case LowInvalid => return InvalidPatch;
          case LowMissing => return MissingLo16;
          case LowAt(low) =>
            var lowWord := FromBytes(memory[low], memory[low + 1], memory[low + 2], memory[low + 3]);
            word := RelocateHigh(word, lowWord, relocateTo);
        }
      case 6 => word := RelocateLow(word, relocateTo);
      case _ => return UnsupportedType;
    }
    memory[offset], memory[offset + 1], memory[offset + 2], memory[offset + 3] :=
      ByteOf(word, 0), ByteOf(word, 1), ByteOf(word, 2), ByteOf(word, 3);
    assert memory[..] == WriteWord(old(memory[..]), offset, word);
    return Success;
  }

  method ApplyPspRelocations(memory: array<Byte>, guestBase: Word, segments: seq<Segment>, relocations: seq<Relocation>)
    returns (outcome: Outcome)
    modifies memory
    ensures (outcome, memory[..]) == PlainApply(old(memory[..]), guestBase, segments, relocations)
  {
    hide ApplyOne, PatchOffset;
    for i := 0 to |relocations|
      invariant PlainApply(memory[..], guestBase, segments, relocations[i..])
             == PlainApply(old(memory[..]), guestBase, segments, relocations)
    {
      var relocation := relocations[i];
      assert relocations[i..][1..] == relocations[i + 1..];
      var partner := LowMissing;
      var j := i + 1;
      while relocation.kind == 5 && j < |relocations|
        invariant i + 1 <= j <= |relocations| && partner == LowMissing
        invariant FindPartner(relocations[j..], relocation.targetSegment, segments, memory.Length)
               == FindPartner(relocations[i + 1..], relocation.targetSegment, segments, memory.Length)
      {
        assert relocations[j..][1..] == relocations[j + 1..];
        if IsPartner(relocations[j], relocation.targetSegment) {
          partner := PartnerAt(relocations[j], segments, memory.Length);
          break;
        }
        j := j + 1;
      }
      PartnerOnlyForHigh(memory[..], guestBase, segments, relocation, partner,
                         FindPartner(relocations[i + 1..], relocation.targetSegment, segments, memory.Length));
      outcome := ApplyRecord(memory, guestBase, segments, relocation, partner);
      if outcome != Success {
        return;
      }
    }
    outcome := Success;
  }

  // ----- from the compact stream -----

  function FindPartnerCompact(bytes: seq<Byte>, count: nat, context: Context, target: Byte,
                              segments: seq<Segment>, size: nat): (p: Partner)
    ensures p.LowAt? ==> p.offset + 4 <= size
    decreases count
  {
    if count == 0 then LowMissing
    else match DecodeOne(bytes, context)
      case None => LowUnreadable
      case Some(step) =>
        if IsPartner(step.record, target) then PartnerAt(step.record, segments, size)
        else FindPartnerCompact(bytes[step.used..], count - 1, step.context, target, segments, size)
  }

  function CompactApply(memory: seq<Byte>, guestBase: Word, segments: seq<Segment>,
                        bytes: seq<Byte>, count: nat, context: Context): (res: (Outcome, seq<Byte>))
    ensures |res.1| == |memory|
    decreases count
  {
    if count == 0 then (if bytes == [] then Success else InvalidStream, memory)
    else match DecodeOne(bytes, context)
      case None => (InvalidStream, memory)
      case Some(step) =>
        var rest := bytes[step.used..];
        var partner := FindPartnerCompact(rest, count - 1, step.context, step.record.targetSegment, segments, |memory|);
        var (outcome, next) := ApplyOne(memory, guestBase, segments, step.record, partner);
        if outcome != Success then (outcome, next)
        else CompactApply(next, guestBase, segments, rest, count - 1, step.context)
  }

  method LookAhead(decoder: CompactRelocationDecoder, count: nat, target: Byte, segments: seq<Segment>, size: nat)
    returns (partner: Partner)
    requires decoder.Inside()
    ensures partner == FindPartnerCompact(decoder.bytes[decoder.cursor..], count, decoder.Remembered(), target, segments, size)
  {
    hide DecodeOne, PatchOffset;
    var lookahead := new CompactRelocationDecoder.Copy(decoder);
    for j := 0 to count
      invariant lookahead.Inside() && fresh(lookahead) && lookahead.bytes == decoder.bytes
      invariant FindPartnerCompact(lookahead.bytes[lookahead.cursor..], count - j, lookahead.Remembered(), target, segments, size)
             == FindPartnerCompact(decoder.bytes[decoder.cursor..], count, decoder.Remembered(), target, segments, size)
    {
      ghost var at := lookahead.cursor;
      var ok, low := lookahead.Next();
      if !ok {
        return LowUnreadable;
      }
      assert lookahead.bytes[at..][lookahead.cursor - at..] == lookahead.bytes[lookahead.cursor..];
      if IsPartner(low, target) {
        return PartnerAt(low, segments, size);
      }
    }
    return LowMissing;
  }

  method ApplyCompactPspRelocations(memory: array<Byte>, guestBase: Word, segments: seq<Segment>,
                                    bytes: seq<Byte>, relocationCount: nat) returns (outcome: Outcome)
    modifies memory
    ensures (outcome, memory[..]) == CompactApply(old(memory[..]), guestBase, segments, bytes, relocationCount, START)
  {
    hide DecodeOne, ApplyOne, FindPartnerCompact;
    var decoder := new CompactRelocationDecoder(bytes);
    assert bytes[0..] == bytes;
    for i := 0 to relocationCount
      invariant decoder.Inside() && fresh(decoder) && decoder.bytes == bytes && decoder.decoded == i && decoder.valid
      invariant CompactApply(memory[..], guestBase, segments, bytes[decoder.cursor..], relocationCount - i, decoder.Remembered())
             == CompactApply(old(memory[..]), guestBase, segments, bytes, relocationCount, START)
    {
      ghost var at := decoder.cursor;
      var ok, relocation := decoder.Next();
      if !ok {
        return InvalidStream;
      }
      assert bytes[at..][decoder.cursor - at..] == bytes[decoder.cursor..];
      decoder.decoded := decoder.decoded + 1;
      var partner := LowMissing;
      if relocation.kind == 5 {
        partner := LookAhead(decoder, relocationCount - i - 1, relocation.targetSegment, segments, memory.Length);
      }
      PartnerOnlyForHigh(memory[..], guestBase, segments, relocation, partner,
        FindPartnerCompact(bytes[decoder.cursor..], relocationCount - i - 1, decoder.Remembered(),
                           relocation.targetSegment, segments, memory.Length));
      outcome := ApplyRecord(memory, guestBase, segments, relocation, partner);
      if outcome != Success {
        return;
      }
    }
    outcome := if decoder.valid && decoder.decoded == relocationCount && decoder.cursor == |bytes| then Success else InvalidStream;
  }

  // ----- the two appliers agree -----

  lemma {:induction false} PartnersAgree(rs: seq<Relocation>, context: Context, target: Byte, segments: seq<Segment>, size: nat)
    ensures FindPartnerCompact(Encode(rs, context), |rs|, context, target, segments, size)
         == FindPartner(rs, target, segments, size)
  {
    hide DecodeOne, EncodeOne, PartnerAt;
    if rs != [] {
      var first, rest := EncodeOne(rs[0], context), Encode(rs[1..], After(rs[0], context));
      RecordRoundTrip(rs[0], context, rest);
      assert Encode(rs, context)[|first|..] == rest;
      PartnersAgree(rs[1..], After(rs[0], context), target, segments, size);
    }
  }

  /** The compact form of a record list, applied, gives the outcome and the
      memory that the plain list gives, whatever the list, segments and memory. */
  lemma {:induction false} AppliersAgree(memory: seq<Byte>, guestBase: Word, segments: seq<Segment>,
                                         rs: seq<Relocation>, context: Context)
    ensures CompactApply(memory, guestBase, segments, Encode(rs, context), |rs|, context)
         == PlainApply(memory, guestBase, segments, rs)
    decreases |rs|
  {
    hide DecodeOne, EncodeOne, ApplyOne, FindPartner, FindPartnerCompact;
    if rs != [] {
      var first, rest := EncodeOne(rs[0], context), Encode(rs[1..], After(rs[0], context));
      RecordRoundTrip(rs[0], context, rest);
      assert Encode(rs, context)[|first|..] == rest;
      PartnersAgree(rs[1..], After(rs[0], context), rs[0].targetSegment, segments, |memory|);
      var partner := FindPartner(rs[1..], rs[0].targetSegment, segments, |memory|);
      var (outcome, next) := ApplyOne(memory, guestBase, segments, rs[0], partner);
      AppliersAgree(next, guestBase, segments, rs[1..], After(rs[0], context));
    }
  }
}
