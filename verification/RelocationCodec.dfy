/** The compact relocation stream: the encoder of src/emitter/relocations.cpp
    and the decoder of include/psprecomp/relocation.hpp. */
module RelocationCodec {
  import opened Wrappers
  import opened Words
  import opened ElfImage

  type Table = s: seq<Word> | |s| == 256 witness seq(256, _ => 0)

  datatype Meta = Meta(kind: Byte, patch: Byte, target: Byte)

  /** What encoder and decoder both remember between records. */
  datatype Context = Context(previous: Table, meta: Option<Meta>)

  const START := Context(seq(256, _ => 0), None)

  function MetaOf(r: Relocation): Meta {
    Meta(r.kind, r.patchSegment, r.targetSegment)
  }

  function After(r: Relocation, context: Context): Context {
    Context(context.previous[r.patchSegment := r.offset], Some(MetaOf(r)))
  }

  function Delta(r: Relocation, context: Context): int {
    r.offset - context.previous[r.patchSegment]
  }

  // ----- encoding -----

  /** The short form's type code; 0xff stands for none. */
  function TypeCode(kind: Byte): Byte {
    match kind
    case 0 => 0
    case 2 => 1
    case 4 => 2
    case 5 => 3
    case 6 => 4
    case _ => 0xff
  }

  function ExtendedCode(kind: Byte): Byte {
    match kind
    case 2 => 5
    case 4 => 6
    case 6 => 7
    case _ => 0xff
  }

  predicate CanUseShort(r: Relocation, delta: int) {
    TypeCode(r.kind) != 0xff && r.patchSegment < 2 && r.targetSegment < 2 && 0 <= delta <= 28 && delta % 4 == 0
  }

  predicate CanUseExtended(r: Relocation, delta: int) {
    ExtendedCode(r.kind) != 0xff && r.patchSegment == 0 && r.targetSegment == 0 &&
    0 <= delta <= 124 && delta % 4 == 0 && !(ExtendedCode(r.kind) == 7 && delta == 124)
  }

  function Zigzag(delta: int): nat {
    if delta >= 0 then delta * 2 else -(delta + 1) * 2 + 1
  }

  function Tag(delta: int, changed: bool): nat {
    Zigzag(delta) * 2 + if changed then 1 else 0
  }

  /** Seven bits a byte, low bits first, the top bit set on all but the last. */
  function Leb(tag: nat): seq<Byte> {
    if tag < 128 then [tag] else [tag % 128 + 128] + Leb(tag / 128)
  }

  function MetaBytes(meta: Meta): seq<Byte> {
    if meta.kind < 16 && meta.patch < 4 && meta.target < 4 && meta.kind + 16 * meta.patch + 64 * meta.target != 0xff
    then [meta.kind + 16 * meta.patch + 64 * meta.target]
    else [0xff, meta.kind, meta.patch, meta.target]
  }

  function LongForm(r: Relocation, context: Context): seq<Byte> {
    var changed := context.meta != Some(MetaOf(r));
    [0xff] + Leb(Tag(Delta(r, context), changed)) + if changed then MetaBytes(MetaOf(r)) else []
  }

  function EncodeOne(r: Relocation, context: Context): seq<Byte> {
    var delta := Delta(r, context);
    if CanUseShort(r, delta) then
      [delta / 4 * 32 + r.targetSegment * 16 + r.patchSegment * 8 + TypeCode(r.kind)]
    else if CanUseExtended(r, delta) then [delta / 4 * 8 + ExtendedCode(r.kind)]
    else LongForm(r, context)
  }

  function Encode(rs: seq<Relocation>, context: Context): seq<Byte> {
    if rs == [] then [] else EncodeOne(rs[0], context) + Encode(rs[1..], After(rs[0], context))
  }

  /** The encoder's loop over the records. */
  method CompactRelocations(relocations: seq<Relocation>) returns (result: seq<Byte>)
    ensures result == Encode(relocations, START)
  {
    hide EncodeOne;
    result := [];
    var previousOffsets: Table := seq(256, _ => 0);
    var previous: Option<Meta> := None;
    var index := 0;
    while index < |relocations|
      invariant 0 <= index <= |relocations|
      invariant result + Encode(relocations[index..], Context(previousOffsets, previous)) == Encode(relocations, START)
    {
      var relocation := relocations[index];
      var bytes := EmitRecord(relocation, previousOffsets, previous);
      ghost var rest := Encode(relocations[index + 1..], After(relocation, Context(previousOffsets, previous)));
      assert relocations[index..][1..] == relocations[index + 1..];
      assert result + (bytes + rest) == result + bytes + rest;
      result := result + bytes;
      previousOffsets := previousOffsets[relocation.patchSegment := relocation.offset];
      previous := Some(MetaOf(relocation));
      index := index + 1;
    }
    assert result + [] == result;
  }

  method EmitRecord(relocation: Relocation, previousOffsets: Table, previous: Option<Meta>) returns (bytes: seq<Byte>)
    ensures bytes == EncodeOne(relocation, Context(previousOffsets, previous))
  {
    hide MetaBytes;
    var delta := relocation.offset - previousOffsets[relocation.patchSegment];
    if CanUseShort(relocation, delta) {
      return [delta / 4 * 32 + relocation.targetSegment * 16 + relocation.patchSegment * 8 + TypeCode(relocation.kind)];
    }
    if CanUseExtended(relocation, delta) {
      return [delta / 4 * 8 + ExtendedCode(relocation.kind)];
    }
    var changed := previous != Some(MetaOf(relocation));
    var tag := EmitLeb(Tag(delta, changed));
    bytes := [0xff] + tag;
    if changed {
      bytes := bytes + MetaBytes(MetaOf(relocation));
    }
  }

  /** The LEB128 do-while. */
  method EmitLeb(value: nat) returns (bytes: seq<Byte>)
    ensures bytes == Leb(value)
  {
    var tag := value;
    bytes := [];
    while tag >= 128
      invariant bytes + Leb(tag) == Leb(value)
    {
      assert bytes + Leb(tag) == bytes + [tag % 128 + 128] + Leb(tag / 128);
      bytes := bytes + [tag % 128 + 128];
      tag := tag / 128;
    }
    bytes := bytes + [tag];
  }

  // ----- decoding -----

  /** A LEB128 number of at most `groups` bytes, and how many it took. */
  function ReadLeb(bytes: seq<Byte>, groups: nat): (r: Option<(nat, nat)>)
    ensures r.Some? ==> 1 <= r.value.1 <= |bytes|
  {
    if groups == 0 || bytes == [] then None
    else if bytes[0] < 128 then Some((bytes[0], 1))
    else match ReadLeb(bytes[1..], groups - 1)
      case None => None
      case Some((high, used)) => Some((bytes[0] - 128 + 128 * high, used + 1))
  }

  function ShortMeta(first: Byte): Meta {
    match first % 8
    case 0 => Meta(0, first / 8 % 2, first / 16 % 2)
    case 1 => Meta(2, first / 8 % 2, first / 16 % 2)
    case 2 => Meta(4, first / 8 % 2, first / 16 % 2)
    case 3 => Meta(5, first / 8 % 2, first / 16 % 2)
    case 4 => Meta(6, first / 8 % 2, first / 16 % 2)
    case 5 => Meta(2, 0, 0)
    case 6 => Meta(4, 0, 0)
    case _ => Meta(6, 0, 0)
  }

  function ShortDelta(first: Byte): int {
    if first % 8 <= 4 then first / 32 * 4 else first / 8 * 4
  }

  /** The metadata bytes of a long form, and how many they are. */
  function ReadMeta(bytes: seq<Byte>): (r: Option<(Meta, nat)>)
    ensures r.Some? ==> r.value.1 <= |bytes|
  {
    if bytes == [] then None
    else if bytes[0] != 0xff then Some((Meta(bytes[0] % 16, bytes[0] / 16 % 4, bytes[0] / 64), 1))
    else if |bytes| < 4 then None
    else Some((Meta(bytes[1], bytes[2], bytes[3]), 4))
  }

  function Unzigzag(zigzag: nat): int {
    if zigzag % 2 == 1 then -(zigzag / 2 + 1) else zigzag / 2
  }

  datatype Step = Step(record: Relocation, used: nat, context: Context)

  function Resolve(meta: Meta, delta: int, used: nat, context: Context): (r: Option<Step>)
    ensures r.Some? ==> r.value.used == used
  {
    var next := context.previous[meta.patch] + delta;
    if next < 0 || next > 0xffff_ffff then None
    else
      var record := Relocation(next, meta.kind, meta.patch, meta.target);
      Some(Step(record, used, Context(context.previous[meta.patch := next], Some(meta))))
  }

  /** One call of `next` on the unread bytes.  A record that is returned took at
      least one byte and no byte past the end. */
  function DecodeOne(bytes: seq<Byte>, context: Context): (r: Option<Step>)
    ensures r.Some? ==> 1 <= r.value.used <= |bytes|
  {
    if bytes == [] then None
    else if bytes[0] != 0xff then Resolve(ShortMeta(bytes[0]), ShortDelta(bytes[0]), 1, context)
    else match ReadLeb(bytes[1..], 9)
      case None => None
      case Some((tag, n)) =>
        var delta := Unzigzag(tag / 2);
        if tag % 2 == 1 then
          match ReadMeta(bytes[1 + n..])
          case None => None
          case Some((meta, k)) => Resolve(meta, delta, 1 + n + k, context)
        else match context.meta
          case None => None
          case Some(meta) => Resolve(meta, delta, 1 + n, context)
  }

  function DecodeAll(bytes: seq<Byte>, count: nat, context: Context): Option<(seq<Relocation>, seq<Byte>)>
    decreases count
  {
    if count == 0 then Some(([], bytes))
    else match DecodeOne(bytes, context)
      case None => None
      case Some(step) =>
        match DecodeAll(bytes[step.used..], count - 1, step.context)
        case None => None
        case Some((rest, left)) => Some(([step.record] + rest, left))
  }

  // ----- decoding undoes encoding -----

  lemma {:induction false} LebRoundTrip(tag: nat, groups: nat, bound: nat, rest: seq<Byte>)
    requires groups >= 1 && bound == Power128(groups) && tag < bound
    ensures ReadLeb(Leb(tag) + rest, groups) == Some((tag, |Leb(tag)|))
    ensures |Leb(tag)| <= groups
  {
    if tag >= 128 {
      assert Power128(groups) == 128 * Power128(groups - 1);
      LebRoundTrip(tag / 128, groups - 1, Power128(groups - 1), rest);
      assert (Leb(tag) + rest)[1..] == Leb(tag / 128) + rest;
    }
  }

  function Power128(n: nat): (r: nat)
    ensures r >= 1
  {
    if n == 0 then 1 else 128 * Power128(n - 1)
  }

  lemma TagRange(r: Relocation, context: Context, changed: bool)
    ensures Tag(Delta(r, context), changed) < Power128(5) <= Power128(9)
  {
    assert Power128(3) == 128 * 128 * 128;
    assert Power128(5) == 128 * 128 * Power128(3);
    assert Power128(9) == 128 * (128 * (128 * (128 * Power128(5))));
  }

  lemma ZigzagRoundTrip(delta: int)
    ensures Unzigzag(Zigzag(delta)) == delta
  {
  }

  lemma MetaRoundTrip(meta: Meta, rest: seq<Byte>)
    ensures ReadMeta(MetaBytes(meta) + rest) == Some((meta, |MetaBytes(meta)|))
  {
    hide ReadMeta;
    if |MetaBytes(meta)| == 4 {
      LongMetaRead(meta, rest);
    } else {
      PackedFields(meta.kind, meta.patch, meta.target);
      ShortMetaRead(meta.kind + 16 * meta.patch + 64 * meta.target, rest);
    }
  }

  lemma LongMetaRead(meta: Meta, rest: seq<Byte>)
    ensures ReadMeta([0xff, meta.kind, meta.patch, meta.target] + rest) == Some((meta, 4))
  {
  }

  lemma ShortMetaRead(packed: Byte, rest: seq<Byte>)
    requires packed != 0xff
    ensures ReadMeta([packed] + rest) == Some((Meta(packed % 16, packed / 16 % 4, packed / 64), 1))
  {
  }

  lemma PackedFields(kind: int, patch: int, target: int)
    requires 0 <= kind < 16 && 0 <= patch < 4 && 0 <= target < 4
    ensures var packed := kind + 16 * patch + 64 * target;
      packed % 16 == kind && packed / 16 % 4 == patch && packed / 64 == target
  {
    assert (kind + 16 * patch + 64 * target) / 16 == patch + 4 * target;
  }

  lemma ResolveFinds(r: Relocation, used: nat, context: Context)
    ensures Resolve(MetaOf(r), Delta(r, context), used, context) == Some(Step(r, used, After(r, context)))
  {
  }

  lemma ShortRoundTrip(r: Relocation, delta: int)
    requires CanUseShort(r, delta)
    ensures var first := delta / 4 * 32 + r.targetSegment * 16 + r.patchSegment * 8 + TypeCode(r.kind);
      0 <= first < 0xff && ShortMeta(first) == MetaOf(r) && ShortDelta(first) == delta
  {
    var first: int := delta / 4 * 32 + r.targetSegment * 16 + r.patchSegment * 8 + TypeCode(r.kind);
    assert first % 8 == TypeCode(r.kind);
    assert first / 8 == delta / 4 * 4 + r.targetSegment * 2 + r.patchSegment;
    assert first / 16 == delta / 4 * 2 + r.targetSegment;
  }

  lemma ExtendedRoundTrip(r: Relocation, delta: int)
    requires CanUseExtended(r, delta)
    ensures var first := delta / 4 * 8 + ExtendedCode(r.kind);
      0 <= first < 0xff && ShortMeta(first) == MetaOf(r) && ShortDelta(first) == delta
  {
  }

  lemma LongRoundTrip(r: Relocation, context: Context, rest: seq<Byte>)
    ensures DecodeOne(LongForm(r, context) + rest, context)
         == Some(Step(r, |LongForm(r, context)|, After(r, context)))
    ensures |LongForm(r, context)| <= 10
  {
    hide Resolve, Leb, ReadLeb, Power128, After, ReadMeta, Unzigzag;
    var changed := context.meta != Some(MetaOf(r));
    var delta := Delta(r, context);
    var tag := Tag(delta, changed);
    var tail := (if changed then MetaBytes(MetaOf(r)) else []) + rest;
    var bytes := LongForm(r, context) + rest;
    TagRange(r, context, changed);
    LebRoundTrip(tag, 5, Power128(5), tail);
    LebRoundTrip(tag, 9, Power128(9), tail);
    assert bytes[1..] == Leb(tag) + tail;
    assert bytes[1 + |Leb(tag)|..] == tail;
    ZigzagRoundTrip(delta);
    MetaRoundTrip(MetaOf(r), rest);
    ResolveFinds(r, |LongForm(r, context)|, context);
  }

  /** Every record is decoded from its own bytes, whatever follows them; a short
      form never starts like a long one, and no record takes more than 10 bytes. */
  lemma RecordRoundTrip(r: Relocation, context: Context, rest: seq<Byte>)
    ensures DecodeOne(EncodeOne(r, context) + rest, context)
         == Some(Step(r, |EncodeOne(r, context)|, After(r, context)))
    ensures 1 <= |EncodeOne(r, context)| <= 10
    ensures |EncodeOne(r, context)| == 1 <==> EncodeOne(r, context)[0] != 0xff
  {
    hide Resolve, ShortMeta, ShortDelta, LongForm;
    var delta := Delta(r, context);
    var bytes := EncodeOne(r, context) + rest;
    if CanUseShort(r, delta) {
      ShortRoundTrip(r, delta);
      ResolveFinds(r, 1, context);
      assert bytes[0] == delta / 4 * 32 + r.targetSegment * 16 + r.patchSegment * 8 + TypeCode(r.kind);
    } else if CanUseExtended(r, delta) {
      ExtendedRoundTrip(r, delta);
      ResolveFinds(r, 1, context);
      assert bytes[0] == delta / 4 * 8 + ExtendedCode(r.kind);
    } else {
      LongRoundTrip(r, context, rest);
      LongStartsHigh(r, context);
    }
  }

  lemma LongStartsHigh(r: Relocation, context: Context)
    ensures LongForm(r, context)[0] == 0xff && |LongForm(r, context)| > 1
  {
  }

  /** The decoder yields exactly the encoded records and consumes exactly their
      bytes. */
  lemma {:induction false} DecodeUndoesEncode(rs: seq<Relocation>, context: Context)
    ensures DecodeAll(Encode(rs, context), |rs|, context) == Some((rs, []))
    ensures |Encode(rs, context)| <= 10 * |rs|
  {
    hide DecodeOne, EncodeOne;
    if rs != [] {
      var first, rest := EncodeOne(rs[0], context), Encode(rs[1..], After(rs[0], context));
      RecordRoundTrip(rs[0], context, rest);
      DecodeUndoesEncode(rs[1..], After(rs[0], context));
      assert Encode(rs, context)[|first|..] == rest;
      assert [rs[0]] + rs[1..] == rs;
    }
  }
}
