/** The layout-preserving patcher of src/iso_patch.cpp. */
module IsoPatch {
  import opened Words
  import opened ByteWrites
  import opened IsoDirectory

  // ----- names of replacements -----

  function Upper(c: Byte): Byte {
    if 0x61 <= c <= 0x7a then c - 0x20 else c
  }

  function Collected(path: seq<Byte>): seq<Byte> {
    if path == [] then []
    else
      var result, c := Collected(path[..|path| - 1]), path[|path| - 1];
      if c == BACKSLASH then result + [SLASH]
      else if c != SLASH then result + [Upper(c)]
      else if result != [] && result[|result| - 1] != SLASH then result + [SLASH]
      else result
  }

  function Stripped(path: seq<Byte>): seq<Byte> {
    if path != [] && path[0] == SLASH then Stripped(path[1..])
    else if path != [] && path[|path| - 1] == SLASH then Stripped(path[..|path| - 1])
    else path
  }

  function Normalized(path: seq<Byte>): seq<Byte> {
    Stripped(Collected(path))
  }

  /** What the index holds for a key: the last record with that name. */
  function Find(records: seq<Record>, key: seq<Byte>): Result<Record> {
    if records == [] then Malformed
    else
      var last := records[|records| - 1];
      if Normalized(last.path) == key then Ok(last) else Find(records[..|records| - 1], key)
  }

  // ----- writing into the image file -----

  /** Little-endian, then big-endian (section 7.3.3 of ECMA-119). */
  function BothEndian(value: Word): seq<Byte> {
    [ByteOf(value, 0), ByteOf(value, 1), ByteOf(value, 2), ByteOf(value, 3),
     ByteOf(value, 3), ByteOf(value, 2), ByteOf(value, 1), ByteOf(value, 0)]
  }

  function Sectors(size: nat): nat {
    (size + SECTOR - 1) / SECTOR
  }

  datatype Target = Target(record: Record, content: seq<Byte>)

  predicate Fits(target: Target) {
    Sectors(target.record.size) != 0 && Sectors(|target.content|) <= Sectors(target.record.size)
  }

  /** Where the content goes when the image so far has `append` sectors. */
  function DataSector(target: Target, append: nat): nat {
    if Fits(target) then target.record.extent else append
  }

  function NextAppend(target: Target, append: nat): nat {
    if Fits(target) then append else append + Sectors(|target.content|)
  }

  function PaddedSectors(target: Target, append: nat): nat {
    if DataSector(target, append) == target.record.extent then Sectors(target.record.size) else Sectors(|target.content|)
  }

  /** The content padded to whole sectors, then extent and size in the record. */
  function TargetWrites(target: Target, append: nat): seq<Write> {
    var data := DataSector(target, append);
    var padded := PaddedSectors(target, append) * SECTOR;
    [Write(data * SECTOR, target.content + Zeros(if |target.content| < padded then padded - |target.content| else 0)),
     Write(target.record.offset + 2, BothEndian(Wrap(data))),
     Write(target.record.offset + 10, BothEndian(Wrap(|target.content|)))]
  }

  function Plan(targets: seq<Target>, append: nat): (seq<Write>, nat) {
    if targets == [] then ([], append)
    else
      var (writes, end) := Plan(targets[1..], NextAppend(targets[0], append));
      (TargetWrites(targets[0], append) + writes, end)
  }

  datatype Replacement = Replacement(path: seq<Byte>, content: seq<Byte>)

  function Resolve(records: seq<Record>, replacements: seq<Replacement>): Result<seq<Target>> {
    if replacements == [] then Ok([])
    else
      var found := Find(records, Normalized(replacements[0].path));
      var rest := Resolve(records, replacements[1..]);
      if found.Malformed? || rest.Malformed? then Malformed
      else Ok([Target(found.value, replacements[0].content)] + rest.value)
  }

  /** The declared volume size grows with the image (section 8.4.8 of ECMA-119). */
  function VolumeSize(before: nat, after: nat): seq<Write> {
    if after > before then [Write(DESCRIPTOR + 80, BothEndian(Wrap(after)))] else []
  }

  function Patched(image: seq<Byte>, targets: seq<Target>): seq<Byte> {
    var (writes, end) := Plan(targets, |image| / SECTOR);
    Land(image, writes + VolumeSize(|image| / SECTOR, end))
  }

  function Patch(image: seq<Byte>, replacements: seq<Replacement>): Result<seq<Byte>> {
    var records := WalkImage(image, false);
    if records.Malformed? || |image| % SECTOR != 0 then Malformed
    else
      var targets := Resolve(records.value, replacements);
      if targets.Malformed? then Malformed else Ok(Patched(image, targets.value))
  }

  // ----- the patcher in place -----

  /** One turn of the patch loop. */
  method ReplaceContent(image: seq<Byte>, info: Record, content: seq<Byte>, append: nat)
    returns (target: seq<Byte>, appendSector: nat)
    ensures target == Land(image, TargetWrites(Target(info, content), append))
    ensures appendSector == NextAppend(Target(info, content), append)
  {
    hide Overwrite, BothEndian, Sectors;
    var neededSectors, originalSectors := Sectors(|content|), Sectors(info.size);
    var dataSector: nat;
    if originalSectors != 0 && neededSectors <= originalSectors {
      dataSector, appendSector := info.extent, append;
    } else {
      dataSector, appendSector := append, append + neededSectors;
    }
    var paddedSize := (if dataSector == info.extent then originalSectors else neededSectors) * SECTOR;
    target := Overwrite(image, dataSector * SECTOR,
                        content + Zeros(if |content| < paddedSize then paddedSize - |content| else 0));
    target := Overwrite(target, info.offset + 2, BothEndian(Wrap(dataSector)));
    target := Overwrite(target, info.offset + 10, BothEndian(Wrap(|content|)));
    var writes := TargetWrites(Target(info, content), append);
    LandThree(image, writes[0], writes[1], writes[2]);
  }

  method PatchIso(image: seq<Byte>, replacements: seq<Replacement>) returns (r: Result<seq<Byte>>)
    ensures r == Patch(image, replacements)
  {
    hide Overwrite, BothEndian, Find, Normalized, WalkImage, TargetWrites, NextAppend;
    var records := WalkTree(image, false);
    if records.Malformed? {
      return Malformed;
    }
    var target := image;
    if |image| % SECTOR != 0 {
      return Malformed;
    }
    var appendSector: nat := |image| / SECTOR;
    var originalSectorCount: nat := appendSector;
    ghost var all := Resolve(records.value, replacements);
    for i := 0 to |replacements|
      invariant Resolve(records.value, replacements[i..]).Malformed? == all.Malformed?
      invariant all.Ok? ==>
        SameLanding(image, all.value, originalSectorCount, target, Resolve(records.value, replacements[i..]).value, appendSector)
    {
      var found := Find(records.value, Normalized(replacements[i].path));
      assert replacements[i..][1..] == replacements[i + 1..];
      if found.Malformed? {
        return Malformed;
      }
      if all.Ok? {
        LandStep(target, Target(found.value, replacements[i].content),
                 Resolve(records.value, replacements[i + 1..]).value, appendSector);
      }
      target, appendSector := ReplaceContent(target, found.value, replacements[i].content, appendSector);
    }
    if all.Ok? {
      LandAppend(image, Plan(all.value, originalSectorCount).0, VolumeSize(originalSectorCount, appendSector));
    }
    if appendSector > originalSectorCount {
      target := Overwrite(target, DESCRIPTOR + 80, BothEndian(Wrap(appendSector)));
    }
    return Ok(target);
  }

  /** Two states of the loop from which the rest of the plan leads to one image. */
  ghost predicate SameLanding(a: seq<Byte>, targets: seq<Target>, append: nat, b: seq<Byte>, rest: seq<Target>, later: nat) {
    Land(a, Plan(targets, append).0) == Land(b, Plan(rest, later).0) && Plan(targets, append).1 == Plan(rest, later).1
  }

  lemma LandStep(image: seq<Byte>, target: Target, rest: seq<Target>, append: nat)
    ensures SameLanding(image, [target] + rest, append,
                        Land(image, TargetWrites(target, append)), rest, NextAppend(target, append))
  {
    hide Overwrite, TargetWrites, NextAppend;
    assert ([target] + rest)[1..] == rest;
    LandAppend(image, TargetWrites(target, append), Plan(rest, NextAppend(target, append)).0);
  }
}
