/** What the planned writes of a patch leave in the image: writes that do not meet
    all survive, and every other byte is kept. */
module IsoWrites {
  import opened Words
  import opened ByteWrites
  import opened IsoDirectory
  import opened IsoPatch

  // ----- the regions of a patch -----

  /** The 16 bytes of extent and size in both byte orders. */
  function Fields(r: Record): Write {
    Write(r.offset + 2, Zeros(16))
  }

  function Area(r: Record): Write {
    Write(r.extent * SECTOR, Zeros(Sectors(r.size) * SECTOR))
  }

  /** The records lie in the image behind the volume descriptor, apart from each
      other and from the file areas that are rewritten in place. */
  ghost predicate Apart(targets: seq<Target>, limit: nat) {
    (forall t :: t in targets ==>
      DESCRIPTOR + SECTOR <= t.record.offset && t.record.offset + 18 <= limit) &&
    (forall t :: t in targets && Fits(t) ==>
      DESCRIPTOR + SECTOR <= t.record.extent * SECTOR && (t.record.extent + Sectors(t.record.size)) * SECTOR <= limit) &&
    (forall t, u :: t in targets && u in targets && Fits(u) ==> !Meet(Fields(t.record), Area(u.record))) &&
    (forall i, j :: 0 <= i < j < |targets| ==> !Meet(Fields(targets[i].record), Fields(targets[j].record))) &&
    (forall i, j :: 0 <= i < j < |targets| && Fits(targets[i]) && Fits(targets[j]) ==>
      !Meet(Area(targets[i].record), Area(targets[j].record)))
  }

  /** A write below the end of the image that meets no region of the targets. */
  ghost predicate Elsewhere(w: Write, targets: seq<Target>, append: nat) {
    w.at + |w.bytes| <= append * SECTOR &&
    forall t :: t in targets ==> !Meet(w, Fields(t.record)) && (Fits(t) ==> !Meet(w, Area(t.record)))
  }

  lemma SectorsHold(size: nat)
    ensures size <= Sectors(size) * SECTOR < size + SECTOR && (Sectors(size) == 0 <==> size == 0)
  {
  }

  /** Whole sectors, except for an appended file whose old extent happens to be
      the place it is appended at: its padding is computed from its old size. */
  function WrittenLength(t: Target, append: nat): nat {
    if Fits(t) then Sectors(t.record.size) * SECTOR
    else if t.record.extent == append then |t.content|
    else Sectors(|t.content|) * SECTOR
  }

  lemma ContentWrite(t: Target, append: nat)
    ensures var w := TargetWrites(t, append)[0];
      |w.bytes| == WrittenLength(t, append) && w.at == (if Fits(t) then t.record.extent else append) * SECTOR &&
      t.content <= w.bytes && (!Fits(t) ==> |w.bytes| <= Sectors(|t.content|) * SECTOR) &&
      (!Fits(t) && t.content == [] ==> w.bytes == [])
  {
    SectorsHold(|t.content|);
    SectorsHold(t.record.size);
    NotFitting(t);
  }

  /** What does not fit is longer than all sectors of the old file. */
  lemma NotFitting(t: Target)
    ensures !Fits(t) ==> Sectors(t.record.size) * SECTOR <= |t.content|
  {
    MoreSectors(t.record.size, |t.content|);
  }

  lemma MoreSectors(former: nat, now: nat)
    ensures Sectors(former) < Sectors(now) ==> Sectors(former) * SECTOR <= now
  {
    SectorsHold(now);
  }

  lemma {:induction false} PlanIsElsewhere(w: Write, targets: seq<Target>, append: nat)
    requires Elsewhere(w, targets, append)
    ensures NoneMeets(w, Plan(targets, append).0)
    decreases |targets|
  {
    hide Sectors, TargetWrites;
    if targets != [] {
      var t := targets[0];
      assert t in targets;
      OneIsElsewhere(w, t, append);
      PlanIsElsewhere(w, targets[1..], NextAppend(t, append));
    }
  }

  lemma OneIsElsewhere(w: Write, t: Target, append: nat)
    requires w.at + |w.bytes| <= append * SECTOR
    requires !Meet(w, Fields(t.record)) && (Fits(t) ==> !Meet(w, Area(t.record)))
    ensures NoneMeets(w, TargetWrites(t, append)) && append <= NextAppend(t, append)
  {
    hide Sectors;
    ContentWrite(t, append);
    var writes := TargetWrites(t, append);
    assert !Meet(w, writes[0]);
    assert |writes[1].bytes| == 8 && |writes[2].bytes| == 8;
  }

  predicate InBounds(t: Target, limit: nat) {
    DESCRIPTOR + SECTOR <= t.record.offset && t.record.offset + 18 <= limit &&
    (Fits(t) ==> (t.record.extent + Sectors(t.record.size)) * SECTOR <= limit && !Meet(Fields(t.record), Area(t.record)))
  }

  /** No region of the one meets a region of the other. */
  predicate Away(t: Target, u: Target) {
    !Meet(Fields(t.record), Fields(u.record)) &&
    (Fits(u) ==> !Meet(Fields(t.record), Area(u.record))) &&
    (Fits(t) ==> !Meet(Area(t.record), Fields(u.record))) &&
    (Fits(t) && Fits(u) ==> !Meet(Area(t.record), Area(u.record)))
  }

  lemma ApartMeans(targets: seq<Target>, limit: nat)
    requires Apart(targets, limit)
    ensures forall t :: t in targets ==> InBounds(t, limit)
    ensures forall i, j :: 0 <= i < j < |targets| ==> Away(targets[i], targets[j])
  {
    hide Sectors, Fits, Fields, Area;
    forall i, j | 0 <= i < j < |targets| ensures Away(targets[i], targets[j]) {
      var t, u := targets[i], targets[j];
      assert t in targets && u in targets;
      assert Fits(t) ==> !Meet(Fields(u.record), Area(t.record));
    }
  }

  lemma OwnWritesSeparate(t: Target, append: nat, limit: nat)
    requires InBounds(t, limit) && limit <= append * SECTOR
    ensures Separate(TargetWrites(t, append))
  {
    hide Sectors, BothEndian, WrittenLength;
    ContentWrite(t, append);
    var writes := TargetWrites(t, append);
    FittingLength(t, append);
    FieldWrites(t, append);
    ThreeSeparate(writes[0], writes[1], writes[2]);
  }

  lemma FieldWrites(t: Target, append: nat)
    ensures var writes := TargetWrites(t, append);
      |writes| == 3 && writes[1].at == t.record.offset + 2 && writes[2].at == t.record.offset + 10 &&
      |writes[1].bytes| == 8 && |writes[2].bytes| == 8
  {
    hide Sectors;
  }

  lemma WritesAway(t: Target, u: Target, append: nat, limit: nat, w: Write)
    requires InBounds(t, limit) && InBounds(u, limit) && limit <= append * SECTOR && Away(t, u)
    requires w in TargetWrites(t, append)
    ensures !Meet(w, Fields(u.record)) && (Fits(u) ==> !Meet(w, Area(u.record)))
  {
    hide Sectors, TargetWrites, WrittenLength;
    ContentWrite(t, append);
    FittingLength(t, append);
    FieldWrites(t, append);
    var writes := TargetWrites(t, append);
    assert w == writes[0] || w == writes[1] || w == writes[2];
  }

  lemma WritesBelow(t: Target, append: nat, limit: nat, w: Write)
    requires InBounds(t, limit) && limit <= append * SECTOR && w in TargetWrites(t, append)
    ensures w.at + |w.bytes| <= NextAppend(t, append) * SECTOR
  {
    hide Sectors, TargetWrites, WrittenLength;
    ContentWrite(t, append);
    FittingLength(t, append);
    FieldWrites(t, append);
    var writes := TargetWrites(t, append);
    assert w == writes[0] || w == writes[1] || w == writes[2];
  }

  /** The writes of one target meet neither each other nor those of later targets. */
  lemma FirstIsSeparate(targets: seq<Target>, append: nat, limit: nat)
    requires targets != [] && Apart(targets, limit) && limit <= append * SECTOR
    ensures Separate(TargetWrites(targets[0], append))
    ensures forall w :: w in TargetWrites(targets[0], append) ==> Elsewhere(w, targets[1..], NextAppend(targets[0], append))
  {
    hide Apart, InBounds, Away, Sectors, Fits, Fields, Area, TargetWrites, NextAppend;
    var t := targets[0];
    ApartMeans(targets, limit);
    assert t in targets;
    OwnWritesSeparate(t, append, limit);
    forall w | w in TargetWrites(t, append) ensures Elsewhere(w, targets[1..], NextAppend(t, append)) {
      WritesBelow(t, append, limit, w);
      forall u | u in targets[1..] ensures !Meet(w, Fields(u.record)) && (Fits(u) ==> !Meet(w, Area(u.record))) {
        var j :| 1 <= j < |targets| && targets[j] == u;
        assert u in targets;
        WritesAway(t, u, append, limit, w);
      }
    }
  }

  lemma ApartTail(targets: seq<Target>, limit: nat)
    requires targets != [] && Apart(targets, limit)
    ensures Apart(targets[1..], limit)
  {
    hide Sectors;
    assert forall t :: t in targets[1..] ==> t in targets;
  }

  lemma {:induction false} PlanIsSeparate(targets: seq<Target>, append: nat, limit: nat)
    requires Apart(targets, limit) && limit <= append * SECTOR
    ensures Separate(Plan(targets, append).0) && append <= Plan(targets, append).1
    decreases |targets|
  {
    hide Sectors, TargetWrites, Apart, Fits;
    if targets != [] {
      var next := NextAppend(targets[0], append);
      FirstIsSeparate(targets, append, limit);
      ApartTail(targets, limit);
      PlanIsSeparate(targets[1..], next, limit);
      forall w | w in TargetWrites(targets[0], append) ensures NoneMeets(w, Plan(targets[1..], next).0) {
        PlanIsElsewhere(w, targets[1..], next);
      }
      SeparateAppend(TargetWrites(targets[0], append), Plan(targets[1..], next).0);
    }
  }

  /** The volume size field lies in the descriptor, away from every target. */
  lemma VolumeIsElsewhere(targets: seq<Target>, limit: nat, append: nat, value: Word)
    requires Apart(targets, limit) && limit <= append * SECTOR && DESCRIPTOR + SECTOR <= limit
    ensures NoneMeets(Write(DESCRIPTOR + 80, BothEndian(value)), Plan(targets, append).0)
  {
    hide Sectors;
    PlanIsElsewhere(Write(DESCRIPTOR + 80, BothEndian(value)), targets, append);
  }

  /** All writes of a patch, the volume size included. */
  function AllWrites(targets: seq<Target>, append: nat): seq<Write> {
    Plan(targets, append).0 + VolumeSize(append, Plan(targets, append).1)
  }

  lemma PatchIsSeparate(targets: seq<Target>, limit: nat, append: nat)
    requires Apart(targets, limit) && limit <= append * SECTOR && DESCRIPTOR + SECTOR <= limit
    ensures Separate(AllWrites(targets, append))
  {
    hide Sectors, Apart, BothEndian;
    PlanIsSeparate(targets, append, limit);
    var (writes, end) := Plan(targets, append);
    VolumeIsElsewhere(targets, limit, append, Wrap(end));
    var volume := VolumeSize(append, end);
    forall w | w in writes ensures NoneMeets(w, volume) {
      assert !Meet(Write(DESCRIPTOR + 80, BothEndian(Wrap(end))), w);
    }
    if volume != [] {
      assert volume[1..] == [];
    }
    SeparateAppend(writes, volume);
  }

  // ----- the length of the image -----

  /** How long an image of `length` bytes is after the planned writes. */
  function PlannedEnd(targets: seq<Target>, append: nat, length: nat): nat
    decreases |targets|
  {
    if targets == [] then length
    else
      var t := targets[0];
      PlannedEnd(targets[1..], NextAppend(t, append),
                 if Fits(t) || t.content == [] then length else append * SECTOR + WrittenLength(t, append))
  }

  lemma {:induction false} PlannedLength(image: seq<Byte>, targets: seq<Target>, append: nat, limit: nat)
    requires Apart(targets, limit) && limit <= |image| <= append * SECTOR
    ensures limit <= |Land(image, Plan(targets, append).0)| == PlannedEnd(targets, append, |image|)
    decreases |targets|
  {
    hide Sectors, TargetWrites, Fits, WrittenLength, NextAppend, Apart, Overwrite;
    if targets != [] {
      var t := targets[0];
      FirstInBounds(targets, limit);
      var next := NextAppend(t, append);
      OneLength(image, t, append, limit);
      ApartTail(targets, limit);
      PlannedLength(Land(image, TargetWrites(t, append)), targets[1..], next, limit);
      LandAppend(image, TargetWrites(t, append), Plan(targets[1..], next).0);
    }
  }

  lemma FirstInBounds(targets: seq<Target>, limit: nat)
    requires targets != [] && Apart(targets, limit)
    ensures var t := targets[0];
      t.record.offset + 18 <= limit && (Fits(t) ==> (t.record.extent + Sectors(t.record.size)) * SECTOR <= limit)
  {
    hide Sectors, Fits;
    assert targets[0] in targets;
  }

  lemma OneLength(image: seq<Byte>, t: Target, append: nat, limit: nat)
    requires t.record.offset + 18 <= limit
    requires Fits(t) ==> (t.record.extent + Sectors(t.record.size)) * SECTOR <= limit
    requires limit <= |image| <= append * SECTOR
    ensures var length := |Land(image, TargetWrites(t, append))|;
      length == (if Fits(t) || t.content == [] then |image| else append * SECTOR + WrittenLength(t, append)) &&
      limit <= length <= NextAppend(t, append) * SECTOR
  {
    hide Sectors, WrittenLength;
    ContentWrite(t, append);
    var writes := TargetWrites(t, append);
    LandThree(image, writes[0], writes[1], writes[2]);
    FittingLength(t, append);
  }

  lemma FittingLength(t: Target, append: nat)
    ensures Fits(t) ==> WrittenLength(t, append) == Sectors(t.record.size) * SECTOR
  {
  }

  /** The last file that the plan appends any bytes for. */
  ghost predicate LastAppended(targets: seq<Target>, i: nat) {
    i < |targets| && !Fits(targets[i]) && targets[i].content != [] &&
    forall j :: i < j < |targets| ==> Fits(targets[j]) || targets[j].content == []
  }

  predicate NoneAppended(targets: seq<Target>) {
    forall t :: t in targets ==> Fits(t) || t.content == []
  }

  /** The append sector in turn `i`. */
  function AppendAt(targets: seq<Target>, append: nat, i: nat): nat
    requires i <= |targets|
    decreases i
  {
    if i == 0 then append else AppendAt(targets[1..], NextAppend(targets[0], append), i - 1)
  }

  lemma {:induction false} SomeLast(targets: seq<Target>)
    ensures NoneAppended(targets) || exists i: nat :: LastAppended(targets, i)
    decreases |targets|
  {
    hide Fits;
    if targets != [] {
      SomeLast(targets[1..]);
      if i: nat :| LastAppended(targets[1..], i) {
        assert LastAppended(targets, i + 1);
      } else {
        assert forall j :: 0 < j < |targets| ==> targets[j] in targets[1..];
        assert NoneAppended(targets) || LastAppended(targets, 0);
      }
    }
  }

  lemma {:induction false} EndOfNone(targets: seq<Target>, append: nat, length: nat)
    requires NoneAppended(targets)
    ensures PlannedEnd(targets, append, length) == length && Plan(targets, append).1 == append
    decreases |targets|
  {
    hide Fits, Sectors, TargetWrites, WrittenLength, NextAppend;
    if targets != [] {
      assert targets[0] in targets;
      EmptyAppends(targets[0], append);
      EndOfNone(targets[1..], append, length);
    }
  }

  /** The image ends where that file ends. */
  lemma {:induction false} EndOfLast(targets: seq<Target>, append: nat, length: nat, i: nat)
    requires LastAppended(targets, i)
    ensures var at := AppendAt(targets, append, i);
      PlannedEnd(targets, append, length) == at * SECTOR + WrittenLength(targets[i], at) &&
      Plan(targets, append).1 == NextAppend(targets[i], at)
    decreases |targets|
  {
    hide Fits, Sectors, TargetWrites, WrittenLength, NextAppend;
    var t, rest, next := targets[0], targets[1..], NextAppend(targets[0], append);
    var longer := if Fits(t) || t.content == [] then length else append * SECTOR + WrittenLength(t, append);
    if i > 0 {
      assert LastAppended(rest, i - 1);
      EndOfLast(rest, next, longer, i - 1);
    } else {
      EndOfNone(rest, next, longer);
    }
  }

  lemma EmptyAppends(t: Target, append: nat)
    ensures Fits(t) || t.content == [] ==> NextAppend(t, append) == append
  {
    SectorsHold(|t.content|);
  }

  /** No file ends the image inside a sector. */
  ghost predicate EndsWhole(targets: seq<Target>, append: nat) {
    forall i: nat :: LastAppended(targets, i) ==>
      targets[i].record.extent != AppendAt(targets, append, i) || |targets[i].content| % SECTOR == 0
  }

  lemma WholeLength(t: Target, append: nat)
    requires !Fits(t) && t.content != []
    ensures NextAppend(t, append) == append + Sectors(|t.content|)
    ensures (Sectors(|t.content|) - 1) * SECTOR < WrittenLength(t, append) <= Sectors(|t.content|) * SECTOR
    ensures WrittenLength(t, append) % SECTOR == 0 <==> t.record.extent != append || |t.content| % SECTOR == 0
  {
    hide Sectors;
    SectorsHold(|t.content|);
    WholeSectors(Sectors(|t.content|), |t.content|);
  }

  lemma EndInSector(at: int, length: int, sectors: int)
    requires (sectors - 1) * SECTOR < length <= sectors * SECTOR
    ensures (at * SECTOR + length) % SECTOR == 0 <==> length % SECTOR == 0
    ensures length % SECTOR == 0 ==> length == sectors * SECTOR
  {
  }

  /** The image stays a whole number of sectors exactly if the last appended file
      either is not appended at its own old extent or fills its sectors. */
  lemma PlannedEndIsExact(targets: seq<Target>, append: nat)
    ensures var end := PlannedEnd(targets, append, append * SECTOR);
      (end % SECTOR == 0 <==> EndsWhole(targets, append)) &&
      (EndsWhole(targets, append) ==> end == Plan(targets, append).1 * SECTOR) &&
      Sectors(end) == Plan(targets, append).1
  {
    hide Fits, Plan, PlannedEnd, WrittenLength, AppendAt, NextAppend;
    var length := append * SECTOR;
    SomeLast(targets);
    if i: nat :| LastAppended(targets, i) {
      EndOfLast(targets, append, length, i);
      var t, at := targets[i], AppendAt(targets, append, i);
      WholeLength(t, at);
      EndInSector(at, WrittenLength(t, at), Sectors(|t.content|));
      forall j: nat | LastAppended(targets, j) ensures j == i {
      }
    } else {
      EndOfNone(targets, append, length);
    }
  }

  lemma PatchedLength(image: seq<Byte>, targets: seq<Target>)
    requires |image| % SECTOR == 0 && DESCRIPTOR + SECTOR <= |image| && Apart(targets, |image|)
    ensures |image| <= |Patched(image, targets)| == PlannedEnd(targets, |image| / SECTOR, |image|)
  {
    hide Sectors, Apart, Overwrite, BothEndian;
    var append := |image| / SECTOR;
    var (writes, end) := Plan(targets, append);
    PlannedLength(image, targets, append, |image|);
    LandAppend(image, writes, VolumeSize(append, end));
    var landed := Land(image, writes);
    if end > append {
      VolumeLands(landed, Wrap(end));
    }
  }

  /** The same of the patched image, whose last sector is the last planned one. */
  lemma WholeImageIsExact(image: seq<Byte>, targets: seq<Target>)
    requires |image| % SECTOR == 0 && DESCRIPTOR + SECTOR <= |image| && Apart(targets, |image|)
    ensures |Patched(image, targets)| % SECTOR == 0 <==> EndsWhole(targets, |image| / SECTOR)
    ensures Sectors(|Patched(image, targets)|) == Plan(targets, |image| / SECTOR).1
    ensures EndsWhole(targets, |image| / SECTOR) ==> |Patched(image, targets)| == Plan(targets, |image| / SECTOR).1 * SECTOR
  {
    hide Apart, Patched, EndsWhole, Plan, PlannedEnd, Sectors;
    PatchedLength(image, targets);
    PlannedEndIsExact(targets, |image| / SECTOR);
  }

  /** A zero-length file whose extent is the first free sector, replaced by one
      byte: the image grows by that byte alone. */
  lemma OneByteEndsRagged(image: seq<Byte>)
    requires |image| == 20 * SECTOR
    ensures |Patched(image, [Target(Record([], false, 20, 0, 18 * SECTOR), [0x41])])| == 20 * SECTOR + 1
  {
    var t := Target(Record([], false, 20, 0, 18 * SECTOR), [0x41]);
    assert Apart([t], |image|);
    PatchedLength(image, [t]);
    assert [t][1..] == [];
  }

  lemma VolumeLands(image: seq<Byte>, value: Word)
    requires DESCRIPTOR + SECTOR <= |image|
    ensures |Land(image, [Write(DESCRIPTOR + 80, BothEndian(value))])| == |image|
  {
    var w := Write(DESCRIPTOR + 80, BothEndian(value));
    assert [w][1..] == [];
  }

  /** Padding to whole sectors fails exactly when the file did not fit and its old
      extent happens to be the next free sector. */
  lemma PaddingIsExact(t: Target, append: nat)
    ensures |TargetWrites(t, append)[0].bytes| % SECTOR == 0 <==>
      Fits(t) || t.record.extent != append || |t.content| % SECTOR == 0
  {
    hide Sectors, Fits;
    SectorsHold(|t.content|);
    SectorsHold(t.record.size);
    FitsMeans(t);
    WholeSectors(Sectors(t.record.size), |t.content|);
    WholeSectors(Sectors(|t.content|), |t.content|);
  }

  lemma FitsMeans(t: Target)
    ensures Fits(t) <==> Sectors(t.record.size) != 0 && Sectors(|t.content|) <= Sectors(t.record.size)
  {
  }

  lemma WholeSectors(n: int, size: int)
    ensures n * SECTOR % SECTOR == 0
    ensures size <= n * SECTOR ==> size + (n * SECTOR - size) == n * SECTOR
  {
  }
}
