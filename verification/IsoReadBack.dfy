/** The promise of the patcher, for images whose extents do not overlap. */
module IsoReadBack {
  import opened Words
  import opened ByteWrites
  import opened IsoDirectory
  import opened IsoPatch
  import opened IsoWrites
  import opened IsoLayout

  /** Root and records, the root as a record of its own. */
  function Tree(root: Directory, records: seq<Record>): seq<Record> {
    [Record(root.path, true, root.extent, root.size, 0)] + records
  }

  predicate Overlap(a: Record, b: Record) {
    a.size != 0 && b.size != 0 && Meet(Area(a), Area(b))
  }

  /** Whole sectors, every nonempty extent behind the descriptor and inside the
      image, no two of them sharing a sector. */
  ghost predicate LaidOut(s: seq<Byte>, records: seq<Record>) {
    |s| % SECTOR == 0 && Root(s).Ok? && WalkImage(s, true) == Ok(records) &&
    var tree := Tree(Root(s).value, records);
    (forall r :: r in tree && r.size != 0 ==> 17 <= r.extent && (r.extent + Sectors(r.size)) * SECTOR <= |s|) &&
    (forall i, j :: 0 <= i < j < |tree| ==> !Overlap(tree[i], tree[j]))
  }

  /** Files of the image, each replaced once. */
  ghost predicate Suitable(s: seq<Byte>, records: seq<Record>, targets: seq<Target>) {
    (forall t :: t in targets ==>
      t.record in records && !t.record.directory && |t.content| < TWO32) &&
    (forall i, j :: 0 <= i < j < |targets| ==> targets[i].record.offset != targets[j].record.offset)
  }

  // ----- where a record lies -----

  lemma ApartInTree(s: seq<Byte>, records: seq<Record>, a: Record, b: Record)
    requires LaidOut(s, records) && a in Tree(Root(s).value, records) && b in Tree(Root(s).value, records) && a != b
    ensures !Overlap(a, b) && !Overlap(b, a)
  {
    hide Root, WalkImage, Sectors;
    var tree := Tree(Root(s).value, records);
    var i :| 0 <= i < |tree| && tree[i] == a;
    var j :| 0 <= j < |tree| && tree[j] == b;
    assert i < j || j < i;
  }

  /** The nonempty directory whose scan yields the record. */
  lemma Origin(s: seq<Byte>, records: seq<Record>, r: Record) returns (d: Record)
    requires LaidOut(s, records) && r in records
    ensures d in Tree(Root(s).value, records) && d.directory && d.size != 0 && InImage(s, d.extent, d.size)
    ensures ScanDirectory(s, AsDirectory(d), true).Ok? && r in ScanDirectory(s, AsDirectory(d), true).value
    ensures d.extent * SECTOR <= r.offset && r.offset + 34 <= d.extent * SECTOR + d.size
  {
    hide Root, Walk, Sectors, Scan;
    var root := Root(s).value;
    var found := WalkOrigin(s, [root], {}, true, r);
    if found == root {
      d := Tree(root, records)[0];
    } else {
      DirectoryRecord(records, found);
      d :| d in records && d.directory && AsDirectory(d) == found;
    }
    assert AsDirectory(d) == found;
    ScanInOrder(Content(s, found.extent, found.size), found.extent * SECTOR, found.path, 0, true);
  }

  /** A record never lies in an extent other than that of its directory. */
  lemma FieldsOutside(s: seq<Byte>, records: seq<Record>, r: Record, d: Record, other: Record)
    requires LaidOut(s, records) && d in Tree(Root(s).value, records) && other in Tree(Root(s).value, records)
    requires d.size != 0 && d.extent * SECTOR <= r.offset && r.offset + 34 <= d.extent * SECTOR + d.size
    requires other != d && other.size != 0
    ensures r.offset + 34 <= other.extent * SECTOR || (other.extent + Sectors(other.size)) * SECTOR <= r.offset
  {
    hide Sectors, Root, LaidOut;
    ApartInTree(s, records, d, other);
    SectorsHold(d.size);
    SectorsHold(other.size);
  }

  /** Two different records are at least 34 bytes apart. */
  lemma RecordsApart(s: seq<Byte>, records: seq<Record>, a: Record, b: Record)
    requires LaidOut(s, records) && a in records && b in records && a.offset != b.offset
    ensures a.offset + 34 <= b.offset || b.offset + 34 <= a.offset
  {
    hide LaidOut, Root, Sectors;
    var d := Origin(s, records, a);
    var e := Origin(s, records, b);
    if d == e {
      SameScanApart(s, AsDirectory(d), a, b);
    } else {
      FieldsOutside(s, records, a, d, e);
      SectorsHold(e.size);
    }
  }

  lemma SameScanApart(s: seq<Byte>, d: Directory, a: Record, b: Record)
    requires ScanDirectory(s, d, true).Ok? && a in ScanDirectory(s, d, true).value && b in ScanDirectory(s, d, true).value
    requires a.offset != b.offset
    ensures a.offset + 34 <= b.offset || b.offset + 34 <= a.offset
  {
    hide Scan;
    var found := ScanDirectory(s, d, true).value;
    ScanInOrder(Content(s, d.extent, d.size), d.extent * SECTOR, d.path, 0, true);
    var i :| 0 <= i < |found| && found[i] == a;
    var j :| 0 <= j < |found| && found[j] == b;
    assert i < j || j < i;
  }

  // ----- the regions of the targets are apart -----

  lemma BehindDescriptor(s: seq<Byte>, records: seq<Record>, d: Record)
    requires LaidOut(s, records) && d in Tree(Root(s).value, records) && d.size != 0
    ensures 17 <= d.extent && (d.extent + Sectors(d.size)) * SECTOR <= |s|
  {
    hide Root, WalkImage, Sectors;
  }

  lemma TargetInBounds(s: seq<Byte>, records: seq<Record>, t: Target)
    requires LaidOut(s, records) && t.record in records && !t.record.directory
    ensures DESCRIPTOR + SECTOR <= t.record.offset && t.record.offset + 34 <= |s|
    ensures Fits(t) ==>
      t.record.size != 0 && DESCRIPTOR + SECTOR <= t.record.extent * SECTOR &&
      (t.record.extent + Sectors(t.record.size)) * SECTOR <= |s|
  {
    hide LaidOut, Root, Sectors;
    var d := Origin(s, records, t.record);
    BehindDescriptor(s, records, d);
    SectorsHold(d.size);
    SectorsHold(t.record.size);
    if t.record.size != 0 {
      BehindDescriptor(s, records, t.record);
    }
  }

  lemma FieldsAndArea(s: seq<Byte>, records: seq<Record>, r: Record, file: Record)
    requires LaidOut(s, records) && r in records && file in records && !file.directory && file.size != 0
    ensures !Meet(Fields(r), Area(file))
  {
    hide LaidOut, Root, Sectors;
    var d := Origin(s, records, r);
    FieldsOutside(s, records, r, d, file);
  }

  lemma TargetsAreApart(s: seq<Byte>, records: seq<Record>, targets: seq<Target>)
    requires LaidOut(s, records) && Suitable(s, records, targets)
    ensures Apart(targets, |s|)
  {
    hide LaidOut, Root, Sectors, Area, Fits, Fields;
    forall t | t in targets
      ensures DESCRIPTOR + SECTOR <= t.record.offset && t.record.offset + 18 <= |s|
      ensures Fits(t) ==>
        DESCRIPTOR + SECTOR <= t.record.extent * SECTOR && (t.record.extent + Sectors(t.record.size)) * SECTOR <= |s|
    {
      TargetInBounds(s, records, t);
    }
    forall t, u | t in targets && u in targets && Fits(u) ensures !Meet(Fields(t.record), Area(u.record)) {
      TargetInBounds(s, records, u);
      FieldsAndArea(s, records, t.record, u.record);
    }
    forall i, j | 0 <= i < j < |targets| ensures !Meet(Fields(targets[i].record), Fields(targets[j].record)) {
      FieldsApart(s, records, targets[i].record, targets[j].record);
    }
    forall i, j | 0 <= i < j < |targets| && Fits(targets[i]) && Fits(targets[j])
      ensures !Meet(Area(targets[i].record), Area(targets[j].record))
    {
      TargetInBounds(s, records, targets[i]);
      TargetInBounds(s, records, targets[j]);
      ApartInTree(s, records, targets[i].record, targets[j].record);
    }
  }

  lemma FieldsApart(s: seq<Byte>, records: seq<Record>, a: Record, b: Record)
    requires LaidOut(s, records) && a in records && b in records && a.offset != b.offset
    ensures !Meet(Fields(a), Fields(b))
  {
    hide LaidOut, Root;
    RecordsApart(s, records, a, b);
  }

  // ----- what the plan writes -----

  function NewPlaces(targets: seq<Target>, append: nat): Updates {
    if targets == [] then map[]
    else
      var t := targets[0];
      NewPlaces(targets[1..], NextAppend(t, append))[t.record.offset := (Wrap(DataSector(t, append)), Wrap(|t.content|))]
  }

  predicate Moves(targets: seq<Target>, at: nat) {
    exists t :: t in targets && t.record.offset == at
  }

  lemma {:induction false} KeysAreOffsets(targets: seq<Target>, append: nat)
    ensures forall at :: at in NewPlaces(targets, append) <==> Moves(targets, at)
    decreases |targets|
  {
    hide NextAppend, DataSector;
    if targets != [] {
      var t := targets[0];
      KeysAreOffsets(targets[1..], NextAppend(t, append));
      forall at: nat ensures at in NewPlaces(targets, append) <==> Moves(targets, at) {
        assert t in targets;
        if Moves(targets[1..], at) {
          var u :| u in targets[1..] && u.record.offset == at;
          assert u in targets;
        }
        if at != t.record.offset && Moves(targets, at) {
          var u :| u in targets && u.record.offset == at;
          assert u in targets[1..];
        }
      }
    }
  }

  /** The turn in which one target is written, and the sector count before it. */
  lemma {:induction false} Turn(targets: seq<Target>, append: nat, k: nat) returns (before: nat)
    requires k < |targets|
    requires forall i, j :: 0 <= i < j < |targets| ==> targets[i].record.offset != targets[j].record.offset
    ensures forall w :: w in TargetWrites(targets[k], before) ==> w in Plan(targets, append).0
    ensures targets[k].record.offset in NewPlaces(targets, append) &&
      NewPlaces(targets, append)[targets[k].record.offset]
        == (Wrap(DataSector(targets[k], before)), Wrap(|targets[k].content|))
    ensures append <= before && NextAppend(targets[k], before) <= Plan(targets, append).1
    decreases |targets|
  {
    hide TargetWrites, DataSector, Fits, Sectors;
    var next := NextAppend(targets[0], append);
    if k == 0 {
      before := append;
      PlanGrows(targets[1..], next);
    } else {
      assert targets[1..][k - 1] == targets[k];
      before := Turn(targets[1..], next, k - 1);
    }
  }

  lemma {:induction false} PlanGrows(targets: seq<Target>, append: nat)
    ensures append <= Plan(targets, append).1
    decreases |targets|
  {
    hide TargetWrites, Fits, Sectors;
    if targets != [] {
      PlanGrows(targets[1..], NextAppend(targets[0], append));
    }
  }

  /** Inside the old image the plan touches updated fields and areas of targets. */
  lemma {:induction false} PlanTouches(targets: seq<Target>, append: nat, limit: nat, w: Write, i: nat)
    requires w in Plan(targets, append).0 && Covers(w, i) && i < limit <= append * SECTOR
    ensures exists t :: t in targets && (Covers(Fields(t.record), i) || (Fits(t) && Covers(Area(t.record), i)))
    decreases |targets|
  {
    hide TargetWrites, Fits, Sectors;
    var t := targets[0];
    assert t in targets;
    if w in TargetWrites(t, append) {
      OneTouches(t, append, limit, w, i);
    } else {
      var next := NextAppend(t, append);
      PlanTouches(targets[1..], next, limit, w, i);
      var u :| u in targets[1..] && (Covers(Fields(u.record), i) || (Fits(u) && Covers(Area(u.record), i)));
      assert u in targets;
    }
  }

  lemma OneTouches(t: Target, append: nat, limit: nat, w: Write, i: nat)
    requires w in TargetWrites(t, append) && Covers(w, i) && i < limit <= append * SECTOR
    ensures Covers(Fields(t.record), i) || (Fits(t) && Covers(Area(t.record), i))
  {
    hide Sectors;
    ContentWrite(t, append);
    var writes := TargetWrites(t, append);
    assert w == writes[0] || w == writes[1] || w == writes[2];
  }

  // ----- the patched image, byte by byte -----

  lemma KeptByte(s: seq<Byte>, targets: seq<Target>, i: nat)
    requires |s| % SECTOR == 0 && Apart(targets, |s|) && DESCRIPTOR + SECTOR <= |s|
    requires i < DESCRIPTOR + 80 || (DESCRIPTOR + 88 <= i < |s|)
    requires forall t :: t in targets ==> !Covers(Fields(t.record), i) && (Fits(t) ==> !Covers(Area(t.record), i))
    ensures |s| <= |Patched(s, targets)| && Patched(s, targets)[i] == s[i]
  {
    hide Sectors, Fits, TargetWrites, Land, Area, Fields;
    var append := |s| / SECTOR;
    var (writes, end) := Plan(targets, append);
    var volume := VolumeSize(append, end);
    forall w | w in writes + volume ensures !Covers(w, i) {
      if w in writes && Covers(w, i) {
        PlanTouches(targets, append, |s|, w, i);
      }
      if w in volume {
        assert |w.bytes| == 8;
      }
    }
    LandKeeps(s, writes + volume, i);
  }

  /** Every planned write is there in the end. */
  lemma WrittenHolds(s: seq<Byte>, targets: seq<Target>, w: Write)
    requires |s| % SECTOR == 0 && Apart(targets, |s|) && DESCRIPTOR + SECTOR <= |s|
    requires w in AllWrites(targets, |s| / SECTOR)
    ensures Holds(Patched(s, targets), w)
  {
    hide Sectors, TargetWrites, Land, Apart;
    PatchIsSeparate(targets, |s|, |s| / SECTOR);
    AllHold(s, AllWrites(targets, |s| / SECTOR));
  }

  lemma HeldField(image: seq<Byte>, at: nat, value: Word)
    requires Holds(image, Write(at, BothEndian(value)))
    ensures at + 8 <= |image| && ReadWord(image, at) == value && image[at..at + 8] == BothEndian(value)
  {
    var w := Write(at, BothEndian(value));
    assert Covers(w, at) && Covers(w, at + 1) && Covers(w, at + 2) && Covers(w, at + 3);
    assert Covers(w, at + 4) && Covers(w, at + 5) && Covers(w, at + 6) && Covers(w, at + 7);
    BytesRoundTrip(value);
  }

  // ----- reading back -----

  lemma PatchedGrows(s: seq<Byte>, targets: seq<Target>)
    requires |s| % SECTOR == 0 && DESCRIPTOR + SECTOR <= |s| && Apart(targets, |s|)
    ensures |s| <= |Patched(s, targets)|
  {
    hide Apart, Patched, PlannedEnd;
    PatchedLength(s, targets);
  }

  lemma AtLeastDescriptor(s: seq<Byte>, records: seq<Record>)
    requires LaidOut(s, records)
    ensures |s| % SECTOR == 0 && DESCRIPTOR + SECTOR <= |s| && Root(s).Ok?
  {
    hide WalkImage;
  }

  /** Extent and size of a target's record, in both byte orders. */
  lemma FieldsWritten(s: seq<Byte>, records: seq<Record>, targets: seq<Target>, k: nat) returns (before: nat)
    requires LaidOut(s, records) && Suitable(s, records, targets) && k < |targets|
    ensures var u := NewPlaces(targets, |s| / SECTOR);
      var t, at := Patched(s, targets), targets[k].record.offset;
      at in u && u[at] == (Wrap(DataSector(targets[k], before)), Wrap(|targets[k].content|)) &&
      at + 18 <= |t| && ReadWord(t, at + 2) == u[at].0 && ReadWord(t, at + 10) == u[at].1 &&
      t[at + 2..at + 10] == BothEndian(u[at].0) && t[at + 10..at + 18] == BothEndian(u[at].1)
    ensures |s| / SECTOR <= before && NextAppend(targets[k], before) <= Plan(targets, |s| / SECTOR).1
    ensures Holds(Patched(s, targets), TargetWrites(targets[k], before)[0])
  {
    hide Apart, LaidOut, Patched, BothEndian, Land, DataSector, PaddedSectors, NextAppend, NewPlaces;
    TargetsAreApart(s, records, targets);
    AtLeastDescriptor(s, records);
    before := Turn(targets, |s| / SECTOR, k);
    var writes := TargetWrites(targets[k], before);
    assert writes[0] in writes && writes[1] in writes && writes[2] in writes;
    WrittenHolds(s, targets, writes[0]);
    WrittenHolds(s, targets, writes[1]);
    WrittenHolds(s, targets, writes[2]);
    HeldField(Patched(s, targets), targets[k].record.offset + 2, Wrap(DataSector(targets[k], before)));
    HeldField(Patched(s, targets), targets[k].record.offset + 10, Wrap(|targets[k].content|));
  }

  lemma InArea(r: Record, i: nat)
    requires r.extent * SECTOR <= i < r.extent * SECTOR + r.size
    ensures Covers(Area(r), i)
  {
    hide Sectors;
    SectorsHold(r.size);
  }

  /** Bytes of an extent that no target rewrites. */
  lemma ExtentByte(s: seq<Byte>, records: seq<Record>, targets: seq<Target>, e: Record, i: nat)
    requires LaidOut(s, records) && Suitable(s, records, targets) && e in Tree(Root(s).value, records)
    requires e.extent * SECTOR <= i < e.extent * SECTOR + e.size
    requires forall t :: t in targets ==> t.record != e && !Covers(Fields(t.record), i)
    ensures i < |s| <= |Patched(s, targets)| && Patched(s, targets)[i] == s[i]
  {
    hide Apart, LaidOut, Patched, Root, Area, Fields, Sectors;
    TargetsAreApart(s, records, targets);
    AtLeastDescriptor(s, records);
    BehindDescriptor(s, records, e);
    SectorsHold(e.size);
    InArea(e, i);
    forall t | t in targets && Fits(t) ensures !Covers(Area(t.record), i) {
      TargetInBounds(s, records, t);
      ApartInTree(s, records, e, t.record);
    }
    KeptByte(s, targets, i);
  }

  lemma DirectoryKept(s: seq<Byte>, records: seq<Record>, targets: seq<Target>, d: Record)
    requires LaidOut(s, records) && Suitable(s, records, targets)
    requires d in Tree(Root(s).value, records) && d.directory && d.size != 0 && InImage(s, d.extent, d.size)
    ensures |s| <= |Patched(s, targets)| &&
      SameOutside(Content(s, d.extent, d.size), Content(Patched(s, targets), d.extent, d.size),
                  d.extent * SECTOR, NewPlaces(targets, |s| / SECTOR))
  {
    hide Apart, LaidOut, Patched, NewPlaces, Root;
    var u := NewPlaces(targets, |s| / SECTOR);
    TargetsAreApart(s, records, targets);
    AtLeastDescriptor(s, records);
    PatchedGrows(s, targets);
    KeysAreOffsets(targets, |s| / SECTOR);
    var base: nat := d.extent * SECTOR;
    var before, after := Content(s, d.extent, d.size), Content(Patched(s, targets), d.extent, d.size);
    forall i | 0 <= i < d.size && !InFields(u, base + i) ensures after[i] == before[i] {
      forall t | t in targets ensures t.record != d && !Covers(Fields(t.record), base + i) {
        assert Moves(targets, t.record.offset);
        assert t.record.offset in u;
      }
      ExtentByte(s, records, targets, d, base + i);
    }
  }

  lemma DirectoryFields(s: seq<Byte>, records: seq<Record>, targets: seq<Target>, extent: Word, size: Word)
    requires LaidOut(s, records) && Suitable(s, records, targets)
    requires InImage(Patched(s, targets), extent, size)
    ensures FieldsHold(Content(Patched(s, targets), extent, size), extent * SECTOR, NewPlaces(targets, |s| / SECTOR))
  {
    hide Apart, LaidOut, Patched, NewPlaces, Root, TargetWrites, BothEndian, Plan, NextAppend, DataSector, ReadWord;
    var u := NewPlaces(targets, |s| / SECTOR);
    var t := Patched(s, targets);
    KeysAreOffsets(targets, |s| / SECTOR);
    forall at | at in u && extent * SECTOR <= at && at + 34 <= extent * SECTOR + size
      ensures ReadWord(Content(t, extent, size), at - extent * SECTOR + 2) == u[at].0
      ensures ReadWord(Content(t, extent, size), at - extent * SECTOR + 10) == u[at].1
    {
      assert Moves(targets, at);
      var target :| target in targets && target.record.offset == at;
      var k :| 0 <= k < |targets| && targets[k] == target;
      var before := FieldsWritten(s, records, targets, k);
      SliceWord(t, extent * SECTOR, size, at + 2);
      SliceWord(t, extent * SECTOR, size, at + 10);
    }
  }

  lemma SliceWord(image: seq<Byte>, base: nat, size: nat, at: nat)
    requires base + size <= |image| && base <= at && at + 4 <= base + size
    ensures ReadWord(image[base..base + size], at - base) == ReadWord(image, at)
  {
  }

  lemma DirectoryPlaced(s: seq<Byte>, records: seq<Record>, targets: seq<Target>, d: Record)
    requires LaidOut(s, records) && Suitable(s, records, targets)
    requires d in Tree(Root(s).value, records) && d.directory && d.size != 0
    requires ScanDirectory(s, AsDirectory(d), true).Ok?
    ensures Placed(ScanDirectory(s, AsDirectory(d), true).value, NewPlaces(targets, |s| / SECTOR),
                   d.extent * SECTOR, d.extent * SECTOR, d.extent * SECTOR + d.size)
  {
    hide Apart, LaidOut, NewPlaces, Root, ScanDirectory, Sectors;
    var u := NewPlaces(targets, |s| / SECTOR);
    KeysAreOffsets(targets, |s| / SECTOR);
    SectorsHold(d.size);
    forall at | at in u
      ensures d.extent * SECTOR + d.size <= at || at + 34 <= d.extent * SECTOR ||
        exists r :: r in ScanDirectory(s, AsDirectory(d), true).value && r.offset == at
    {
      assert Moves(targets, at);
      var target :| target in targets && target.record.offset == at;
      var home := Origin(s, records, target.record);
      if home != d {
        FieldsOutside(s, records, target.record, home, d);
      }
    }
  }

  lemma DirectoryIsPatchable(s: seq<Byte>, records: seq<Record>, targets: seq<Target>, d: Record)
    requires LaidOut(s, records) && Suitable(s, records, targets)
    requires d in Tree(Root(s).value, records) && d.directory
    ensures Patchable(s, Patched(s, targets), AsDirectory(d), true, NewPlaces(targets, |s| / SECTOR))
  {
    hide Apart, LaidOut, Patched, NewPlaces, Root, ScanDirectory, SameOutside, FieldsHold, Placed;
    TargetsAreApart(s, records, targets);
    AtLeastDescriptor(s, records);
    PatchedGrows(s, targets);
    if d.size != 0 && InImage(s, d.extent, d.size) && ScanDirectory(s, AsDirectory(d), true).Ok? {
      DirectoryKept(s, records, targets, d);
      DirectoryFields(s, records, targets, d.extent, d.size);
      DirectoryPlaced(s, records, targets, d);
    }
  }

  lemma RootIsKept(s: seq<Byte>, records: seq<Record>, targets: seq<Target>)
    requires LaidOut(s, records) && Suitable(s, records, targets)
    ensures Root(Patched(s, targets)) == Root(s)
  {
    hide Apart, LaidOut, Patched, WalkImage, Fits, Area;
    TargetsAreApart(s, records, targets);
    AtLeastDescriptor(s, records);
    PatchedGrows(s, targets);
    var t := Patched(s, targets);
    forall i: nat | i < DESCRIPTOR + SECTOR && !(DESCRIPTOR + 80 <= i < DESCRIPTOR + 88) ensures t[i] == s[i] {
      DescriptorByte(s, records, targets, i);
    }
    SameRoot(s, t);
  }

  lemma DescriptorByte(s: seq<Byte>, records: seq<Record>, targets: seq<Target>, i: nat)
    requires LaidOut(s, records) && Suitable(s, records, targets)
    requires i < DESCRIPTOR + SECTOR && !(DESCRIPTOR + 80 <= i < DESCRIPTOR + 88)
    ensures i < |s| <= |Patched(s, targets)| && Patched(s, targets)[i] == s[i]
  {
    hide LaidOut, Patched, Root, Sectors;
    TargetsAreApart(s, records, targets);
    AtLeastDescriptor(s, records);
    KeptByte(s, targets, i);
  }

  lemma SameRoot(s: seq<Byte>, t: seq<Byte>)
    requires DESCRIPTOR + SECTOR <= |s| <= |t|
    requires forall i: nat :: i < DESCRIPTOR + SECTOR && !(DESCRIPTOR + 80 <= i < DESCRIPTOR + 88) ==> t[i] == s[i]
    ensures Root(t) == Root(s)
  {
    hide FromBytes;
    var b, c := s[DESCRIPTOR..DESCRIPTOR + SECTOR], t[DESCRIPTOR..DESCRIPTOR + SECTOR];
    assert forall i :: 0 <= i < 80 || 88 <= i < SECTOR ==> b[i] == c[i] by {
      assert forall i :: 0 <= i < SECTOR ==> b[i] == s[DESCRIPTOR + i] && c[i] == t[DESCRIPTOR + i];
    }
    assert b[..7] == c[..7];
  }

  /** Reading the directories of the patched image back gives every record with
      its old name and place, and the new extent and size where it was replaced. */
  lemma TreeReadBack(s: seq<Byte>, records: seq<Record>, targets: seq<Target>)
    requires LaidOut(s, records) && Suitable(s, records, targets)
    ensures WalkImage(Patched(s, targets), true) == Ok(Updated(records, NewPlaces(targets, |s| / SECTOR)))
  {
    hide Patched, NewPlaces, Root, Walk, Patchable, Sectors, Overlap;
    var u := NewPlaces(targets, |s| / SECTOR);
    var root := Root(s).value;
    RootIsKept(s, records, targets);
    forall d | d in [root] || d in Directories(records) ensures Patchable(s, Patched(s, targets), d, true, u) {
      TreeIsPatchable(s, records, targets, d);
    }
    forall r | r in records && r.directory ensures r.offset !in u {
      DirectoriesStay(s, records, targets, r);
    }
    WalkPatched(s, Patched(s, targets), [root], {}, true, u);
  }

  lemma TreeIsPatchable(s: seq<Byte>, records: seq<Record>, targets: seq<Target>, d: Directory)
    requires LaidOut(s, records) && Suitable(s, records, targets)
    requires d == Root(s).value || d in Directories(records)
    ensures Patchable(s, Patched(s, targets), d, true, NewPlaces(targets, |s| / SECTOR))
  {
    hide LaidOut, Patched, NewPlaces, Root, Patchable;
    AtLeastDescriptor(s, records);
    var root := Root(s).value;
    if d == root {
      var r := Tree(root, records)[0];
      DirectoryIsPatchable(s, records, targets, r);
    } else {
      DirectoryRecord(records, d);
      var r :| r in records && r.directory && AsDirectory(r) == d;
      DirectoryIsPatchable(s, records, targets, r);
    }
  }

  /** A directory and a file are different records at different offsets. */
  lemma DirectoriesStay(s: seq<Byte>, records: seq<Record>, targets: seq<Target>, r: Record)
    requires LaidOut(s, records) && Suitable(s, records, targets) && r in records && r.directory
    ensures r.offset !in NewPlaces(targets, |s| / SECTOR)
  {
    hide LaidOut, NewPlaces, Root;
    KeysAreOffsets(targets, |s| / SECTOR);
    if Moves(targets, r.offset) {
      var t :| t in targets && t.record.offset == r.offset;
      OneRecordPerOffset(s, records, r, t.record);
    }
  }

  lemma OneRecordPerOffset(s: seq<Byte>, records: seq<Record>, a: Record, b: Record)
    requires LaidOut(s, records) && a in records && b in records && a.offset == b.offset
    ensures a == b
  {
    hide LaidOut, Root, Sectors, Scan;
    var d := Origin(s, records, a);
    var e := Origin(s, records, b);
    if d != e {
      FieldsOutside(s, records, a, d, e);
      SectorsHold(e.size);
    } else {
      var found := ScanDirectory(s, AsDirectory(d), true).value;
      ScanInOrder(Content(s, d.extent, d.size), d.extent * SECTOR, d.path, 0, true);
      var i :| 0 <= i < |found| && found[i] == a;
      var j :| 0 <= j < |found| && found[j] == b;
    }
  }

  /** A file that is not replaced keeps its bytes where they were. */
  lemma FileKept(s: seq<Byte>, records: seq<Record>, targets: seq<Target>, r: Record)
    requires LaidOut(s, records) && Suitable(s, records, targets)
    requires r in records && !r.directory && r.offset !in NewPlaces(targets, |s| / SECTOR)
    requires InImage(s, r.extent, r.size)
    ensures InImage(Patched(s, targets), r.extent, r.size) &&
      Content(Patched(s, targets), r.extent, r.size) == Content(s, r.extent, r.size)
  {
    hide Apart, LaidOut, Patched, NewPlaces, Root, Area, Fields, Sectors;
    TargetsAreApart(s, records, targets);
    AtLeastDescriptor(s, records);
    PatchedGrows(s, targets);
    KeysAreOffsets(targets, |s| / SECTOR);
    var base: nat := r.extent * SECTOR;
    forall i: nat | base <= i < base + r.size ensures Patched(s, targets)[i] == s[i] {
      InArea(r, i);
      forall t | t in targets ensures t.record != r && !Covers(Fields(t.record), i) {
        assert Moves(targets, t.record.offset);
        FieldsAndArea(s, records, t.record, r);
      }
      ExtentByte(s, records, targets, r, i);
    }
  }

  /** A replaced file reads back as its new content, in its old place if it fits. */
  lemma ReplacementReadsBack(s: seq<Byte>, records: seq<Record>, targets: seq<Target>, k: nat)
    requires LaidOut(s, records) && Suitable(s, records, targets) && k < |targets|
    requires Plan(targets, |s| / SECTOR).1 < TWO32
    ensures var t, u := Patched(s, targets), NewPlaces(targets, |s| / SECTOR);
      var at, content := targets[k].record.offset, targets[k].content;
      at in u && u[at].1 == |content| &&
      (content != [] || Fits(targets[k]) || EndsWhole(targets, |s| / SECTOR) ==>
        InImage(t, u[at].0, |content|) && Content(t, u[at].0, |content|) == content) &&
      (if Fits(targets[k]) then u[at].0 == targets[k].record.extent else |s| <= u[at].0 * SECTOR) &&
      at + 18 <= |t| && t[at + 2..at + 10] == BothEndian(u[at].0) && t[at + 10..at + 18] == BothEndian(u[at].1)
  {
    hide Apart, LaidOut, Patched, NewPlaces, Root, BothEndian, Sectors, Land, TargetWrites, Fits, NextAppend, Plan, DataSector, Wrap, Holds, EndsWhole;
    var t := targets[k];
    assert t in targets;
    var before := FieldsWritten(s, records, targets, k);
    AtLeastDescriptor(s, records);
    TargetsAreApart(s, records, targets);
    WholeImageIsExact(s, targets);
    PatchedGrows(s, targets);
    TargetInBounds(s, records, t);
    TurnBounds(t, before, |s| / SECTOR);
    if t.content != [] || Fits(t) || EndsWhole(targets, |s| / SECTOR) {
      ContentPlace(Patched(s, targets), t, before);
    }
    SmallWrap(DataSector(t, before));
    SmallWrap(|t.content|);
  }

  lemma SmallWrap(value: nat)
    requires value < TWO32
    ensures Wrap(value) == value
  {
  }

  lemma TurnBounds(t: Target, before: nat, append: nat)
    requires append <= before
    ensures if Fits(t) then DataSector(t, before) < TWO32 else DataSector(t, before) <= NextAppend(t, before)
    ensures if Fits(t) then DataSector(t, before) == t.record.extent else append <= DataSector(t, before)
  {
    hide Sectors;
  }

  lemma ContentPlace(image: seq<Byte>, t: Target, before: nat)
    requires Holds(image, TargetWrites(t, before)[0])
    requires t.content != [] || DataSector(t, before) * SECTOR <= |image|
    ensures var at := DataSector(t, before) * SECTOR;
      at + |t.content| <= |image| && image[at..at + |t.content|] == t.content
  {
    hide Sectors, Holds;
    ContentWrite(t, before);
    HeldContent(image, TargetWrites(t, before)[0], t.content);
  }

  /** The declared volume size is that of the grown image, a last sector that is
      not filled counted as one. */
  lemma VolumeReadsBack(s: seq<Byte>, records: seq<Record>, targets: seq<Target>)
    requires LaidOut(s, records) && Suitable(s, records, targets)
    requires Plan(targets, |s| / SECTOR).1 < TWO32
    ensures |Patched(s, targets)| % SECTOR == 0 <==> EndsWhole(targets, |s| / SECTOR)
    ensures var t := Patched(s, targets);
      Sectors(|t|) < TWO32 && DESCRIPTOR + 88 <= |t| &&
      (Sectors(|t|) > |s| / SECTOR ==> t[DESCRIPTOR + 80..DESCRIPTOR + 88] == BothEndian(Sectors(|t|)))
  {
    hide Apart, LaidOut, Patched, BothEndian, Land, Wrap, Holds, EndsWhole, Sectors;
    AtLeastDescriptor(s, records);
    TargetsAreApart(s, records, targets);
    WholeImageIsExact(s, targets);
    PatchedGrows(s, targets);
    var append := |s| / SECTOR;
    var (writes, end) := Plan(targets, append);
    if end > append {
      WrittenHolds(s, targets, Write(DESCRIPTOR + 80, BothEndian(Wrap(end))));
      HeldField(Patched(s, targets), DESCRIPTOR + 80, Wrap(end));
      SmallWrap(end);
    }
  }

  /** Patching an image the reader accepts: its directories read back with exactly
      the replaced files changed, and the image stays sector aligned exactly if no
      file that fills its sectors badly is appended last at its own old extent. */
  lemma PatchPreservesLayout(s: seq<Byte>, records: seq<Record>, replacements: seq<Replacement>)
    requires LaidOut(s, records) && Resolve(records, replacements).Ok?
    requires Suitable(s, records, Resolve(records, replacements).value)
    requires Plan(Resolve(records, replacements).value, |s| / SECTOR).1 < TWO32
    ensures var targets := Resolve(records, replacements).value;
      Patch(s, replacements) == Ok(Patched(s, targets)) &&
      (|Patched(s, targets)| % SECTOR == 0 <==> EndsWhole(targets, |s| / SECTOR)) &&
      WalkImage(Patched(s, targets), true) == Ok(Updated(records, NewPlaces(targets, |s| / SECTOR)))
  {
    hide Patched, NewPlaces, Resolve, Suitable, Root, Walk, Plan, EndsWhole;
    var targets := Resolve(records, replacements).value;
    StrictWalk(s, [Root(s).value], {});
    VolumeReadsBack(s, records, targets);
    TreeReadBack(s, records, targets);
  }
}
