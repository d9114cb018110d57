/** Reading a patched image back: replaced files have their new bytes, every other
    file keeps its place, size and bytes. */
module IsoLayout {
  import opened Words
  import opened ByteWrites
  import opened IsoDirectory
  import opened IsoPatch
  import opened IsoWrites

  /** New extent and size by record offset. */
  type Updates = map<nat, (Word, Word)>

  function Update(r: Record, u: Updates): Record {
    if r.offset in u then r.(extent := u[r.offset].0, size := u[r.offset].1) else r
  }

  function Updated(records: seq<Record>, u: Updates): seq<Record> {
    if records == [] then [] else [Update(records[0], u)] + Updated(records[1..], u)
  }

  ghost predicate InFields(u: Updates, i: int) {
    exists at :: at in u && at + 2 <= i < at + 18
  }

  // ----- one directory -----

  predicate InOrder(records: seq<Record>, low: int, high: int) {
    (forall r :: r in records ==> low <= r.offset && r.offset + 34 <= high) &&
    (forall i, j :: 0 <= i < j < |records| ==> records[i].offset + 34 <= records[j].offset)
  }

  lemma {:induction false} ScanInOrder(bytes: seq<Byte>, base: nat, path: seq<Byte>, cursor: nat, strict: bool)
    requires Scan(bytes, base, path, cursor, strict).Ok?
    ensures InOrder(Scan(bytes, base, path, cursor, strict).value, base + cursor, base + |bytes|)
    decreases |bytes| - cursor
  {
    hide RecordName, RecordAt;
    if cursor < |bytes| {
      var length: nat := bytes[cursor];
      if length == 0 {
        ScanInOrder(bytes, base, path, NextSector(cursor), strict);
      } else {
        ScanInOrder(bytes, base, path, cursor + length, strict);
        var name := RecordName(bytes, cursor, length, strict).value;
        if name != [] {
          RecordOffset(bytes, base, path, cursor, name);
        }
      }
    }
  }

  lemma RecordOffset(bytes: seq<Byte>, base: nat, path: seq<Byte>, at: nat, name: seq<Byte>)
    requires at + 34 <= |bytes|
    ensures RecordAt(bytes, base, path, at, name).offset == base + at
  {
  }

  /** Every updated record lies behind the cursor, ahead of it among the records
      still to come, or in another part of the image. */
  ghost predicate Placed(records: seq<Record>, u: Updates, low: int, cursor: int, high: int) {
    forall at :: at in u ==>
      at + 18 <= cursor || high <= at || at + 34 <= low || exists r :: r in records && r.offset == at
  }

  ghost predicate SameOutside(d: seq<Byte>, e: seq<Byte>, base: nat, u: Updates) {
    |d| == |e| && forall i :: 0 <= i < |d| && !InFields(u, base + i) ==> e[i] == d[i]
  }

  ghost predicate FieldsHold(e: seq<Byte>, base: nat, u: Updates) {
    forall at :: at in u && base <= at && at + 34 <= base + |e| ==>
      ReadWord(e, at - base + 2) == u[at].0 && ReadWord(e, at - base + 10) == u[at].1
  }

  lemma SameName(d: seq<Byte>, e: seq<Byte>, at: nat, length: nat, strict: bool)
    requires 34 <= length && at + length <= |d| == |e|
    requires forall i :: at + 18 <= i < at + length ==> e[i] == d[i]
    ensures RecordName(e, at, length, strict) == RecordName(d, at, length, strict)
  {
    var count: nat := d[at + 32];
    if 33 + count <= length {
      assert e[at + 33..at + 33 + count] == d[at + 33..at + 33 + count];
    }
  }

  /** Around the cursor only the record's own fields can differ. */
  lemma HeaderIsKept(d: seq<Byte>, e: seq<Byte>, base: nat, records: seq<Record>, u: Updates, cursor: nat, length: nat)
    requires SameOutside(d, e, base, u) && Placed(records, u, base, base + cursor, base + |d|)
    requires cursor + length <= |d| && forall r :: r in records ==> r.offset == base + cursor || base + cursor + length <= r.offset
    ensures forall i :: cursor <= i < cursor + length && !(cursor + 2 <= i < cursor + 18) ==> e[i] == d[i]
    ensures base + cursor !in u ==> forall i :: cursor <= i < cursor + length ==> e[i] == d[i]
  {
    forall i | cursor <= i < cursor + length && (!(cursor + 2 <= i < cursor + 18) || base + cursor !in u)
      ensures e[i] == d[i]
    {
      assert !InFields(u, base + i);
    }
  }

  lemma PlacedNext(records: seq<Record>, rest: seq<Record>, u: Updates, low: int, cursor: int, next: int, high: int)
    requires Placed(records, u, low, cursor, high) && cursor <= next
    requires forall r :: r in records ==> r in rest || r.offset + 18 <= next
    ensures Placed(rest, u, low, next, high)
  {
  }

  lemma ScanUnfolds(bytes: seq<Byte>, base: nat, path: seq<Byte>, cursor: nat, strict: bool)
    requires cursor < |bytes| && Scan(bytes, base, path, cursor, strict).Ok?
    ensures bytes[cursor] == 0 ==>
      Scan(bytes, base, path, cursor, strict) == Scan(bytes, base, path, NextSector(cursor), strict)
    ensures bytes[cursor] != 0 ==>
      34 <= bytes[cursor] && cursor + bytes[cursor] <= |bytes| &&
      RecordName(bytes, cursor, bytes[cursor], strict).Ok? &&
      Scan(bytes, base, path, cursor + bytes[cursor], strict).Ok? &&
      Scan(bytes, base, path, cursor, strict).value
        == Named(bytes, base, path, cursor, RecordName(bytes, cursor, bytes[cursor], strict).value)
         + Scan(bytes, base, path, cursor + bytes[cursor], strict).value
  {
    hide RecordName, Named, NextSector;
  }

  lemma ScanFolds(bytes: seq<Byte>, base: nat, path: seq<Byte>, cursor: nat, strict: bool, length: nat, rest: seq<Record>)
    requires cursor < |bytes| && bytes[cursor] == length && (length == 0 || (34 <= length && cursor + length <= |bytes|))
    requires length != 0 ==> RecordName(bytes, cursor, length, strict).Ok?
    requires Scan(bytes, base, path, if length == 0 then NextSector(cursor) else cursor + length, strict) == Ok(rest)
    ensures Scan(bytes, base, path, cursor, strict)
         == if length == 0 then Ok(rest)
            else Ok(Named(bytes, base, path, cursor, RecordName(bytes, cursor, length, strict).value) + rest)
  {
    hide RecordName, Named, NextSector;
  }

  lemma NamedPatched(d: seq<Byte>, e: seq<Byte>, base: nat, path: seq<Byte>, at: nat, name: seq<Byte>, u: Updates, rest: seq<Record>)
    requires at + 34 <= |d| == |e| && FieldsHold(e, base, u) && e[at + 25] == d[at + 25]
    requires base + at !in u ==> forall i :: at <= i < at + 34 ==> e[i] == d[i]
    ensures Updated(Named(d, base, path, at, name) + rest, u) == Named(e, base, path, at, name) + Updated(rest, u)
  {
    hide FieldsHold, RecordAt;
    if name != [] {
      RecordPatched(d, e, base, path, at, name, u);
      assert ([RecordAt(d, base, path, at, name)] + rest)[1..] == rest;
    } else {
      assert [] + rest == rest;
      assert [] + Updated(rest, u) == Updated(rest, u);
    }
  }

  lemma {:induction false} ScanPatched(d: seq<Byte>, e: seq<Byte>, base: nat, path: seq<Byte>, cursor: nat, strict: bool, u: Updates)
    requires Scan(d, base, path, cursor, strict).Ok? && SameOutside(d, e, base, u) && FieldsHold(e, base, u)
    requires Placed(Scan(d, base, path, cursor, strict).value, u, base, base + cursor, base + |d|)
    ensures Scan(e, base, path, cursor, strict) == Ok(Updated(Scan(d, base, path, cursor, strict).value, u))
    decreases |d| - cursor
  {
    hide RecordName, RecordAt, SameOutside, FieldsHold, Placed, Scan, Updated, Named, NextSector;
    SameLength(d, e, base, u);
    if cursor < |d| {
      var length: nat := d[cursor];
      var records := Scan(d, base, path, cursor, strict).value;
      ScanUnfolds(d, base, path, cursor, strict);
      ScanInOrder(d, base, path, cursor, strict);
      var next := if length == 0 then NextSector(cursor) else cursor + length;
      var rest := Scan(d, base, path, next, strict).value;
      ScanInOrder(d, base, path, next, strict);
      if length == 0 {
        HeaderIsKept(d, e, base, records, u, cursor, 1);
        PlacedNext(records, rest, u, base, base + cursor, base + next, base + |d|);
        ScanPatched(d, e, base, path, next, strict, u);
      } else {
        var name := RecordName(d, cursor, length, strict).value;
        NamedOffset(d, base, path, cursor, name);
        HeaderIsKept(d, e, base, records, u, cursor, length);
        SameName(d, e, cursor, length, strict);
        PlacedNext(records, rest, u, base, base + cursor, base + next, base + |d|);
        ScanPatched(d, e, base, path, next, strict, u);
        NamedPatched(d, e, base, path, cursor, name, u, rest);
      }
      ScanFolds(e, base, path, cursor, strict, length, Updated(rest, u));
    } else {
      ScanEnds(d, base, path, cursor, strict);
      ScanEnds(e, base, path, cursor, strict);
    }
  }

  lemma NamedOffset(bytes: seq<Byte>, base: nat, path: seq<Byte>, at: nat, name: seq<Byte>)
    requires at + 34 <= |bytes|
    ensures forall r :: r in Named(bytes, base, path, at, name) ==> r.offset == base + at
  {
  }

  lemma ScanEnds(bytes: seq<Byte>, base: nat, path: seq<Byte>, cursor: nat, strict: bool)
    requires |bytes| <= cursor
    ensures Scan(bytes, base, path, cursor, strict) == Ok([]) && forall u :: Updated([], u) == []
  {
  }

  lemma SameLength(d: seq<Byte>, e: seq<Byte>, base: nat, u: Updates)
    requires SameOutside(d, e, base, u)
    ensures |d| == |e|
  {
  }

  lemma RecordPatched(d: seq<Byte>, e: seq<Byte>, base: nat, path: seq<Byte>, at: nat, name: seq<Byte>, u: Updates)
    requires at + 34 <= |d| == |e| && FieldsHold(e, base, u) && e[at + 25] == d[at + 25]
    requires base + at !in u ==> forall i :: at <= i < at + 34 ==> e[i] == d[i]
    ensures RecordAt(e, base, path, at, name) == Update(RecordAt(d, base, path, at, name), u)
  {
    hide FromBytes, Joined;
  }

  // ----- the tree -----

  function AsDirectory(r: Record): Directory {
    Directory(r.path, r.extent, r.size)
  }

  lemma {:induction false} UpdatedAppend(a: seq<Record>, b: seq<Record>, u: Updates)
    ensures Updated(a + b, u) == Updated(a, u) + Updated(b, u)
    decreases |a|
  {
    if a == [] {
      assert a + b == b;
    } else {
      assert (a + b)[1..] == a[1..] + b;
      UpdatedAppend(a[1..], b, u);
    }
  }

  lemma {:induction false} SameDirectories(records: seq<Record>, u: Updates)
    requires forall r :: r in records && r.directory ==> r.offset !in u
    ensures Directories(Updated(records, u)) == Directories(records)
    decreases |records|
  {
    if records != [] {
      var tail := Updated(records[1..], u);
      assert ([Update(records[0], u)] + tail)[1..] == tail;
      SameDirectories(records[1..], u);
    }
  }

  lemma {:induction false} DirectoryRecord(records: seq<Record>, d: Directory)
    requires d in Directories(records)
    ensures exists r :: r in records && r.directory && AsDirectory(r) == d
    decreases |records|
  {
    if records != [] {
      if !(records[0].directory && AsDirectory(records[0]) == d) {
        DirectoryRecord(records[1..], d);
      }
    }
  }

  lemma {:induction false} DirectoriesAppend(a: seq<Record>, b: seq<Record>)
    ensures Directories(a + b) == Directories(a) + Directories(b)
    decreases |a|
  {
    if a == [] {
      assert a + b == b;
    } else {
      assert (a + b)[1..] == a[1..] + b;
      DirectoriesAppend(a[1..], b);
      var first := if a[0].directory then [AsDirectory(a[0])] else [];
      assert Directories(a) == first + Directories(a[1..]);
      assert first + Directories(a[1..]) + Directories(b) == first + (Directories(a[1..]) + Directories(b));
    }
  }

  /** The patched image differs in a nonempty directory only in updated fields. */
  ghost predicate Patchable(s: seq<Byte>, t: seq<Byte>, d: Directory, strict: bool, u: Updates) {
    |s| <= |t| &&
    (d.size != 0 && InImage(s, d.extent, d.size) && ScanDirectory(s, d, strict).Ok? ==>
      var base := d.extent * SECTOR;
      SameOutside(Content(s, d.extent, d.size), Content(t, d.extent, d.size), base, u) &&
      FieldsHold(Content(t, d.extent, d.size), base, u) &&
      Placed(ScanDirectory(s, d, strict).value, u, base, base, base + d.size))
  }

  lemma DirectoryPatched(s: seq<Byte>, t: seq<Byte>, d: Directory, strict: bool, u: Updates)
    requires Patchable(s, t, d, strict, u) && ScanDirectory(s, d, strict).Ok?
    ensures ScanDirectory(t, d, strict) == Ok(Updated(ScanDirectory(s, d, strict).value, u))
  {
    hide SameOutside, FieldsHold, Placed, Scan;
    if d.size == 0 {
      assert Content(s, d.extent, d.size) == Content(t, d.extent, d.size) == [];
      EmptyScan(d.extent * SECTOR, d.path, strict);
    } else {
      ScanPatched(Content(s, d.extent, d.size), Content(t, d.extent, d.size), d.extent * SECTOR, d.path, 0, strict, u);
    }
  }

  lemma EmptyScan(base: nat, path: seq<Byte>, strict: bool)
    ensures Scan([], base, path, 0, strict) == Ok([])
  {
  }

  lemma {:induction false} WalkPatched(s: seq<Byte>, t: seq<Byte>, pending: seq<Directory>, visited: set<(int, int)>, strict: bool, u: Updates)
    requires Walk(s, pending, visited, strict).Ok?
    requires var records := Walk(s, pending, visited, strict).value;
      (forall r :: r in records && r.directory ==> r.offset !in u) &&
      (forall d :: d in pending || d in Directories(records) ==> Patchable(s, t, d, strict, u))
    ensures Walk(t, pending, visited, strict) == Ok(Updated(Walk(s, pending, visited, strict).value, u))
    decreases |PLACES - visited|, |pending|
  {
    hide ScanDirectory, Patchable, PLACES, Place;
    if pending != [] {
      var d, others := pending[|pending| - 1], pending[..|pending| - 1];
      assert d in pending && forall x :: x in others ==> x in pending;
      if Place(d) in visited {
        WalkPatched(s, t, others, visited, strict, u);
      } else {
        var found := ScanDirectory(s, d, strict).value;
        var next := others + Directories(found);
        VisitsAreBounded(visited, d);
        var more := Walk(s, next, visited + {Place(d)}, strict).value;
        DirectoriesAppend(found, more);
        DirectoryPatched(s, t, d, strict, u);
        SameDirectories(found, u);
        UpdatedAppend(found, more, u);
        WalkPatched(s, t, next, visited + {Place(d)}, strict, u);
      }
    }
  }

  /** Each record comes from the scan of a pending or a found directory. */
  lemma {:induction false} WalkOrigin(s: seq<Byte>, pending: seq<Directory>, visited: set<(int, int)>, strict: bool, r: Record)
    returns (d: Directory)
    requires Walk(s, pending, visited, strict).Ok? && r in Walk(s, pending, visited, strict).value
    ensures d in pending || d in Directories(Walk(s, pending, visited, strict).value)
    ensures ScanDirectory(s, d, strict).Ok? && r in ScanDirectory(s, d, strict).value
    decreases |PLACES - visited|, |pending|
  {
    hide ScanDirectory, PLACES, Place;
    var last, others := pending[|pending| - 1], pending[..|pending| - 1];
    if Place(last) in visited {
      d := WalkOrigin(s, others, visited, strict, r);
    } else {
      var found := ScanDirectory(s, last, strict).value;
      if r in found {
        d := last;
      } else {
        VisitsAreBounded(visited, last);
        var next := others + Directories(found);
        d := WalkOrigin(s, next, visited + {Place(last)}, strict, r);
        DirectoriesAppend(found, Walk(s, next, visited + {Place(last)}, strict).value);
      }
    }
  }

  // ----- the patcher's index against the reader's -----

  lemma {:induction false} StrictScan(bytes: seq<Byte>, base: nat, path: seq<Byte>, cursor: nat)
    requires Scan(bytes, base, path, cursor, true).Ok?
    ensures Scan(bytes, base, path, cursor, false) == Scan(bytes, base, path, cursor, true)
    decreases |bytes| - cursor
  {
    hide RecordAt;
    if cursor < |bytes| {
      var length: nat := bytes[cursor];
      StrictScan(bytes, base, path, if length == 0 then NextSector(cursor) else cursor + length);
    }
  }

  /** The patcher indexes whatever the reader accepts. */
  lemma {:induction false} StrictWalk(s: seq<Byte>, pending: seq<Directory>, visited: set<(int, int)>)
    requires Walk(s, pending, visited, true).Ok?
    ensures Walk(s, pending, visited, false) == Walk(s, pending, visited, true)
    decreases |PLACES - visited|, |pending|
  {
    hide Scan, PLACES, Place;
    if pending != [] {
      var d, others := pending[|pending| - 1], pending[..|pending| - 1];
      if Place(d) in visited {
        StrictWalk(s, others, visited);
      } else {
        VisitsAreBounded(visited, d);
        StrictScan(Content(s, d.extent, d.size), d.extent * SECTOR, d.path, 0);
        StrictWalk(s, others + Directories(ScanDirectory(s, d, true).value), visited + {Place(d)});
      }
    }
  }
}
