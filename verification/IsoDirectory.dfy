/** The directory tree of an ISO 9660 image as src/iso.cpp and src/iso_patch.cpp
    walk it. */
module IsoDirectory {
  import opened Words
  import opened ByteWrites

  const SECTOR := 2048

  datatype Result<+T> = Ok(value: T) | Malformed

  // ----- names -----

  const SEMICOLON: Byte := 0x3b
  const DOT: Byte := 0x2e
  const SLASH: Byte := 0x2f
  const BACKSLASH: Byte := 0x5c

  /** What is before the version separator. */
  function Unversioned(name: seq<Byte>): seq<Byte> {
    if name == [] || name[0] == SEMICOLON then [] else [name[0]] + Unversioned(name[1..])
  }

  function WithoutDots(name: seq<Byte>): seq<Byte> {
    if name != [] && name[|name| - 1] == DOT then WithoutDots(name[..|name| - 1]) else name
  }

  /** The reader refuses what could leave the extraction directory. */
  predicate Unsafe(name: seq<Byte>) {
    name == [] || name == [DOT] || name == [DOT, DOT] || SLASH in name || BACKSLASH in name
  }

  /** The empty name stands for the self and parent entries, which are skipped. */
  function RecordName(bytes: seq<Byte>, at: nat, length: nat, strict: bool): Result<seq<Byte>>
    requires 34 <= length && at + length <= |bytes|
  {
    var count: nat := bytes[at + 32];
    if 33 + count > length then Malformed
    else if count == 1 && bytes[at + 33] in {0, 1} then Ok([])
    else
      var name := WithoutDots(Unversioned(bytes[at + 33..at + 33 + count]));
      if strict && Unsafe(name) then Malformed else Ok(name)
  }

  // ----- one directory -----

  /** `offset` is where in the image the record itself lies. */
  datatype Record = Record(path: seq<Byte>, directory: bool, extent: Word, size: Word, offset: nat)

  datatype Directory = Directory(path: seq<Byte>, extent: Word, size: Word)

  function Joined(path: seq<Byte>, name: seq<Byte>): seq<Byte> {
    if path == [] then name else path + [SLASH] + name
  }

  function RecordAt(bytes: seq<Byte>, base: nat, path: seq<Byte>, at: nat, name: seq<Byte>): Record
    requires at + 34 <= |bytes|
  {
    Record(Joined(path, name), bytes[at + 25] / 2 % 2 == 1, ReadWord(bytes, at + 2), ReadWord(bytes, at + 10), base + at)
  }

  /** Nothing for the self and parent entries. */
  function Named(bytes: seq<Byte>, base: nat, path: seq<Byte>, at: nat, name: seq<Byte>): seq<Record>
    requires at + 34 <= |bytes|
  {
    if name == [] then [] else [RecordAt(bytes, base, path, at, name)]
  }

  function Before(records: seq<Record>, rest: Result<seq<Record>>): Result<seq<Record>> {
    if rest.Malformed? then rest else Ok(records + rest.value)
  }

  lemma BeforeAssociates(a: seq<Record>, b: seq<Record>, rest: Result<seq<Record>>)
    ensures Before(a, Before(b, rest)) == Before(a + b, rest)
    ensures Before([], rest) == rest && Before(a, Ok([])) == Ok(a) && Before(a, Malformed) == Malformed
  {
    if rest.Ok? {
      assert a + (b + rest.value) == a + b + rest.value;
      assert [] + rest.value == rest.value;
    }
    assert a + [] == a;
  }

  function NextSector(cursor: nat): (r: nat)
    ensures cursor < r
  {
    (cursor / SECTOR + 1) * SECTOR
  }

  /** The records of the directory whose bytes start at `base` of the image. */
  function Scan(bytes: seq<Byte>, base: nat, path: seq<Byte>, cursor: nat, strict: bool): Result<seq<Record>>
    decreases |bytes| - cursor
  {
    if cursor >= |bytes| then Ok([])
    else
      var length: nat := bytes[cursor];
      if length == 0 then Scan(bytes, base, path, NextSector(cursor), strict)
      else if cursor + length > |bytes| || length < 34 then Malformed
      else
        var name := RecordName(bytes, cursor, length, strict);
        if name.Malformed? then Malformed
        else
          Before(Named(bytes, base, path, cursor, name.value), Scan(bytes, base, path, cursor + length, strict))
  }

  // ----- the whole tree -----

  predicate InImage(image: seq<Byte>, extent: Word, size: Word) {
    extent * SECTOR + size <= |image|
  }

  function Content(image: seq<Byte>, extent: Word, size: Word): seq<Byte>
    requires InImage(image, extent, size)
  {
    image[extent * SECTOR..extent * SECTOR + size]
  }

  function ScanDirectory(image: seq<Byte>, d: Directory, strict: bool): Result<seq<Record>> {
    if !InImage(image, d.extent, d.size) then Malformed
    else Scan(Content(image, d.extent, d.size), d.extent * SECTOR, d.path, 0, strict)
  }

  function Directories(records: seq<Record>): seq<Directory> {
    if records == [] then []
    else
      var r := records[0];
      (if r.directory then [Directory(r.path, r.extent, r.size)] else []) + Directories(records[1..])
  }

  /** Every place a directory could be, to bound the walk. */
  ghost const PLACES: set<(int, int)> :=
    set e: int, z: int | 0 <= e < TWO32 && 0 <= z < TWO32 :: (e, z)

  function Place(d: Directory): (r: (int, int))
    ensures r in PLACES
  {
    (d.extent, d.size)
  }

  lemma VisitsAreBounded(visited: set<(int, int)>, d: Directory)
    requires Place(d) !in visited
    ensures |PLACES - (visited + {Place(d)})| < |PLACES - visited|
  {
    var p := Place(d);
    assert PLACES - visited == (PLACES - (visited + {p})) + {p};
  }

  /** The pending directories, last first, each place once. */
  function Walk(image: seq<Byte>, pending: seq<Directory>, visited: set<(int, int)>, strict: bool): Result<seq<Record>>
    decreases |PLACES - visited|, |pending|
  {
    if pending == [] then Ok([])
    else
      var d, others := pending[|pending| - 1], pending[..|pending| - 1];
      if Place(d) in visited then Walk(image, others, visited, strict)
      else
        var found := ScanDirectory(image, d, strict);
        if found.Malformed? then Malformed
        else
          VisitsAreBounded(visited, d);
          Before(found.value, Walk(image, others + Directories(found.value), visited + {Place(d)}, strict))
  }

  // ----- the volume descriptor -----

  const DESCRIPTOR := 16 * SECTOR

  function Root(image: seq<Byte>): Result<Directory> {
    if |image| < DESCRIPTOR + SECTOR then Malformed
    else
      var b := image[DESCRIPTOR..DESCRIPTOR + SECTOR];
      if b[..7] != [1, 0x43, 0x44, 0x30, 0x30, 0x31, 1] then Malformed
      else if b[156] < 34 || 156 + b[156] > SECTOR then Malformed
      else Ok(Directory([], ReadWord(b, 158), ReadWord(b, 166)))
  }

  function WalkImage(image: seq<Byte>, strict: bool): Result<seq<Record>> {
    var root := Root(image);
    if root.Malformed? then Malformed else Walk(image, [root.value], {}, strict)
  }

  // ----- the walk in place -----

  method ScanRecords(bytes: seq<Byte>, base: nat, path: seq<Byte>, strict: bool) returns (r: Result<seq<Record>>)
    ensures r == Scan(bytes, base, path, 0, strict)
  {
    hide RecordName, Before;
    var records: seq<Record> := [];
    var cursor := 0;
    BeforeAssociates([], [], Scan(bytes, base, path, 0, strict));
    while cursor < |bytes|
      invariant Scan(bytes, base, path, 0, strict) == Before(records, Scan(bytes, base, path, cursor, strict))
      decreases |bytes| - cursor
    {
      var length: nat := bytes[cursor];
      BeforeAssociates(records, [], Malformed);
      if length == 0 {
        cursor := (cursor / SECTOR + 1) * SECTOR;
        continue;
      }
      if cursor + length > |bytes| || length < 34 {
        return Malformed;
      }
      var name := RecordName(bytes, cursor, length, strict);
      if name.Malformed? {
        return Malformed;
      }
      var named := Named(bytes, base, path, cursor, name.value);
      BeforeAssociates(records, named, Scan(bytes, base, path, cursor + length, strict));
      records := records + named;
      cursor := cursor + length;
    }
    BeforeAssociates(records, [], Malformed);
    return Ok(records);
  }

  method WalkTree(image: seq<Byte>, strict: bool) returns (r: Result<seq<Record>>)
    ensures r == WalkImage(image, strict)
  {
    hide Scan, Before, Place, PLACES;
    var root := Root(image);
    if root.Malformed? {
      return Malformed;
    }
    var pending := [root.value];
    var visited: set<(int, int)> := {};
    var records: seq<Record> := [];
    BeforeAssociates([], [], Walk(image, pending, visited, strict));
    while pending != []
      invariant WalkImage(image, strict) == Before(records, Walk(image, pending, visited, strict))
      decreases |PLACES - visited|, |pending|
    {
      var directory := pending[|pending| - 1];
      pending := pending[..|pending| - 1];
      if Place(directory) in visited {
        continue;
      }
      VisitsAreBounded(visited, directory);
      BeforeAssociates(records, [], Malformed);
      if !InImage(image, directory.extent, directory.size) {
        return Malformed;
      }
      var found := ScanRecords(Content(image, directory.extent, directory.size), directory.extent * SECTOR, directory.path, strict);
      if found.Malformed? {
        return Malformed;
      }
      BeforeAssociates(records, found.value,
                       Walk(image, pending + Directories(found.value), visited + {Place(directory)}, strict));
      visited := visited + {Place(directory)};
      pending := pending + Directories(found.value);
      records := records + found.value;
    }
    BeforeAssociates(records, [], Malformed);
    return Ok(records);
  }
}
