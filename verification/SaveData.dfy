/** The save-data parameter file: make_savedata_sfo and sfo_string of
    refract/src/utility_data.cpp, and the second reader of src/iso.cpp. */
module SaveData {
  import opened Wrappers
  import opened Words
  import opened ByteWrites

  /** One parameter: its key, the room for its value and the value. */
  datatype Entry = Entry(key: seq<Byte>, capacity: nat, value: seq<Byte>)

  const TITLE: seq<Byte> := [0x54, 0x49, 0x54, 0x4c, 0x45]
  const SAVEDATA_TITLE: seq<Byte> := [0x53, 0x41, 0x56, 0x45, 0x44, 0x41, 0x54, 0x41, 0x5f] + TITLE
  const SAVEDATA_DETAIL: seq<Byte> :=
    [0x53, 0x41, 0x56, 0x45, 0x44, 0x41, 0x54, 0x41, 0x5f, 0x44, 0x45, 0x54, 0x41, 0x49, 0x4c]

  // ----- the writer -----

  function Le16(value: nat): (r: seq<Byte>)
    ensures |r| == 2
  {
    [value % 0x100, value / 0x100 % 0x100]
  }

  function KeyBytes(entries: seq<Entry>): nat {
    if entries == [] then 0 else |entries[0].key| + 1 + KeyBytes(entries[1..])
  }

  function ValueBytes(entries: seq<Entry>): nat {
    if entries == [] then 0 else entries[0].capacity + ValueBytes(entries[1..])
  }

  /** Values are cut to leave room for a terminator. */
  function StoredLength(e: Entry): nat
    requires 0 < e.capacity
  {
    if |e.value| < e.capacity - 1 then |e.value| else e.capacity - 1
  }

  function Cut(e: Entry): seq<Byte>
    requires 0 < e.capacity
  {
    e.value[..StoredLength(e)]
  }

  const HEADER := 20

  function KeyTable(count: nat): nat {
    HEADER + count * 16
  }

  function DataTable(entries: seq<Entry>): nat {
    (KeyTable(|entries|) + KeyBytes(entries) + 3) / 4 * 4
  }

  function Row(e: Entry, keyOffset: nat, valueOffset: nat): (r: seq<Byte>)
    requires 0 < e.capacity
    ensures |r| == 16
  {
    Le16(keyOffset) + Le16(0x0204) + Le32(Wrap(StoredLength(e) + 1)) + Le32(Wrap(e.capacity)) + Le32(Wrap(valueOffset))
  }

  /** Where the tables are and how far their running offsets have come. */
  datatype Layout = Layout(keyTable: nat, dataTable: nat, index: nat, keyOffset: nat, valueOffset: nat)

  function Next(l: Layout, e: Entry): Layout {
    l.(index := l.index + 1, keyOffset := l.keyOffset + |e.key| + 1, valueOffset := l.valueOffset + e.capacity)
  }

  predicate HasRoom(entries: seq<Entry>) {
    forall e :: e in entries ==> 0 < e.capacity
  }

  function EntryWrites(e: Entry, l: Layout): seq<Write>
    requires 0 < e.capacity
  {
    [Write(HEADER + l.index * 16, Row(e, l.keyOffset, l.valueOffset)),
     Write(l.keyTable + l.keyOffset, e.key),
     Write(l.dataTable + l.valueOffset, Cut(e))]
  }

  function Writes(entries: seq<Entry>, l: Layout): seq<Write>
    requires HasRoom(entries)
  {
    if entries == [] then [] else EntryWrites(entries[0], l) + Writes(entries[1..], Next(l, entries[0]))
  }

  function Header(keyTable: nat, dataTable: nat, count: nat): (r: seq<Byte>)
    ensures |r| == HEADER
  {
    Le32(0x4653_5000) + Le32(0x0000_0101) + Le32(Wrap(keyTable)) + Le32(Wrap(dataTable)) + Le32(Wrap(count))
  }

  function Begin(entries: seq<Entry>): Layout {
    Layout(KeyTable(|entries|), DataTable(entries), 0, 0, 0)
  }

  function MakeSfo(entries: seq<Entry>): seq<Byte>
    requires HasRoom(entries)
  {
    var l := Begin(entries);
    Land(Zeros(l.dataTable + ValueBytes(entries)),
         [Write(0, Header(l.keyTable, l.dataTable, |entries|))] + Writes(entries, l))
  }

  function SaveDataEntries(title: seq<Byte>, savedataTitle: seq<Byte>, detail: seq<Byte>): (r: seq<Entry>)
    ensures HasRoom(r) && |r| == 3
  {
    [Entry(TITLE, 128, title), Entry(SAVEDATA_TITLE, 128, savedataTitle), Entry(SAVEDATA_DETAIL, 1024, detail)]
  }

  method TableSizes(entries: seq<Entry>) returns (keyBytes: nat, valueBytes: nat)
    ensures keyBytes == KeyBytes(entries) && valueBytes == ValueBytes(entries)
  {
    keyBytes, valueBytes := 0, 0;
    for index := 0 to |entries|
      invariant keyBytes + KeyBytes(entries[index..]) == KeyBytes(entries)
      invariant valueBytes + ValueBytes(entries[index..]) == ValueBytes(entries)
    {
      assert entries[index..][1..] == entries[index + 1..];
      keyBytes := keyBytes + |entries[index].key| + 1;
      valueBytes := valueBytes + entries[index].capacity;
    }
  }

  /** One turn of the writer's loop. */
  method WriteEntry(image: seq<Byte>, e: Entry, l: Layout) returns (result: seq<Byte>)
    requires 0 < e.capacity
    ensures result == Land(image, EntryWrites(e, l))
  {
    hide Overwrite, Row, Cut;
    result := Overwrite(image, HEADER + l.index * 16, Row(e, l.keyOffset, l.valueOffset));
    result := Overwrite(result, l.keyTable + l.keyOffset, e.key);
    result := Overwrite(result, l.dataTable + l.valueOffset, Cut(e));
    var writes := EntryWrites(e, l);
    LandThree(image, writes[0], writes[1], writes[2]);
  }

  method MakeSavedataSfo(title: seq<Byte>, savedataTitle: seq<Byte>, detail: seq<Byte>) returns (result: seq<Byte>)
    ensures result == MakeSfo(SaveDataEntries(title, savedataTitle, detail))
  {
    hide Overwrite, Header, EntryWrites, SaveDataEntries, KeyBytes, ValueBytes;
    var entries := SaveDataEntries(title, savedataTitle, detail);
    var keyBytes, valueBytes := TableSizes(entries);
    var keyTable := HEADER + |entries| * 16;
    var dataTable := (keyTable + keyBytes + 3) / 4 * 4;
    result := Zeros(dataTable + valueBytes);
    var header := Write(0, Header(keyTable, dataTable, |entries|));
    LandAppend(result, [header], Writes(entries, Begin(entries)));
    LandOne(result, header);
    result := Overwrite(result, header.at, header.bytes);
    var l := Layout(keyTable, dataTable, 0, 0, 0);
    for index := 0 to |entries|
      invariant l.index == index && Land(result, Writes(entries[index..], l)) == MakeSfo(entries)
    {
      var e := entries[index];
      assert entries[index..][1..] == entries[index + 1..];
      LandAppend(result, EntryWrites(e, l), Writes(entries[index + 1..], Next(l, e)));
      result := WriteEntry(result, e, l);
      l := Next(l, e);
    }
  }

  lemma LandOne(image: seq<Byte>, w: Write)
    ensures Land(image, [w]) == Overwrite(image, w.at, w.bytes)
  {
    assert [w][1..] == [];
  }

  // ----- the readers -----

  function U16(data: seq<Byte>, at: nat): nat
    requires at + 2 <= |data|
  {
    var low, high: int := data[at], data[at + 1];
    low + 0x100 * high
  }

  /** Up to the first NUL. */
  function FixedString(data: seq<Byte>): seq<Byte> {
    if data == [] || data[0] == 0 then [] else [data[0]] + FixedString(data[1..])
  }

  /** Without the trailing NULs. */
  function Stripped(data: seq<Byte>): seq<Byte> {
    if data != [] && data[|data| - 1] == 0 then Stripped(data[..|data| - 1]) else data
  }

  predicate HasRow(data: seq<Byte>, index: nat) {
    HEADER + index * 16 + 16 <= |data|
  }

  function KeyOffset(data: seq<Byte>, index: nat): nat
    requires HasRow(data, index)
  {
    ReadWord(data, 8) + U16(data, HEADER + index * 16)
  }

  function ValueOffset(data: seq<Byte>, index: nat): nat
    requires HasRow(data, index)
  {
    ReadWord(data, 12) + ReadWord(data, HEADER + index * 16 + 12)
  }

  function ValueLength(data: seq<Byte>, index: nat): nat
    requires HasRow(data, index)
  {
    ReadWord(data, HEADER + index * 16 + 4)
  }

  /** The stored value bytes of the first usable entry with the key. */
  function FindValue(data: seq<Byte>, key: seq<Byte>, index: nat): Option<seq<Byte>>
    requires HEADER <= |data| && index <= ReadWord(data, 16) <= (|data| - HEADER) / 16
    decreases ReadWord(data, 16) - index
  {
    if index == ReadWord(data, 16) then None
    else
      var keyOffset, valueOffset, length := KeyOffset(data, index), ValueOffset(data, index), ValueLength(data, index);
      if keyOffset >= |data| || valueOffset > |data| || length > |data| - valueOffset ||
         FixedString(data[keyOffset..]) != key
      then FindValue(data, key, index + 1)
      else Some(data[valueOffset..valueOffset + length])
  }

  function StoredValue(data: seq<Byte>, key: seq<Byte>): Option<seq<Byte>> {
    if |data| < HEADER || ReadWord(data, 0) != 0x4653_5000 || ReadWord(data, 16) > (|data| - HEADER) / 16 then None
    else FindValue(data, key, 0)
  }

  /** The reader of the runtime. */
  function SfoString(data: seq<Byte>, key: seq<Byte>): seq<Byte> {
    match StoredValue(data, key)
    case None => []
    case Some(value) => FixedString(value)
  }

  /** The reader of the disc tools. */
  function IsoSfoString(data: seq<Byte>, key: seq<Byte>): seq<Byte> {
    match StoredValue(data, key)
    case None => []
    case Some(value) => Stripped(value)
  }

  method ReadSfoString(data: seq<Byte>, key: seq<Byte>) returns (value: seq<Byte>)
    ensures value == SfoString(data, key)
  {
    hide FixedString, ReadWord, U16;
    if |data| < HEADER || ReadWord(data, 0) != 0x4653_5000 {
      return [];
    }
    var keys, values, count := ReadWord(data, 8), ReadWord(data, 12), ReadWord(data, 16);
    if count > (|data| - HEADER) / 16 {
      return [];
    }
    for index := 0 to count
      invariant FindValue(data, key, index) == FindValue(data, key, 0)
    {
      var entry := HEADER + index * 16;
      var keyOffset := keys + U16(data, entry);
      var length := ReadWord(data, entry + 4);
      var valueOffset := values + ReadWord(data, entry + 12);
      if keyOffset >= |data| || valueOffset > |data| || length > |data| - valueOffset {
        continue;
      }
      if FixedString(data[keyOffset..]) == key {
        return FixedString(data[valueOffset..valueOffset + length]);
      }
    }
    return [];
  }

  method ReadIsoSfoString(data: seq<Byte>, key: seq<Byte>) returns (value: seq<Byte>)
    ensures value == IsoSfoString(data, key)
  {
    hide ReadWord, U16, FixedString, Stripped;
    if |data| < HEADER || ReadWord(data, 0) != 0x4653_5000 {
      return [];
    }
    var keys, values, count := ReadWord(data, 8), ReadWord(data, 12), ReadWord(data, 16);
    if count > (|data| - HEADER) / 16 {
      return [];
    }
    for index := 0 to count
      invariant FindValue(data, key, index) == FindValue(data, key, 0)
    {
      var entry := HEADER + index * 16;
      var keyOffset := keys + U16(data, entry);
      var valueLength := ReadWord(data, entry + 4);
      var valueOffset := values + ReadWord(data, entry + 12);
      if keyOffset >= |data| || valueOffset > |data| || valueLength > |data| - valueOffset {
        continue;
      }
      var keyEnd := EndOfString(data, keyOffset);
      if data[keyOffset..keyEnd] != key {
        continue;
      }
      var length := WithoutNuls(data[valueOffset..valueOffset + valueLength]);
      return data[valueOffset..valueOffset + length];
    }
    return [];
  }

  method EndOfString(data: seq<Byte>, start: nat) returns (end: nat)
    requires start <= |data|
    ensures start <= end <= |data| && data[start..end] == FixedString(data[start..])
  {
    end := start;
    while end < |data| && data[end] != 0
      invariant start <= end <= |data|
      invariant data[start..end] + FixedString(data[end..]) == FixedString(data[start..])
    {
      assert data[end..][1..] == data[end + 1..];
      end := end + 1;
    }
  }

  method WithoutNuls(value: seq<Byte>) returns (length: nat)
    ensures length <= |value| && value[..length] == Stripped(value)
  {
    length := |value|;
    assert value[..length] == value;
    while length != 0 && value[length - 1] == 0
      invariant length <= |value| && Stripped(value[..length]) == Stripped(value)
    {
      assert value[..length][..length - 1] == value[..length - 1];
      length := length - 1;
    }
  }

  // ----- strings -----

  predicate NulFree(s: seq<Byte>) {
    0 !in s
  }

  lemma {:induction false} FixedStops(s: seq<Byte>, rest: seq<Byte>)
    requires NulFree(s) && (rest == [] || rest[0] == 0)
    ensures FixedString(s + rest) == s
    decreases |s|
  {
    if s == [] {
      assert s + rest == rest;
    } else {
      assert (s + rest)[1..] == s[1..] + rest;
      FixedStops(s[1..], rest);
    }
  }

  lemma {:induction false} StrippedStops(s: seq<Byte>, zeros: nat)
    requires NulFree(s)
    ensures Stripped(s + Zeros(zeros)) == s
    decreases zeros
  {
    if zeros == 0 {
      assert s + Zeros(0) == s;
    } else {
      assert (s + Zeros(zeros))[..|s| + zeros - 1] == s + Zeros(zeros - 1);
      StrippedStops(s, zeros - 1);
    }
  }

  lemma {:induction false} FixedIsPrefix(data: seq<Byte>)
    ensures NulFree(FixedString(data)) && FixedString(data) <= data
    ensures |FixedString(data)| < |data| ==> data[|FixedString(data)|] == 0
    decreases |data|
  {
    if data != [] && data[0] != 0 {
      FixedIsPrefix(data[1..]);
    }
  }

  lemma {:induction false} StrippedIsPrefix(data: seq<Byte>)
    ensures Stripped(data) <= data && (forall i :: |Stripped(data)| <= i < |data| ==> data[i] == 0)
    decreases |data|
  {
    if data != [] && data[|data| - 1] == 0 {
      StrippedIsPrefix(data[..|data| - 1]);
    }
  }

  /** The two readers give the same text exactly when only NULs follow the first NUL. */
  lemma ReadersAgreeExactly(value: seq<Byte>)
    ensures FixedString(value) == Stripped(value)
       <==> forall i :: |FixedString(value)| <= i < |value| ==> value[i] == 0
  {
    FixedIsPrefix(value);
    StrippedIsPrefix(value);
    var n := |FixedString(value)|;
    if forall i :: n <= i < |value| ==> value[i] == 0 {
      assert value == value[..n] + Zeros(|value| - n);
      StrippedStops(value[..n], |value| - n);
    }
  }

  /** A NUL inside: the runtime stops at it, the disc tools read on. */
  lemma ReadersDiffer()
    ensures FixedString([0x41, 0, 0x42]) == [0x41] && Stripped([0x41, 0, 0x42]) == [0x41, 0, 0x42]
  {
    assert [0x41, 0, 0x42][1..] == [0, 0x42];
  }

  // ----- the writes do not meet -----

  /** What belongs to the entries from a layout on. */
  predicate InTail(w: Write, l: Layout) {
    (HEADER + l.index * 16 <= w.at && w.at + |w.bytes| <= l.keyTable) ||
    (l.keyTable + l.keyOffset <= w.at && w.at + |w.bytes| <= l.dataTable) ||
    l.dataTable + l.valueOffset <= w.at
  }

  /** The tables are big enough for the entries still to come. */
  predicate Spacious(entries: seq<Entry>, l: Layout) {
    HEADER + (l.index + |entries|) * 16 == l.keyTable && l.keyTable + l.keyOffset + KeyBytes(entries) <= l.dataTable
  }

  lemma {:induction false} WritesInTail(entries: seq<Entry>, l: Layout)
    requires HasRoom(entries) && Spacious(entries, l)
    ensures forall w :: w in Writes(entries, l) ==> InTail(w, l)
    decreases |entries|
  {
    hide Row, Cut;
    if entries != [] {
      WritesInTail(entries[1..], Next(l, entries[0]));
    }
  }

  lemma {:induction false} WritesSeparate(entries: seq<Entry>, l: Layout)
    requires HasRoom(entries) && Spacious(entries, l)
    ensures Separate(Writes(entries, l))
    decreases |entries|
  {
    hide Row;
    if entries != [] {
      var e, next := entries[0], Next(l, entries[0]);
      var own := EntryWrites(e, l);
      WritesSeparate(entries[1..], next);
      WritesInTail(entries[1..], next);
      ThreeSeparate(own[0], own[1], own[2]);
      SeparateAppend(own, Writes(entries[1..], next));
    }
  }

  lemma BeginIsSpacious(entries: seq<Entry>)
    ensures Spacious(entries, Begin(entries)) && HEADER <= Begin(entries).keyTable <= Begin(entries).dataTable
  {
  }

  lemma AllSeparate(entries: seq<Entry>)
    requires HasRoom(entries)
    ensures var l := Begin(entries);
      Separate([Write(0, Header(l.keyTable, l.dataTable, |entries|))] + Writes(entries, l))
  {
    hide Header, Writes, DataTable;
    var l := Begin(entries);
    BeginIsSpacious(entries);
    WritesSeparate(entries, l);
    WritesInTail(entries, l);
    var first := Write(0, Header(l.keyTable, l.dataTable, |entries|));
    assert [first][1..] == [];
    SeparateAppend([first], Writes(entries, l));
  }

  // ----- one entry of the finished file -----

  /** The layout in which entry `k` is written. */
  function At(entries: seq<Entry>, l: Layout, k: nat): Layout
    requires k <= |entries|
    decreases k
  {
    if k == 0 then l else At(entries[1..], Next(l, entries[0]), k - 1)
  }

  lemma {:induction false} AtWrites(entries: seq<Entry>, l: Layout, k: nat)
    requires HasRoom(entries) && k < |entries| && Spacious(entries, l)
    ensures var a := At(entries, l, k);
      a.keyTable == l.keyTable && a.dataTable == l.dataTable && a.index == l.index + k && 0 < entries[k].capacity &&
      (forall w :: w in EntryWrites(entries[k], a) ==> w in Writes(entries, l)) &&
      l.keyTable + a.keyOffset + |entries[k].key| + 1 <= l.dataTable &&
      l.keyOffset <= a.keyOffset && l.valueOffset <= a.valueOffset &&
      a.keyOffset + |entries[k].key| + 1 <= l.keyOffset + KeyBytes(entries) &&
      a.valueOffset + entries[k].capacity <= l.valueOffset + ValueBytes(entries)
    decreases k
  {
    hide EntryWrites;
    assert entries[k] in entries;
    if k > 0 {
      AtWrites(entries[1..], Next(l, entries[0]), k - 1);
    }
  }

  /** The terminators behind key and value stay zero. */
  lemma {:induction false} TerminatorsFree(entries: seq<Entry>, l: Layout, k: nat, w: Write)
    requires HasRoom(entries) && k < |entries| && Spacious(entries, l) && w in Writes(entries, l)
    ensures var a, e := At(entries, l, k), entries[k];
      0 < e.capacity && !Covers(w, l.keyTable + a.keyOffset + |e.key|) &&
      !Covers(w, l.dataTable + a.valueOffset + StoredLength(e))
    decreases |entries|
  {
    hide Row;
    var e0, next := entries[0], Next(l, entries[0]);
    assert entries[k] in entries;
    AtWrites(entries, l, k);
    if w in EntryWrites(e0, l) {
      if k > 0 {
        AtWrites(entries[1..], next, k - 1);
      }
    } else {
      WritesInTail(entries[1..], next);
      if k > 0 {
        TerminatorsFree(entries[1..], next, k - 1, w);
      }
    }
  }

  lemma {:induction false} LandLength(image: seq<Byte>, writes: seq<Write>)
    requires forall w :: w in writes ==> w.at + |w.bytes| <= |image|
    ensures |Land(image, writes)| == |image|
    decreases |writes|
  {
    if writes != [] {
      assert writes[0] in writes;
      LandLength(Overwrite(image, writes[0].at, writes[0].bytes), writes[1..]);
    }
  }

  lemma {:induction false} WritesInside(entries: seq<Entry>, l: Layout)
    requires HasRoom(entries) && Spacious(entries, l) && l.keyTable <= l.dataTable
    ensures forall w :: w in Writes(entries, l) ==> w.at + |w.bytes| <= l.dataTable + l.valueOffset + ValueBytes(entries)
    decreases |entries|
  {
    hide Row;
    if entries != [] {
      WritesInside(entries[1..], Next(l, entries[0]));
    }
  }

  // ----- the finished file -----

  /** Every field keeps its value: 16-bit key offsets and 32-bit sizes suffice. */
  predicate Representable(entries: seq<Entry>) {
    HasRoom(entries) && KeyBytes(entries) < 0x1_0000 && DataTable(entries) + ValueBytes(entries) < TWO32
  }

  lemma SfoHolds(entries: seq<Entry>, w: Write)
    requires HasRoom(entries)
    requires var l := Begin(entries); w == Write(0, Header(l.keyTable, l.dataTable, |entries|)) || w in Writes(entries, l)
    ensures Holds(MakeSfo(entries), w)
  {
    hide Header, Row, Land, Writes;
    AllSeparate(entries);
    var l := Begin(entries);
    AllHold(Zeros(l.dataTable + ValueBytes(entries)),
            [Write(0, Header(l.keyTable, l.dataTable, |entries|))] + Writes(entries, l));
  }

  lemma SfoLength(entries: seq<Entry>)
    requires HasRoom(entries)
    ensures |MakeSfo(entries)| == DataTable(entries) + ValueBytes(entries)
    ensures |entries| <= (|MakeSfo(entries)| - HEADER) / 16 && HEADER <= |MakeSfo(entries)|
  {
    hide Header, Row, Land, Writes;
    BeginIsSpacious(entries);
    WritesInside(entries, Begin(entries));
    var l := Begin(entries);
    LandLength(Zeros(l.dataTable + ValueBytes(entries)),
               [Write(0, Header(l.keyTable, l.dataTable, |entries|))] + Writes(entries, l));
  }

  lemma HeldWord(image: seq<Byte>, w: Write, at: nat, value: Word)
    requires Holds(image, w) && at + 4 <= |w.bytes| && w.bytes[at..at + 4] == Le32(value)
    ensures w.at + at + 4 <= |image| && ReadWord(image, w.at + at) == value
  {
    hide FromBytes, ByteOf;
    assert Covers(w, w.at + at) && Covers(w, w.at + at + 1) && Covers(w, w.at + at + 2) && Covers(w, w.at + at + 3);
    var word := w.bytes[at..at + 4];
    assert word[0] == w.bytes[at] && word[1] == w.bytes[at + 1] && word[2] == w.bytes[at + 2] && word[3] == w.bytes[at + 3];
    BytesRoundTrip(value);
  }

  lemma HeaderReads(entries: seq<Entry>)
    requires Representable(entries)
    ensures var image := MakeSfo(entries);
      HEADER <= |image| && ReadWord(image, 0) == 0x4653_5000 && ReadWord(image, 8) == KeyTable(|entries|) &&
      ReadWord(image, 12) == DataTable(entries) && ReadWord(image, 16) == |entries|
  {
    hide MakeSfo, Le32, FromBytes, DataTable, Holds;
    var w := Write(0, Header(KeyTable(|entries|), DataTable(entries), |entries|));
    SfoHolds(entries, w);
    SfoLength(entries);
    BeginIsSpacious(entries);
    TablesFit(entries);
    HeldWord(MakeSfo(entries), w, 0, 0x4653_5000);
    HeldWord(MakeSfo(entries), w, 8, KeyTable(|entries|));
    HeldWord(MakeSfo(entries), w, 12, DataTable(entries));
    HeldWord(MakeSfo(entries), w, 16, |entries|);
  }

  lemma TablesFit(entries: seq<Entry>)
    requires Representable(entries)
    ensures KeyTable(|entries|) <= DataTable(entries) < TWO32 && |entries| < TWO32
  {
  }

  lemma RowParts(e: Entry, keyOffset: nat, valueOffset: nat)
    requires 0 < e.capacity < TWO32 && valueOffset < TWO32
    ensures var row := Row(e, keyOffset, valueOffset);
      row[0] == keyOffset % 0x100 && row[1] == keyOffset / 0x100 % 0x100 &&
      StoredLength(e) + 1 < TWO32 && row[4..8] == Le32(StoredLength(e) + 1) && row[12..16] == Le32(valueOffset)
  {
    hide Le32, StoredLength;
    StoredFits(e);
    assert Wrap(StoredLength(e) + 1) == StoredLength(e) + 1 && Wrap(valueOffset) == valueOffset;
  }

  lemma RowReads(image: seq<Byte>, e: Entry, a: Layout)
    requires 0 < e.capacity && Holds(image, Write(HEADER + a.index * 16, Row(e, a.keyOffset, a.valueOffset)))
    requires a.keyOffset < 0x1_0000 && a.valueOffset < TWO32 && e.capacity < TWO32
    ensures HasRow(image, a.index) && U16(image, HEADER + a.index * 16) == a.keyOffset &&
      ValueLength(image, a.index) == StoredLength(e) + 1 && ReadWord(image, HEADER + a.index * 16 + 12) == a.valueOffset
  {
    hide Le32, ReadWord, StoredLength, Row;
    var w := Write(HEADER + a.index * 16, Row(e, a.keyOffset, a.valueOffset));
    RowParts(e, a.keyOffset, a.valueOffset);
    assert Covers(w, w.at) && Covers(w, w.at + 1) && Covers(w, w.at + 15);
    HalfReads(a.keyOffset);
    HeldWord(image, w, 4, StoredLength(e) + 1);
    HeldWord(image, w, 12, a.valueOffset);
  }

  lemma StoredFits(e: Entry)
    requires 0 < e.capacity
    ensures StoredLength(e) < e.capacity && StoredLength(e) <= |e.value|
  {
  }

  lemma HalfReads(value: nat)
    requires value < 0x1_0000
    ensures value % 0x100 + 0x100 * (value / 0x100 % 0x100) == value
  {
  }

  lemma TerminatorsAreZero(entries: seq<Entry>, k: nat)
    requires HasRoom(entries) && k < |entries|
    ensures var image, a, e := MakeSfo(entries), At(entries, Begin(entries), k), entries[k];
      var key, value := KeyTable(|entries|) + a.keyOffset + |e.key|, DataTable(entries) + a.valueOffset;
      0 < e.capacity && key < |image| && image[key] == 0 &&
      value + StoredLength(e) < |image| && image[value + StoredLength(e)] == 0
  {
    hide Row, Land, Writes, Header, StoredLength;
    var l := Begin(entries);
    var a, e := At(entries, l, k), entries[k];
    assert e in entries;
    BeginIsSpacious(entries);
    AtWrites(entries, l, k);
    StoredFits(e);
    SfoLength(entries);
    var all := [Write(0, Header(l.keyTable, l.dataTable, |entries|))] + Writes(entries, l);
    var key, value := l.keyTable + a.keyOffset + |e.key|, l.dataTable + a.valueOffset + StoredLength(e);
    forall w | w in all ensures !Covers(w, key) && !Covers(w, value) {
      if w in Writes(entries, l) {
        TerminatorsFree(entries, l, k, w);
      }
    }
    var blank := Zeros(l.dataTable + ValueBytes(entries));
    LandKeeps(blank, all, key);
    LandKeeps(blank, all, value);
  }

  /** What the table says about one entry. */
  lemma EntryNumbers(entries: seq<Entry>, k: nat)
    requires Representable(entries) && k < |entries|
    ensures var image, a := MakeSfo(entries), At(entries, Begin(entries), k);
      0 < entries[k].capacity && HasRow(image, k) &&
      KeyOffset(image, k) == KeyTable(|entries|) + a.keyOffset &&
      ValueOffset(image, k) == DataTable(entries) + a.valueOffset &&
      ValueLength(image, k) == StoredLength(entries[k]) + 1
  {
    hide MakeSfo, Row, ReadWord, U16, Writes, Header, StoredLength, Holds, DataTable;
    var a, e := At(entries, Begin(entries), k), entries[k];
    assert e in entries;
    BeginIsSpacious(entries);
    AtWrites(entries, Begin(entries), k);
    HeaderReads(entries);
    var own := EntryWrites(e, a);
    assert own[0] in own;
    SfoHolds(entries, own[0]);
    RowReads(MakeSfo(entries), e, a);
  }

  /** The bytes it points to. */
  lemma {:induction false} KeyReads(entries: seq<Entry>, k: nat)
    requires HasRoom(entries) && k < |entries| && NulFree(entries[k].key)
    ensures var image, a, e := MakeSfo(entries), At(entries, Begin(entries), k), entries[k];
      var keyAt := KeyTable(|entries|) + a.keyOffset;
      keyAt < |image| && FixedString(image[keyAt..]) == e.key
  {
    hide MakeSfo, Row, Writes, Header, FixedString, Holds, Cut;
    var image, a, e := MakeSfo(entries), At(entries, Begin(entries), k), entries[k];
    BeginIsSpacious(entries);
    AtWrites(entries, Begin(entries), k);
    TerminatorsAreZero(entries, k);
    var own := EntryWrites(e, a);
    assert own[1] in own;
    SfoHolds(entries, own[1]);
    HeldContent(image, own[1], e.key);
    var keyAt := KeyTable(|entries|) + a.keyOffset;
    assert image[keyAt..] == e.key + image[keyAt + |e.key|..];
    FixedStops(e.key, image[keyAt + |e.key|..]);
  }

  lemma {:induction false} ValueReads(entries: seq<Entry>, k: nat)
    requires HasRoom(entries) && k < |entries|
    ensures var image, a, e := MakeSfo(entries), At(entries, Begin(entries), k), entries[k];
      var valueAt := DataTable(entries) + a.valueOffset;
      0 < e.capacity && valueAt + StoredLength(e) < |image| &&
      image[valueAt..valueAt + StoredLength(e) + 1] == Cut(e) + [0]
  {
    hide MakeSfo, Row, Writes, Header, Holds, StoredLength;
    var image, a, e := MakeSfo(entries), At(entries, Begin(entries), k), entries[k];
    BeginIsSpacious(entries);
    AtWrites(entries, Begin(entries), k);
    TerminatorsAreZero(entries, k);
    var own := EntryWrites(e, a);
    assert own[2] in own;
    SfoHolds(entries, own[2]);
    StoredFits(e);
    var valueAt := DataTable(entries) + a.valueOffset;
    HeldContent(image, own[2], Cut(e));
    assert image[valueAt..valueAt + StoredLength(e) + 1] == image[valueAt..valueAt + |Cut(e)|] + [0];
  }

  lemma RoomOf(entries: seq<Entry>)
    requires Representable(entries)
    ensures HasRoom(entries)
  {
  }

  lemma EntryReads(entries: seq<Entry>, k: nat)
    requires Representable(entries) && k < |entries| && NulFree(entries[k].key)
    ensures var image, e := MakeSfo(entries), entries[k];
      0 < e.capacity && HasRow(image, k) &&
      KeyOffset(image, k) < |image| && FixedString(image[KeyOffset(image, k)..]) == e.key &&
      ValueOffset(image, k) + ValueLength(image, k) <= |image| &&
      image[ValueOffset(image, k)..ValueOffset(image, k) + ValueLength(image, k)] == Cut(e) + [0]
  {
    hide MakeSfo, KeyOffset, ValueOffset, ValueLength, FixedString, DataTable, StoredLength, Cut, Representable;
    EntryNumbers(entries, k);
    RoomOf(entries);
    KeyReads(entries, k);
    ValueReads(entries, k);
  }

  lemma {:induction false} FindsEntry(entries: seq<Entry>, k: nat, index: nat)
    requires Representable(entries) && index <= k < |entries|
    requires forall e :: e in entries ==> NulFree(e.key)
    requires forall i, j :: 0 <= i < j < |entries| ==> entries[i].key != entries[j].key
    ensures var image := MakeSfo(entries);
      0 < entries[k].capacity && HEADER <= |image| && ReadWord(image, 16) == |entries| <= (|image| - HEADER) / 16 &&
      FindValue(image, entries[k].key, index) == Some(Cut(entries[k]) + [0])
    decreases k - index
  {
    hide MakeSfo, KeyOffset, ValueOffset, ValueLength, ReadWord, FixedString, Representable, Cut;
    assert entries[index] in entries && entries[k] in entries;
    HeaderReads(entries);
    SfoRoom(entries);
    EntryReads(entries, index);
    if index < k {
      FindsEntry(entries, k, index + 1);
    }
  }

  lemma SfoRoom(entries: seq<Entry>)
    requires Representable(entries)
    ensures HasRoom(entries) && |entries| <= (|MakeSfo(entries)| - HEADER) / 16
  {
    hide MakeSfo;
    SfoLength(entries);
  }

  /** Both readers return each value cut to its capacity less the terminator. */
  lemma SfoRoundTrip(entries: seq<Entry>, k: nat)
    requires Representable(entries) && k < |entries|
    requires forall e :: e in entries ==> NulFree(e.key) && NulFree(e.value)
    requires forall i, j :: 0 <= i < j < |entries| ==> entries[i].key != entries[j].key
    ensures 0 < entries[k].capacity
    ensures SfoString(MakeSfo(entries), entries[k].key) == Cut(entries[k])
    ensures IsoSfoString(MakeSfo(entries), entries[k].key) == Cut(entries[k])
  {
    hide MakeSfo, FindValue, FixedString, Stripped;
    FindsEntry(entries, k, 0);
    HeaderReads(entries);
    var e := entries[k];
    assert e in entries;
    StoredFits(e);
    assert Zeros(1) == [0];
    FixedStops(Cut(e), [0]);
    StrippedStops(Cut(e), 1);
  }

  /** The three keys of a save, for texts of any length. */
  lemma SaveDataRoundTrip(title: seq<Byte>, savedataTitle: seq<Byte>, detail: seq<Byte>)
    requires NulFree(title) && NulFree(savedataTitle) && NulFree(detail)
    ensures var image := MakeSfo(SaveDataEntries(title, savedataTitle, detail));
      SfoString(image, TITLE) == IsoSfoString(image, TITLE) == Shortened(title, 127) &&
      SfoString(image, SAVEDATA_TITLE) == IsoSfoString(image, SAVEDATA_TITLE) == Shortened(savedataTitle, 127) &&
      SfoString(image, SAVEDATA_DETAIL) == IsoSfoString(image, SAVEDATA_DETAIL) == Shortened(detail, 1023)
  {
    hide MakeSfo, SfoString, IsoSfoString;
    var entries := SaveDataEntries(title, savedataTitle, detail);
    SaveDataSizes(entries);
    assert |entries[0].key| == 5 && |entries[1].key| == 14 && |entries[2].key| == 15;
    SfoRoundTrip(entries, 0);
    SfoRoundTrip(entries, 1);
    SfoRoundTrip(entries, 2);
  }

  function Shortened(s: seq<Byte>, length: nat): seq<Byte> {
    if |s| < length then s else s[..length]
  }

  lemma SaveDataSizes(entries: seq<Entry>)
    requires |entries| == 3 && |entries[0].key| == 5 && |entries[1].key| == 14 && |entries[2].key| == 15
    requires entries[0].capacity == 128 && entries[1].capacity == 128 && entries[2].capacity == 1024
    ensures KeyBytes(entries) == 37 && ValueBytes(entries) == 1280 && DataTable(entries) == 108
  {
    var tail, last := entries[1..], entries[2..];
    assert tail[1..] == last && last[1..] == [];
    assert KeyBytes(last) == 16 && KeyBytes(tail) == 31;
    assert ValueBytes(last) == 1024 && ValueBytes(tail) == 1152;
  }
}
