/** The loaded executable as the translator sees it (src/elf.hpp), with the
    queries of src/emitter/analysis.cpp that other parts share. */
module ElfImage {
  import opened Wrappers
  import opened Words

  datatype Section = Section(address: Word, bytes: seq<Byte>)
  datatype Segment = Segment(programIndex: Byte, address: Word, memorySize: Word)
  datatype Relocation = Relocation(offset: Word, kind: Byte, patchSegment: Byte, targetSegment: Byte)

  datatype Image = Image(sections: seq<Section>, segments: seq<Segment>,
                         relocations: seq<Relocation>, preferredBase: Word)

  /** Executable sections hold whole words and do not wrap around. */
  predicate WholeWords(image: Image) {
    forall s :: s in image.sections ==> |s.bytes| % 4 == 0 && s.address + |s.bytes| <= TWO32
  }

  function WordAt(section: Section, offset: nat): Word
    requires offset + 4 <= |section.bytes|
  {
    ReadWord(section.bytes, offset)
  }

  /** The first segment with this program index. */
  function FindSegment(segments: seq<Segment>, programIndex: Byte): (r: Option<Segment>)
    ensures r.Some? ==> r.value in segments && r.value.programIndex == programIndex
    ensures r.None? ==> forall s :: s in segments ==> s.programIndex != programIndex
  {
    if segments == [] then None
    else if segments[0].programIndex == programIndex then Some(segments[0])
    else FindSegment(segments[1..], programIndex)
  }

  /** Addresses whose word some relocation record patches. */
  function RelocatedWords(image: Image): set<Word> {
    set r | r in image.relocations && PatchesWord(image, r) :: PatchedWord(image, r)
  }

  predicate PatchesWord(image: Image, r: Relocation) {
    var segment := FindSegment(image.segments, r.patchSegment);
    segment.Some? && r.offset + 4 <= segment.value.memorySize
  }

  function PatchedWord(image: Image, r: Relocation): Word
    requires PatchesWord(image, r)
  {
    Add(FindSegment(image.segments, r.patchSegment).value.address, r.offset)
  }

  predicate InSection(section: Section, address: Word) {
    section.address <= address && address + 4 <= section.address + |section.bytes|
  }

  predicate IsExecutableWord(image: Image, address: Word) {
    address % 4 == 0 && exists s :: s in image.sections && InSection(s, address)
  }

  // ----- the words that get a case of their own -----

  lemma NextWordFits(offset: nat, length: nat)
    requires offset % 4 == 0 && length % 4 == 0 && offset < length
    ensures offset + 4 <= length && (offset + 4) % 4 == 0
  {
    var a, b := offset / 4, length / 4;
    assert a < b;
  }

  /** The words of one section from `offset` on, added to `code`. */
  function SectionCode(section: Section, offset: nat, code: map<Word, Word>): map<Word, Word>
    requires offset <= |section.bytes| && offset % 4 == 0 && |section.bytes| % 4 == 0
    decreases |section.bytes| - offset
  {
    if offset == |section.bytes| then code
    else
      NextWordFits(offset, |section.bytes|);
      SectionCode(section, offset + 4, code[Wrap(section.address + offset) := WordAt(section, offset)])
  }

  function CodeFrom(sections: seq<Section>, code: map<Word, Word>): map<Word, Word>
    requires forall s :: s in sections ==> |s.bytes| % 4 == 0
  {
    if sections == [] then code else CodeFrom(sections[1..], SectionCode(sections[0], 0, code))
  }

  /** Every word the translator lowers, by image address. */
  function Code(image: Image): map<Word, Word>
    requires WholeWords(image)
  {
    CodeFrom(image.sections, map[])
  }
}
