/** `elf32.py`: parsing an ELF32 image of either byte order. */
module ElfParser {
  import opened Prelude
  import opened ByteStrings
  import opened ElfModel

  datatype ParseError =
    | HeaderTruncated | BadMagic | BadClass | BadEncoding | BadHeaderSize
    | BadProgramEntrySize | ProgramTableOutside | BadSectionEntrySize | SectionTableOutside
    | ProgramDataOutside(index: int) | SectionDataOutside(index: int)
    | NameTableMissing | NameTableNobits

  /** `_require_range` passes. */
  predicate InRange(data: Bytes, offset: int, size: int) {
    0 <= size && 0 <= offset <= |data| && size <= |data| - offset
  }

  function Field(data: Bytes, at: nat, width: nat, little: bool): nat
    requires at + width <= |data|
  {
    if little then LE(data[at..at + width]) else BE(data[at..at + width])
  }

  function HeaderAt(data: Bytes, little: bool): ElfHeader
    requires |data| >= 52
  {
    ElfHeader(
      Field(data, 16, 2, little), Field(data, 18, 2, little), Field(data, 20, 4, little),
      Field(data, 24, 4, little), Field(data, 28, 4, little), Field(data, 32, 4, little),
      Field(data, 36, 4, little), Field(data, 40, 2, little), Field(data, 42, 2, little),
      Field(data, 44, 2, little), Field(data, 46, 2, little), Field(data, 48, 2, little),
      Field(data, 50, 2, little))
  }

  function SegmentAt(data: Bytes, at: nat, little: bool, index: int): ProgramHeader
    requires at + 32 <= |data|
  {
    ProgramHeader(
      index, Field(data, at, 4, little), Field(data, at + 4, 4, little), Field(data, at + 8, 4, little),
      Field(data, at + 12, 4, little), Field(data, at + 16, 4, little), Field(data, at + 20, 4, little),
      Field(data, at + 24, 4, little), Field(data, at + 28, 4, little))
  }

  datatype RawSection = RawSection(
    name: int, stype: int, flags: int, addr: int, offset: int, size: int,
    link: int, info: int, addralign: int, entsize: int)

  function RawSectionAt(data: Bytes, at: nat, little: bool): RawSection
    requires at + 40 <= |data|
  {
    RawSection(
      Field(data, at, 4, little), Field(data, at + 4, 4, little), Field(data, at + 8, 4, little),
      Field(data, at + 12, 4, little), Field(data, at + 16, 4, little), Field(data, at + 20, 4, little),
      Field(data, at + 24, 4, little), Field(data, at + 28, 4, little), Field(data, at + 32, 4, little),
      Field(data, at + 36, 4, little))
  }

  /** SHF_EXECINSTR is 4, SHF_WRITE is 1 and SHF_ALLOC is 2. */
  function KindOf(stype: int, flags: int): SectionKind {
    if stype == 8 then Bss
    else if flags / 4 % 2 == 1 then Executable
    else if flags % 2 == 1 then Writable
    else if flags / 2 % 2 == 1 then ReadOnly
    else NotLoaded
  }

  function UpToNul(s: Bytes): (r: Bytes)
    ensures |r| <= |s| && r == s[..|r|] && 0 !in r
    ensures |r| < |s| ==> s[|r|] == 0
  {
    if s == [] || s[0] == 0 then [] else [s[0]] + UpToNul(s[1..])
  }

  function ReadCString(table: Bytes, offset: int): Bytes {
    if offset < 0 || offset >= |table| then [] else UpToNul(table[offset..])
  }

  // ---- Header and tables ----

  predicate IsLittle(data: Bytes)
    requires |data| >= 52
  {
    data[5] == 1
  }

  predicate TableFits(data: Bytes, offset: int, entrySize: int, count: int) {
    InRange(data, offset, entrySize * count)
  }

  /** The first complaint about the identification, the header or the extent of either table. */
  function HeaderError(data: Bytes): Option<ParseError> {
    if |data| < 52 then Some(HeaderTruncated)
    else if data[..4] != [0x7F, 0x45, 0x4C, 0x46] then Some(BadMagic)
    else if data[4] != 1 then Some(BadClass)
    else if data[5] != 1 && data[5] != 2 then Some(BadEncoding)
    else
      var h := HeaderAt(data, IsLittle(data));
      if h.ehsize != 0 && h.ehsize < 52 then Some(BadHeaderSize)
      else if h.phnum != 0 && h.phentsize < 32 then Some(BadProgramEntrySize)
      else if h.phnum != 0 && !TableFits(data, h.phoff, h.phentsize, h.phnum) then Some(ProgramTableOutside)
      else if h.shnum != 0 && h.shentsize < 40 then Some(BadSectionEntrySize)
      else if h.shnum != 0 && !TableFits(data, h.shoff, h.shentsize, h.shnum) then Some(SectionTableOutside)
      else None
  }

  /** An entry of a table that fits the file lies in the file. */
  lemma EntryFits(data: Bytes, offset: int, entrySize: int, count: int, index: int)
    requires TableFits(data, offset, entrySize, count) && 0 <= index < count && entrySize >= 0
    ensures 0 <= offset + index * entrySize && offset + index * entrySize + entrySize <= |data|
  {
    TableStep(entrySize, count, index);
  }

  lemma TableStep(entrySize: int, count: int, index: int)
    requires 0 <= index < count && entrySize >= 0
    ensures 0 <= index * entrySize && index * entrySize + entrySize <= entrySize * count
  {
    assert (count - index - 1) * entrySize >= 0;
    assert (count - index - 1) * entrySize == count * entrySize - index * entrySize - entrySize;
  }

  function EntrySegment(data: Bytes, index: nat): ProgramHeader
    requires HeaderError(data).None? && index < HeaderAt(data, IsLittle(data)).phnum
  {
    var h := HeaderAt(data, IsLittle(data));
    EntryFits(data, h.phoff, h.phentsize, h.phnum, index);
    SegmentAt(data, h.phoff + index * h.phentsize, IsLittle(data), index)
  }

  function EntrySection(data: Bytes, index: nat): RawSection
    requires HeaderError(data).None? && index < HeaderAt(data, IsLittle(data)).shnum
  {
    var h := HeaderAt(data, IsLittle(data));
    EntryFits(data, h.shoff, h.shentsize, h.shnum, index);
    RawSectionAt(data, h.shoff + index * h.shentsize, IsLittle(data))
  }

  predicate SegmentDataFits(data: Bytes, p: ProgramHeader) {
    p.filesz != 0 ==> InRange(data, p.offset, p.filesz)
  }

  predicate SectionDataFits(data: Bytes, s: RawSection) {
    s.size != 0 && s.stype != 8 ==> InRange(data, s.offset, s.size)
  }

  ghost predicate SegmentsFit(data: Bytes, n: nat)
    requires HeaderError(data).None? && n <= HeaderAt(data, IsLittle(data)).phnum
  {
    forall i: nat :: i < n ==> SegmentDataFits(data, EntrySegment(data, i))
  }

  ghost predicate SectionsFit(data: Bytes, n: nat)
    requires HeaderError(data).None? && n <= HeaderAt(data, IsLittle(data)).shnum
  {
    forall i: nat :: i < n ==> SectionDataFits(data, EntrySection(data, i))
  }

  // ---- Section names ----

  /** `data[offset:offset + size]` with Python's clamping. */
  function Slice(data: Bytes, offset: nat, size: nat): Bytes {
    if offset >= |data| then []
    else if offset + size > |data| then data[offset..]
    else data[offset..offset + size]
  }

  function NameTable(data: Bytes): Result<Bytes, ParseError>
    requires HeaderError(data).None?
  {
    var h := HeaderAt(data, IsLittle(data));
    if h.shnum == 0 || h.shstrndx == 0 then Ok([])
    else if h.shstrndx >= h.shnum then Err(NameTableMissing)
    else
      var entry := EntrySection(data, h.shstrndx);
      if entry.stype == 8 then Err(NameTableNobits) else Ok(Slice(data, entry.offset, entry.size))
  }

  function NamedSection(raw: RawSection, names: Bytes, index: int): Section {
    Section(
      index, ReadCString(names, raw.name), raw.stype, raw.flags, raw.addr, raw.offset, raw.size,
      raw.link, raw.info, raw.addralign, raw.entsize, KindOf(raw.stype, raw.flags))
  }

  // ---- The whole image ----

  ghost predicate Acceptable(data: Bytes) {
    && HeaderError(data).None?
    && SegmentsFit(data, HeaderAt(data, IsLittle(data)).phnum)
    && SectionsFit(data, HeaderAt(data, IsLittle(data)).shnum)
    && NameTable(data).Ok?
  }

  ghost function ImageOf(data: Bytes): ElfImage
    requires Acceptable(data)
  {
    var h := HeaderAt(data, IsLittle(data));
    var names := NameTable(data).value;
    ElfImage(
      h, IsLittle(data),
      seq(h.phnum, i requires 0 <= i < h.phnum => EntrySegment(data, i)),
      seq(h.shnum, i requires 0 <= i < h.shnum => NamedSection(EntrySection(data, i), names, i)),
      data)
  }

  /** The error reported is the first one met. */
  ghost predicate FirstError(data: Bytes, e: ParseError) {
    match HeaderError(data)
    case Some(first) => e == first
    case None =>
      var h := HeaderAt(data, IsLittle(data));
      match e
      case ProgramDataOutside(i) =>
        0 <= i < h.phnum && SegmentsFit(data, i) && !SegmentDataFits(data, EntrySegment(data, i))
      case SectionDataOutside(i) =>
        && SegmentsFit(data, h.phnum)
        && 0 <= i < h.shnum && SectionsFit(data, i) && !SectionDataFits(data, EntrySection(data, i))
      case _ =>
        SegmentsFit(data, h.phnum) && SectionsFit(data, h.shnum) && NameTable(data) == Err(e)
  }

  ghost predicate ParsesTo(data: Bytes, r: Result<ElfImage, ParseError>) {
    match r
    case Ok(image) => Acceptable(data) && image == ImageOf(data)
    case Err(e) => FirstError(data, e)
  }

  /** Every byte string has exactly one outcome. */
  lemma OutcomeUnique(data: Bytes, r: Result<ElfImage, ParseError>, q: Result<ElfImage, ParseError>)
    requires ParsesTo(data, r) && ParsesTo(data, q)
    ensures r == q
  {
    hide HeaderError, HeaderAt, EntrySegment, EntrySection, NameTable, SegmentDataFits, SectionDataFits, ImageOf;
    if HeaderError(data).None? && r.Err? && q.Err? {
      if r.error.ProgramDataOutside? && q.error.ProgramDataOutside? {
        assert r.error.index == q.error.index;
      } else if r.error.SectionDataOutside? && q.error.SectionDataOutside? {
        assert r.error.index == q.error.index;
      }
    }
  }

  method ParseElf32(data: Bytes) returns (r: Result<ElfImage, ParseError>)
    ensures ParsesTo(data, r)
  {
    hide HeaderAt, TableFits, EntrySegment, EntrySection, NameTable, SegmentDataFits, SectionDataFits, NamedSection;
    var complaint := HeaderError(data);
    if complaint.Some? {
      return Err(complaint.value);
    }
    HeaderLarge(data);
    hide HeaderError;
    var little := IsLittle(data);
    var h := HeaderAt(data, little);
    var headers := [];
    for index: int := 0 to h.phnum
      invariant |headers| == index && forall i :: 0 <= i < index ==> headers[i] == EntrySegment(data, i)
      invariant SegmentsFit(data, index)
    {
      var segment := EntrySegment(data, index);
      if !SegmentDataFits(data, segment) {
        return Err(ProgramDataOutside(index));
      }
      headers := headers + [segment];
    }
    var raw := [];
    for index: int := 0 to h.shnum
      invariant |raw| == index && forall i :: 0 <= i < index ==> raw[i] == EntrySection(data, i)
      invariant SectionsFit(data, index)
    {
      var section := EntrySection(data, index);
      if !SectionDataFits(data, section) {
        return Err(SectionDataOutside(index));
      }
      raw := raw + [section];
    }
    var names := NameTable(data);
    if names.Err? {
      NameErrors(data);
      return Err(names.error);
    }
    var sections := [];
    for index := 0 to |raw|
      invariant |sections| == index
      invariant forall i :: 0 <= i < index ==> sections[i] == NamedSection(raw[i], names.value, i)
    {
      sections := sections + [NamedSection(raw[index], names.value, index)];
    }
    var image := ElfImage(h, little, headers, sections, data);
    assert image.programHeaders == ImageOf(data).programHeaders && image.sections == ImageOf(data).sections;
    return Ok(image);
  }

  lemma HeaderLarge(data: Bytes)
    requires HeaderError(data).None?
    ensures |data| >= 52
    ensures var h := HeaderAt(data, IsLittle(data)); h.phnum >= 0 && h.shnum >= 0
  {
  }

  lemma NameErrors(data: Bytes)
    requires HeaderError(data).None? && NameTable(data).Err?
    ensures NameTable(data).error.NameTableMissing? || NameTable(data).error.NameTableNobits?
  {
    hide HeaderError, HeaderAt, EntrySection;
  }

  // ---- What a parsed image guarantees ----

  ghost predicate Contained(image: ElfImage) {
    && (forall i :: 0 <= i < |image.programHeaders| ==>
          var p := image.programHeaders[i];
          p.index == i && p.offset >= 0 && p.filesz >= 0
          && (p.filesz > 0 ==> p.offset + p.filesz <= |image.rawData|))
    && (forall i :: 0 <= i < |image.sections| ==>
          var s := image.sections[i];
          s.index == i && s.offset >= 0 && s.size >= 0 && 0 !in s.name
          && (s.size > 0 && s.stype != 8 ==> s.offset + s.size <= |image.rawData|))
  }

  /** Headers and sections are numbered in order, and all file-backed extents lie in the file. */
  lemma ParsedContained(data: Bytes, image: ElfImage)
    requires ParsesTo(data, Ok(image))
    ensures image.rawData == data && Contained(image)
    ensures |image.programHeaders| == image.header.phnum && |image.sections| == image.header.shnum
  {
    HeaderLarge(data);
    hide HeaderError, HeaderAt, EntrySegment, EntrySection, NameTable, ReadCString, KindOf;
    var h := HeaderAt(data, IsLittle(data));
    forall i: nat | i < h.phnum
      ensures var p := EntrySegment(data, i);
              p.index == i && p.offset >= 0 && p.filesz >= 0 && (p.filesz > 0 ==> p.offset + p.filesz <= |data|)
    {
      SegmentSigns(data, i);
      assert SegmentDataFits(data, EntrySegment(data, i));
    }
    forall i: nat | i < h.shnum
      ensures var s := EntrySection(data, i);
              s.offset >= 0 && s.size >= 0 && (s.size > 0 && s.stype != 8 ==> s.offset + s.size <= |data|)
    {
      SectionSigns(data, i);
      assert SectionDataFits(data, EntrySection(data, i));
    }
    NamesFree(data);
  }

  lemma SegmentSigns(data: Bytes, i: nat)
    requires HeaderError(data).None? && i < HeaderAt(data, IsLittle(data)).phnum
    ensures var p := EntrySegment(data, i); p.index == i && p.offset >= 0 && p.filesz >= 0
  {
    hide HeaderError, HeaderAt, Field;
  }

  lemma SectionSigns(data: Bytes, i: nat)
    requires HeaderError(data).None? && i < HeaderAt(data, IsLittle(data)).shnum
    ensures var s := EntrySection(data, i); s.offset >= 0 && s.size >= 0
  {
    hide HeaderError, HeaderAt, Field;
  }

  lemma NamesFree(data: Bytes)
    ensures forall table: Bytes, offset: int :: 0 !in ReadCString(table, offset)
  {
  }

  /** Address lookup in a parsed image never leads outside the file. */
  lemma LookupInFile(data: Bytes, image: ElfImage, address: int)
    requires ParsesTo(data, Ok(image)) && image.VaddrToOffset(address).Some?
    ensures 0 <= image.VaddrToOffset(address).value < |data|
  {
    hide ParsesTo;
    ParsedContained(data, image);
    SegmentLookupInFile(image.programHeaders, |data|, address);
    SectionLookupInFile(image.sections, |data|, address);
  }

  lemma {:induction false} SegmentLookupInFile(headers: seq<ProgramHeader>, size: nat, address: int)
    requires forall p :: p in headers ==> p.offset >= 0 && (p.filesz > 0 ==> p.offset + p.filesz <= size)
    ensures SegmentOffset(headers, address).Some? ==> 0 <= SegmentOffset(headers, address).value < size
    decreases |headers|
  {
    if headers != [] && !headers[0].FileBacks(address) {
      SegmentLookupInFile(headers[1..], size, address);
    }
  }

  lemma {:induction false} SectionLookupInFile(sections: seq<Section>, size: nat, address: int)
    requires forall s :: s in sections ==>
               s.offset >= 0 && (s.size > 0 && s.stype != 8 ==> s.offset + s.size <= size)
    ensures SectionOffset(sections, address).Some? ==> 0 <= SectionOffset(sections, address).value < size
    decreases |sections|
  {
    if sections != [] && !sections[0].FileBacks(address) {
      SectionLookupInFile(sections[1..], size, address);
    }
  }
}
