/** What the parser accepts, said with the records that a writer puts into the file. */
module ElfMeaning {
  import opened Prelude
  import opened Bits
  import opened ByteStrings
  import opened ElfModel
  import opened ElfParser
  import opened ElfCodec

  // ---- Names and kinds ----

  /** The table holds `name` at `offset`, up to a NUL or the table's end; outside the table there is no name. */
  ghost predicate Names(table: Bytes, offset: int, name: Bytes) {
    if 0 <= offset < |table| then
      && StandsAt(table, offset, name) && 0 !in name
      && (offset + |name| == |table| || table[offset + |name|] == 0)
    else name == []
  }

  lemma NamesIff(table: Bytes, offset: int, name: Bytes)
    ensures ReadCString(table, offset) == name <==> Names(table, offset, name)
  {
    if 0 <= offset < |table| {
      var rest, read := table[offset..], UpToNul(table[offset..]);
      hide UpToNul;
      assert rest[..|read|] == table[offset..offset + |read|];
      assert |read| < |rest| ==> table[offset + |read|] == rest[|read|];
      if Names(table, offset, name) {
        assert name == rest[..|name|];
        SameStop(rest, name, read);
      }
    }
  }

  /** A text without NUL that ends at a NUL or the end is found in one way only. */
  lemma SameStop(s: Bytes, a: Bytes, b: Bytes)
    requires |a| <= |s| && a == s[..|a|] && 0 !in a && (|a| == |s| || s[|a|] == 0)
    requires |b| <= |s| && b == s[..|b|] && 0 !in b && (|b| == |s| || s[|b|] == 0)
    ensures a == b
  {
    forall k | 0 <= k < |a| ensures s[k] != 0 {
      assert s[k] == a[k] && a[k] in a;
    }
    forall k | 0 <= k < |b| ensures s[k] != 0 {
      assert s[k] == b[k] && b[k] in b;
    }
  }

  /** NOBITS is type 8; of the flags SHF_EXECINSTR (4) wins over SHF_WRITE (1) and that over SHF_ALLOC (2). */
  ghost predicate Kinds(s: Section) {
    && (s.kind == Bss <==> s.stype == 8)
    && (s.kind == Executable <==> s.stype != 8 && s.flags / 4 % 2 == 1)
    && (s.kind == Writable <==> s.stype != 8 && s.flags / 4 % 2 == 0 && s.flags % 2 == 1)
    && (s.kind == ReadOnly <==> s.stype != 8 && s.flags / 4 % 2 == 0 && s.flags % 2 == 0 && s.flags / 2 % 2 == 1)
  }

  ghost predicate SectionIs(s: Section, raw: RawSection, index: int, table: Bytes) {
    && s == Section(index, s.name, raw.stype, raw.flags, raw.addr, raw.offset, raw.size, raw.link, raw.info,
                    raw.addralign, raw.entsize, s.kind)
    && Names(table, raw.name, s.name) && Kinds(s)
  }

  lemma SectionIff(s: Section, raw: RawSection, index: int, table: Bytes)
    ensures s == NamedSection(raw, table, index) <==> SectionIs(s, raw, index, table)
  {
    hide Names, ReadCString;
    NamesIff(table, raw.name, s.name);
  }

  // ---- The whole image ----

  /** The bytes of the section-name table; a file without one has no names. */
  ghost function NamesIn(data: Bytes, h: ElfHeader, raws: seq<RawSection>): Bytes {
    if !(0 < h.shstrndx < |raws|) then []
    else
      var e := raws[h.shstrndx];
      if 0 <= e.offset && 0 < e.size && e.offset + e.size <= |data| then data[e.offset..e.offset + e.size] else []
  }

  /** The file was written with these section headers and the image's header and program headers; every extent
      with file bytes lies in the file; names are read from a table that has file bytes. */
  ghost predicate WrittenWith(data: Bytes, image: ElfImage, raws: seq<RawSection>) {
    var h := image.header;
    && Written(data, image.littleEndian, h, image.programHeaders, raws)
    && (forall i :: 0 <= i < |image.programHeaders| ==>
          var p := image.programHeaders[i]; p.filesz != 0 ==> p.offset + p.filesz <= |data|)
    && (forall i :: 0 <= i < |raws| ==>
          raws[i].size != 0 && raws[i].stype != 8 ==> raws[i].offset + raws[i].size <= |data|)
    && (raws != [] && h.shstrndx != 0 ==> h.shstrndx < |raws| && raws[h.shstrndx].stype != 8)
    && |image.sections| == |raws|
    && forall i :: 0 <= i < |raws| ==> SectionIs(image.sections[i], raws[i], i, NamesIn(data, h, raws))
  }

  /** What the parser takes the entries of an accepted header for. */
  ghost function RawsOf(data: Bytes): (raws: seq<RawSection>)
    requires HeaderError(data).None?
    ensures |raws| == HeaderAt(data, IsLittle(data)).shnum
    ensures forall i :: 0 <= i < |raws| ==> raws[i] == EntrySection(data, i)
  {
    HeaderLarge(data);
    seq(HeaderAt(data, IsLittle(data)).shnum,
        i requires 0 <= i < HeaderAt(data, IsLittle(data)).shnum => EntrySection(data, i))
  }

  lemma TableIs(data: Bytes, h: ElfHeader, raws: seq<RawSection>)
    requires HeaderError(data).None? && h == HeaderAt(data, IsLittle(data)) && raws == RawsOf(data)
    requires forall i :: 0 <= i < |raws| ==> RawFits(raws[i]) && SectionDataFits(data, raws[i])
    requires h.shstrndx >= 0
    ensures NameTable(data).Ok? <==> (raws != [] && h.shstrndx != 0 ==> h.shstrndx < |raws| && raws[h.shstrndx].stype != 8)
    ensures NameTable(data).Ok? ==> NameTable(data).value == NamesIn(data, h, raws)
  {
    hide HeaderError, HeaderAt, EntrySection;
    if 0 < h.shstrndx < |raws| && raws[h.shstrndx].stype != 8 {
      SlicesAlike(data, raws[h.shstrndx]);
    }
  }

  lemma SlicesAlike(data: Bytes, e: RawSection)
    requires RawFits(e) && SectionDataFits(data, e) && e.stype != 8
    ensures Slice(data, e.offset, e.size)
         == if 0 < e.size && e.offset + e.size <= |data| then data[e.offset..e.offset + e.size] else []
  {
  }

  // ---- Accepted files are written ----

  lemma FieldBound(data: Bytes, at: nat, width: nat, little: bool)
    requires at + width <= |data|
    ensures Field(data, at, width, little) < Pow2(8 * width)
  {
    LERoundTrip(data[at..at + width]);
    BERoundTrip(data[at..at + width]);
  }

  lemma FieldBounds(data: Bytes, little: bool)
    ensures forall at: nat :: at + 4 <= |data| ==> Field(data, at, 4, little) < 0x1_0000_0000
    ensures forall at: nat :: at + 2 <= |data| ==> Field(data, at, 2, little) < 0x1_0000
  {
    hide Field, Pow2;
    Pow2Words();
    forall at: nat | at + 4 <= |data| ensures Field(data, at, 4, little) < 0x1_0000_0000 {
      FieldBound(data, at, 4, little);
    }
    forall at: nat | at + 2 <= |data| ensures Field(data, at, 2, little) < 0x1_0000 {
      FieldBound(data, at, 2, little);
    }
  }

  lemma HeaderFitting(data: Bytes, little: bool)
    requires |data| >= 52
    ensures HeaderFits(HeaderAt(data, little))
  {
    FieldBounds(data, little);
    hide Field;
  }

  lemma SegmentFitting(data: Bytes, at: nat, little: bool, index: int)
    requires at + 32 <= |data|
    ensures SegmentFits(SegmentAt(data, at, little, index)) && SegmentAt(data, at, little, index).index == index
  {
    FieldBounds(data, little);
    hide Field;
  }

  lemma RawFitting(data: Bytes, at: nat, little: bool)
    requires at + 40 <= |data|
    ensures RawFits(RawSectionAt(data, at, little))
  {
    FieldBounds(data, little);
    hide Field;
  }

  lemma TablesFit(data: Bytes, h: ElfHeader)
    requires HeaderError(data).None? && h == HeaderAt(data, IsLittle(data)) && HeaderFits(h)
    ensures |data| >= 52 && data[..4] == [0x7F, 0x45, 0x4C, 0x46] && data[4] == 1
    ensures data[5] == if IsLittle(data) then 1 else 2
    ensures h.ehsize == 0 || h.ehsize >= 52
    ensures h.phnum != 0 ==> h.phentsize >= 32 && h.phoff + h.phentsize * h.phnum <= |data|
    ensures h.shnum != 0 ==> h.shentsize >= 40 && h.shoff + h.shentsize * h.shnum <= |data|
  {
    hide HeaderAt;
  }

  lemma SegmentWritten(data: Bytes, h: ElfHeader, i: nat)
    requires HeaderError(data).None? && h == HeaderAt(data, IsLittle(data)) && i < h.phnum
    ensures SegmentFits(EntrySegment(data, i)) && EntrySegment(data, i).index == i
    ensures StandsAt(data, h.phoff + i * h.phentsize, SegmentBytes(EntrySegment(data, i), IsLittle(data)))
  {
    HeaderFitting(data, IsLittle(data));
    TablesFit(data, h);
    EntryFits(data, h.phoff, h.phentsize, h.phnum, i);
    hide HeaderError, HeaderAt, SegmentAt, StandsAt, SegmentBytes, SegmentFits, HeaderFits;
    var at := h.phoff + i * h.phentsize;
    SegmentFitting(data, at, IsLittle(data), i);
    SegmentReadsIff(data, at, IsLittle(data), EntrySegment(data, i));
  }

  lemma SectionWritten(data: Bytes, h: ElfHeader, i: nat)
    requires HeaderError(data).None? && h == HeaderAt(data, IsLittle(data)) && i < h.shnum
    ensures RawFits(EntrySection(data, i))
    ensures StandsAt(data, h.shoff + i * h.shentsize, RawBytes(EntrySection(data, i), IsLittle(data)))
  {
    HeaderFitting(data, IsLittle(data));
    TablesFit(data, h);
    EntryFits(data, h.shoff, h.shentsize, h.shnum, i);
    hide HeaderError, HeaderAt, RawSectionAt, StandsAt, RawBytes, RawFits, HeaderFits;
    var at := h.shoff + i * h.shentsize;
    RawFitting(data, at, IsLittle(data));
    SectionReadsIff(data, at, IsLittle(data), EntrySection(data, i));
  }

  lemma SegmentsOf(data: Bytes, segments: seq<ProgramHeader>)
    requires HeaderError(data).None? && |segments| == HeaderAt(data, IsLittle(data)).phnum
    requires forall i :: 0 <= i < |segments| ==> segments[i] == EntrySegment(data, i)
    ensures Written(data, IsLittle(data), HeaderAt(data, IsLittle(data)), segments, RawsOf(data))
  {
    hide *;
    HeaderLarge(data);
    var little := IsLittle(data);
    var h, raws := HeaderAt(data, little), RawsOf(data);
    HeaderFitting(data, little);
    TablesFit(data, h);
    HeaderReadsIff(data, little, h);
    forall i | 0 <= i < |segments|
      ensures segments[i].index == i && SegmentFits(segments[i])
      ensures StandsAt(data, h.phoff + i * h.phentsize, SegmentBytes(segments[i], little))
    {
      SegmentWritten(data, h, i);
    }
    forall i | 0 <= i < |raws|
      ensures RawFits(raws[i]) && StandsAt(data, h.shoff + i * h.shentsize, RawBytes(raws[i], little))
    {
      SectionWritten(data, h, i);
    }
    PartsWritten(data, little, h, segments, raws);
  }

  lemma PartsWritten(data: Bytes, little: bool, h: ElfHeader, segments: seq<ProgramHeader>, raws: seq<RawSection>)
    requires |data| >= 52 && data[..4] == [0x7F, 0x45, 0x4C, 0x46] && data[4] == 1 && data[5] == (if little then 1 else 2)
    requires HeaderFits(h) && StandsAt(data, 16, HeaderBytes(h, little))
    requires (h.ehsize == 0 || h.ehsize >= 52) && h.phnum == |segments| && h.shnum == |raws|
    requires h.phnum != 0 ==> h.phentsize >= 32 && h.phoff + h.phentsize * h.phnum <= |data|
    requires h.shnum != 0 ==> h.shentsize >= 40 && h.shoff + h.shentsize * h.shnum <= |data|
    requires forall i :: 0 <= i < |segments| ==>
               segments[i].index == i && SegmentFits(segments[i])
               && StandsAt(data, h.phoff + i * h.phentsize, SegmentBytes(segments[i], little))
    requires forall i :: 0 <= i < |raws| ==>
               RawFits(raws[i]) && StandsAt(data, h.shoff + i * h.shentsize, RawBytes(raws[i], little))
    ensures Written(data, little, h, segments, raws)
  {
    hide StandsAt, HeaderBytes, SegmentBytes, RawBytes, HeaderFits, SegmentFits, RawFits;
  }

  // ---- The parser accepts exactly the written files ----

  lemma SectionsOf(data: Bytes, image: ElfImage)
    requires Acceptable(data) && image == ImageOf(data)
    ensures WrittenWith(data, image, RawsOf(data))
  {
    hide *;
    ImageParts(data, image);
    var h, raws := HeaderAt(data, IsLittle(data)), RawsOf(data);
    SegmentsOf(data, image.programHeaders);
    HeaderFitting(data, IsLittle(data));
    forall i | 0 <= i < |raws|
      ensures RawFits(raws[i]) && SectionDataFits(data, raws[i])
      ensures raws[i].size != 0 && raws[i].stype != 8 ==> raws[i].offset + raws[i].size <= |data|
    {
      SectionWritten(data, h, i);
      RawExtent(data, raws[i]);
    }
    forall i | 0 <= i < |image.programHeaders|
      ensures var p := image.programHeaders[i]; p.filesz != 0 ==> p.offset + p.filesz <= |data|
    {
      SegmentWritten(data, h, i);
      SegmentExtent(data, image.programHeaders[i]);
    }
    HeaderIndex(h);
    TableIs(data, h, raws);
    forall i | 0 <= i < |raws| ensures SectionIs(image.sections[i], raws[i], i, NamesIn(data, h, raws)) {
      SectionIff(image.sections[i], raws[i], i, NamesIn(data, h, raws));
    }
    WrittenFromParts(data, image, raws);
  }

  lemma ImageParts(data: Bytes, image: ElfImage)
    requires Acceptable(data) && image == ImageOf(data)
    ensures |data| >= 52 && HeaderError(data).None? && NameTable(data).Ok? && image.rawData == data
    ensures image.littleEndian == IsLittle(data) && image.header == HeaderAt(data, IsLittle(data))
    ensures |image.programHeaders| == image.header.phnum && |image.sections| == image.header.shnum
    ensures forall i :: 0 <= i < |image.programHeaders| ==>
              image.programHeaders[i] == EntrySegment(data, i) && SegmentDataFits(data, EntrySegment(data, i))
    ensures forall i :: 0 <= i < |image.sections| ==>
              && image.sections[i] == NamedSection(EntrySection(data, i), NameTable(data).value, i)
              && SectionDataFits(data, EntrySection(data, i))
  {
    HeaderLarge(data);
    hide HeaderError, HeaderAt, EntrySegment, EntrySection, NameTable, NamedSection, SegmentDataFits, SectionDataFits,
      IsLittle;
  }

  lemma WrittenFromParts(data: Bytes, image: ElfImage, raws: seq<RawSection>)
    requires Written(data, image.littleEndian, image.header, image.programHeaders, raws)
    requires forall i :: 0 <= i < |image.programHeaders| ==>
               var p := image.programHeaders[i]; p.filesz != 0 ==> p.offset + p.filesz <= |data|
    requires forall i :: 0 <= i < |raws| ==>
               raws[i].size != 0 && raws[i].stype != 8 ==> raws[i].offset + raws[i].size <= |data|
    requires raws != [] && image.header.shstrndx != 0 ==>
               image.header.shstrndx < |raws| && raws[image.header.shstrndx].stype != 8
    requires image.header.shstrndx >= 0 && |image.sections| == |raws|
    requires forall i :: 0 <= i < |raws| ==> SectionIs(image.sections[i], raws[i], i, NamesIn(data, image.header, raws))
    ensures WrittenWith(data, image, raws)
  {
    hide Written, SectionIs, NamesIn;
  }

  lemma HeaderIndex(h: ElfHeader)
    requires HeaderFits(h)
    ensures h.shstrndx >= 0
  {
  }

  lemma RawExtent(data: Bytes, s: RawSection)
    requires RawFits(s)
    ensures SectionDataFits(data, s) <==> (s.size != 0 && s.stype != 8 ==> s.offset + s.size <= |data|)
  {
  }

  lemma SegmentExtent(data: Bytes, p: ProgramHeader)
    requires SegmentFits(p)
    ensures SegmentDataFits(data, p) <==> (p.filesz != 0 ==> p.offset + p.filesz <= |data|)
  {
  }

  lemma WrittenAccepted(data: Bytes, image: ElfImage, raws: seq<RawSection>)
    requires image.rawData == data && WrittenWith(data, image, raws)
    ensures Acceptable(data) && image == ImageOf(data)
  {
    hide HeaderError, HeaderAt, EntrySegment, EntrySection, NameTable, NamedSection, SegmentDataFits, SectionDataFits,
      Written, IsLittle, SectionIs, NamesIn, RawFits, SegmentFits, Acceptable, ImageOf, RawsOf, HeaderFits;
    var h, little := image.header, image.littleEndian;
    WrittenParses(data, little, h, image.programHeaders, raws);
    WrittenHeader(data, little, h, image.programHeaders, raws);
    WrittenRaws(data, little, h, image.programHeaders, raws);
    forall i | 0 <= i < |raws| ensures SectionDataFits(data, raws[i]) {
      RawExtent(data, raws[i]);
    }
    forall i | 0 <= i < |image.programHeaders| ensures SegmentDataFits(data, image.programHeaders[i]) {
      SegmentExtent(data, image.programHeaders[i]);
    }
    HeaderIndex(h);
    TableIs(data, h, raws);
    forall i | 0 <= i < |raws| ensures image.sections[i] == NamedSection(raws[i], NameTable(data).value, i) {
      SectionIff(image.sections[i], raws[i], i, NamesIn(data, h, raws));
    }
    ImageData(data);
    assert image.sections == ImageOf(data).sections;
  }

  lemma ImageData(data: Bytes)
    requires Acceptable(data)
    ensures ImageOf(data).rawData == data
  {
    hide HeaderError, HeaderAt, EntrySegment, EntrySection, NameTable, NamedSection;
  }

  lemma WrittenRaws(data: Bytes, little: bool, h: ElfHeader, segments: seq<ProgramHeader>, raws: seq<RawSection>)
    requires Written(data, little, h, segments, raws)
    ensures HeaderError(data).None? && IsLittle(data) == little && HeaderAt(data, little) == h && HeaderFits(h)
    ensures raws == RawsOf(data)
    ensures forall i :: 0 <= i < |raws| ==> RawFits(raws[i])
    ensures forall i :: 0 <= i < |segments| ==> SegmentFits(segments[i])
  {
    WrittenHeader(data, little, h, segments, raws);
    WrittenCounts(data, little, h, segments, raws);
    hide HeaderError, HeaderAt, EntrySegment, EntrySection, IsLittle, HeaderFits, SegmentFits, RawFits, StandsAt,
      HeaderBytes, SegmentBytes, RawBytes;
    forall i | 0 <= i < |raws| ensures EntrySection(data, i) == raws[i] {
      WrittenSection(data, little, h, segments, raws, i);
    }
  }

  /** The parser returns an image exactly when the file holds it: header, program headers and section headers
      written in its byte order where the header says, extents inside the file, and section names in the
      name table. */
  lemma ParsedIff(data: Bytes, image: ElfImage)
    ensures ParsesTo(data, Ok(image))
       <==> image.rawData == data && exists raws: seq<RawSection> :: WrittenWith(data, image, raws)
  {
    hide Acceptable, ImageOf, WrittenWith;
    if ParsesTo(data, Ok(image)) {
      SectionsOf(data, image);
      ImageData(data);
      AcceptableHeader(data);
      assert WrittenWith(data, image, RawsOf(data));
    }
    if raws: seq<RawSection> :| image.rawData == data && WrittenWith(data, image, raws) {
      WrittenAccepted(data, image, raws);
    }
  }

  lemma AcceptableHeader(data: Bytes)
    requires Acceptable(data)
    ensures HeaderError(data).None?
  {
    hide HeaderError, HeaderAt, EntrySegment, EntrySection, NameTable;
  }

  // ---- Which refusal ----

  /** The header is refused for the first check that it fails; `h` holds its fields. */
  lemma HeaderRefusal(data: Bytes)
    requires HeaderError(data).Some?
    ensures var e := HeaderError(data).value;
            if |data| < 52 then e == HeaderTruncated
            else if data[..4] != [0x7F] + Ascii("ELF") then e == BadMagic
            else if data[4] != 1 then e == BadClass
            else if data[5] !in {1, 2} then e == BadEncoding
            else
              var h := HeaderAt(data, data[5] == 1);
              if 0 < h.ehsize < 52 then e == BadHeaderSize
              else if h.phnum != 0 && h.phentsize < 32 then e == BadProgramEntrySize
              else if h.phnum != 0 && h.phoff + h.phentsize * h.phnum > |data| then e == ProgramTableOutside
              else if h.shnum != 0 && h.shentsize < 40 then e == BadSectionEntrySize
              else h.shnum != 0 && h.shoff + h.shentsize * h.shnum > |data| && e == SectionTableOutside
  {
    assert [0x7F] + Ascii("ELF") == [0x7F, 0x45, 0x4C, 0x46];
    hide HeaderAt, Ascii;
    if |data| >= 52 {
      HeaderFitting(data, data[5] == 1);
      var h := HeaderAt(data, data[5] == 1);
      if h.phentsize >= 0 && h.phnum >= 0 {
        EntriesNonNegative(h.phentsize, h.phnum);
      }
      if h.shentsize >= 0 && h.shnum >= 0 {
        EntriesNonNegative(h.shentsize, h.shnum);
      }
    }
  }

  /** A name table is refused when its index leaves the section table or names a section without file bytes. */
  lemma NamesRefusal(data: Bytes)
    requires HeaderError(data).None? && NameTable(data).Err?
    ensures var h := HeaderAt(data, data[5] == 1);
            && h.shstrndx != 0
            && if h.shstrndx >= h.shnum then NameTable(data) == Err(NameTableMissing)
               else RawsOf(data)[h.shstrndx].stype == 8 && NameTable(data) == Err(NameTableNobits)
  {
    HeaderLarge(data);
    HeaderFitting(data, data[5] == 1);
    hide HeaderError, HeaderAt, EntrySection;
  }

  // ---- Address lookup ----

  ghost predicate InSegment(p: ProgramHeader, a: int) {
    p.ptype == 1 && p.vaddr <= a < p.vaddr + p.filesz
  }

  ghost predicate InSection(s: Section, a: int) {
    s.stype != 8 && s.addr <= a < s.addr + s.size
  }

  /** An address is found in the first file-backed load segment that holds it, else in the first section with
      file bytes that does, at the same distance from its start as in memory. */
  lemma LookupIff(elf: ElfImage, a: int, offset: int)
    ensures elf.VaddrToOffset(a) == Some(offset)
       <==> || (exists i :: 0 <= i < |elf.programHeaders| && InSegment(elf.programHeaders[i], a)
                            && (forall j :: 0 <= j < i ==> !InSegment(elf.programHeaders[j], a))
                            && offset == elf.programHeaders[i].offset + (a - elf.programHeaders[i].vaddr))
            || ((forall i :: 0 <= i < |elf.programHeaders| ==> !InSegment(elf.programHeaders[i], a))
                && exists i :: 0 <= i < |elf.sections| && InSection(elf.sections[i], a)
                               && (forall j :: 0 <= j < i ==> !InSection(elf.sections[j], a))
                               && offset == elf.sections[i].offset + (a - elf.sections[i].addr))
  {
    SegmentLookup(elf.programHeaders, a);
    SectionLookup(elf.sections, a);
    hide SegmentOffset, SectionOffset;
  }

  lemma {:induction false} SegmentLookup(headers: seq<ProgramHeader>, a: int)
    ensures match SegmentOffset(headers, a)
            case None => forall i :: 0 <= i < |headers| ==> !InSegment(headers[i], a)
            case Some(offset) =>
              exists i :: 0 <= i < |headers| && InSegment(headers[i], a)
                          && (forall j :: 0 <= j < i ==> !InSegment(headers[j], a))
                          && offset == headers[i].offset + (a - headers[i].vaddr)
    decreases |headers|
  {
    if headers != [] && !InSegment(headers[0], a) {
      var rest := headers[1..];
      SegmentLookup(rest, a);
      assert forall i :: 0 <= i < |rest| ==> rest[i] == headers[i + 1];
      if SegmentOffset(rest, a).Some? {
        var i :| 0 <= i < |rest| && InSegment(rest[i], a) && (forall j :: 0 <= j < i ==> !InSegment(rest[j], a))
                 && SegmentOffset(rest, a).value == rest[i].offset + (a - rest[i].vaddr);
        assert forall j :: 0 < j < i + 1 ==> headers[j] == rest[j - 1];
        assert InSegment(headers[i + 1], a);
      }
    }
  }

  lemma {:induction false} SectionLookup(sections: seq<Section>, a: int)
    ensures match SectionOffset(sections, a)
            case None => forall i :: 0 <= i < |sections| ==> !InSection(sections[i], a)
            case Some(offset) =>
              exists i :: 0 <= i < |sections| && InSection(sections[i], a)
                          && (forall j :: 0 <= j < i ==> !InSection(sections[j], a))
                          && offset == sections[i].offset + (a - sections[i].addr)
    decreases |sections|
  {
    if sections != [] && !InSection(sections[0], a) {
      var rest := sections[1..];
      SectionLookup(rest, a);
      assert forall i :: 0 <= i < |rest| ==> rest[i] == sections[i + 1];
      if SectionOffset(rest, a).Some? {
        var i :| 0 <= i < |rest| && InSection(rest[i], a) && (forall j :: 0 <= j < i ==> !InSection(rest[j], a))
                 && SectionOffset(rest, a).value == rest[i].offset + (a - rest[i].addr);
        assert forall j :: 0 < j < i + 1 ==> sections[j] == rest[j - 1];
        assert InSection(sections[i + 1], a);
      }
    }
  }
}
