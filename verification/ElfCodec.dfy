/** ELF32 records written field by field in either byte order ("Object Files", chapter 4 of the
    System V ABI), and the proof that the parser reads exactly what such a writer wrote. */
module ElfCodec {
  import opened Bits
  import opened ByteStrings
  import opened ElfModel
  import opened ElfParser

  predicate IsWord(v: int) {
    0 <= v < 0x1_0000_0000
  }

  predicate IsHalf(v: int) {
    0 <= v < 0x1_0000
  }

  function PackField(v: nat, width: nat, little: bool): (r: Bytes)
    ensures |r| == width
  {
    if little then LEBytes(v, width) else BEBytes(v, width)
  }

  function PackWords(values: seq<nat>, little: bool): (r: Bytes)
    ensures |r| == 4 * |values|
  {
    if values == [] then [] else PackField(values[0], 4, little) + PackWords(values[1..], little)
  }

  function PackHalves(values: seq<nat>, little: bool): (r: Bytes)
    ensures |r| == 2 * |values|
  {
    if values == [] then [] else PackField(values[0], 2, little) + PackHalves(values[1..], little)
  }

  /** A field reads as `v` exactly when `v` was written there. */
  lemma {:induction false} FieldIff(data: Bytes, at: nat, width: nat, little: bool, v: nat)
    requires at + width <= |data| && v < Pow2(8 * width)
    ensures StandsAt(data, at, PackField(v, width, little)) <==> Field(data, at, width, little) == v
  {
    hide LE, LEBytes, BE, BEBytes, Pow2;
    LEBytesRoundTrip(v, width);
    BEBytesRoundTrip(v, width);
    LERoundTrip(data[at..at + width]);
    BERoundTrip(data[at..at + width]);
  }

  /** Consecutive words read as `values`. */
  ghost predicate ReadsAs(data: Bytes, at: nat, values: seq<nat>, little: bool)
    requires at + 4 * |values| <= |data|
  {
    forall k :: 0 <= k < |values| ==> Field(data, at + 4 * k, 4, little) == values[k]
  }

  lemma {:induction false} WordsIff(data: Bytes, at: nat, values: seq<nat>, little: bool)
    requires at + 4 * |values| <= |data| && forall i :: 0 <= i < |values| ==> IsWord(values[i])
    ensures StandsAt(data, at, PackWords(values, little)) <==> ReadsAs(data, at, values, little)
    decreases |values|
  {
    hide Field, StandsAt, PackField, ReadsAs;
    if values == [] {
      NothingStands(data, at);
      assert ReadsAs(data, at, values, little) by {
        NothingRead(data, at, little);
      }
    } else {
      var rest := values[1..];
      Pow2Words();
      assert IsWord(values[0]);
      FieldIff(data, at, 4, little, values[0]);
      WordsIff(data, at + 4, rest, little);
      PartsStand(data, at, PackField(values[0], 4, little), PackWords(rest, little));
      WordShift(data, at, values, little);
    }
  }

  lemma NothingRead(data: Bytes, at: nat, little: bool)
    requires at <= |data|
    ensures ReadsAs(data, at, [], little)
  {
  }

  lemma WordShift(data: Bytes, at: nat, values: seq<nat>, little: bool)
    requires values != [] && at + 4 * |values| <= |data|
    ensures ReadsAs(data, at, values, little)
       <==> Field(data, at, 4, little) == values[0] && ReadsAs(data, at + 4, values[1..], little)
  {
    hide Field;
    var rest := values[1..];
    if Field(data, at, 4, little) == values[0] && ReadsAs(data, at + 4, rest, little) {
      forall k | 0 <= k < |values| ensures Field(data, at + 4 * k, 4, little) == values[k] {
        if k > 0 {
          assert Field(data, at + 4 + 4 * (k - 1), 4, little) == rest[k - 1];
        }
      }
    }
    if ReadsAs(data, at, values, little) {
      assert Field(data, at + 4 * 0, 4, little) == values[0];
      forall k | 0 <= k < |rest| ensures Field(data, at + 4 + 4 * k, 4, little) == rest[k] {
        assert Field(data, at + 4 * (k + 1), 4, little) == values[k + 1];
      }
    }
  }

  /** A half-word at the head of a list of half-words. */
  lemma {:induction false} HalvesStep(data: Bytes, at: nat, v: nat, rest: seq<nat>, little: bool)
    requires at + 2 + 2 * |rest| <= |data| && IsHalf(v) && forall i :: 0 <= i < |rest| ==> IsHalf(rest[i])
    ensures StandsAt(data, at, PackHalves([v] + rest, little))
       <==> Field(data, at, 2, little) == v && StandsAt(data, at + 2, PackHalves(rest, little))
  {
    hide Field, StandsAt, PackField;
    Pow2Words();
    FieldIff(data, at, 2, little, v);
    assert ([v] + rest)[1..] == rest;
    PartsStand(data, at, PackField(v, 2, little), PackHalves(rest, little));
  }

  lemma {:induction false} SixHalves(
    data: Bytes, at: nat, a: nat, b: nat, c: nat, d: nat, e: nat, f: nat, little: bool)
    requires at + 12 <= |data|
    requires IsHalf(a) && IsHalf(b) && IsHalf(c) && IsHalf(d) && IsHalf(e) && IsHalf(f)
    ensures StandsAt(data, at, PackHalves([a, b, c, d, e, f], little))
       <==> Field(data, at, 2, little) == a && Field(data, at + 2, 2, little) == b
            && Field(data, at + 4, 2, little) == c && Field(data, at + 6, 2, little) == d
            && Field(data, at + 8, 2, little) == e && Field(data, at + 10, 2, little) == f
  {
    hide Field, StandsAt, PackHalves;
    HalvesStep(data, at, a, [b, c, d, e, f], little);
    HalvesStep(data, at + 2, b, [c, d, e, f], little);
    HalvesStep(data, at + 4, c, [d, e, f], little);
    HalvesStep(data, at + 6, d, [e, f], little);
    HalvesStep(data, at + 8, e, [f], little);
    HalvesStep(data, at + 10, f, [], little);
    assert [a] + [b, c, d, e, f] == [a, b, c, d, e, f] && [b] + [c, d, e, f] == [b, c, d, e, f];
    assert [c] + [d, e, f] == [c, d, e, f] && [d] + [e, f] == [d, e, f] && [e] + [f] == [e, f] && [f] + [] == [f];
    NoHalves(data, at + 12, little);
  }

  lemma {:induction false} NoHalves(data: Bytes, at: nat, little: bool)
    requires at <= |data|
    ensures StandsAt(data, at, PackHalves([], little))
  {
  }

  // ---- Records ----

  predicate HeaderFits(h: ElfHeader) {
    && IsHalf(h.fileType) && IsHalf(h.machine) && IsWord(h.version) && IsWord(h.entry) && IsWord(h.phoff)
    && IsWord(h.shoff) && IsWord(h.flags) && IsHalf(h.ehsize) && IsHalf(h.phentsize) && IsHalf(h.phnum)
    && IsHalf(h.shentsize) && IsHalf(h.shnum) && IsHalf(h.shstrndx)
  }

  /** e_type to e_shstrndx, after the sixteen identification bytes. */
  function HeaderBytes(h: ElfHeader, little: bool): (r: Bytes)
    requires HeaderFits(h)
    ensures |r| == 36
  {
    PackHalves([h.fileType, h.machine], little)
    + (PackWords([h.version, h.entry, h.phoff, h.shoff, h.flags], little)
       + PackHalves([h.ehsize, h.phentsize, h.phnum, h.shentsize, h.shnum, h.shstrndx], little))
  }

  predicate SegmentFits(p: ProgramHeader) {
    && IsWord(p.ptype) && IsWord(p.offset) && IsWord(p.vaddr) && IsWord(p.paddr)
    && IsWord(p.filesz) && IsWord(p.memsz) && IsWord(p.flags) && IsWord(p.align)
  }

  function SegmentBytes(p: ProgramHeader, little: bool): (r: Bytes)
    requires SegmentFits(p)
    ensures |r| == 32
  {
    PackWords([p.ptype, p.offset, p.vaddr, p.paddr, p.filesz, p.memsz, p.flags, p.align], little)
  }

  predicate RawFits(s: RawSection) {
    && IsWord(s.name) && IsWord(s.stype) && IsWord(s.flags) && IsWord(s.addr) && IsWord(s.offset)
    && IsWord(s.size) && IsWord(s.link) && IsWord(s.info) && IsWord(s.addralign) && IsWord(s.entsize)
  }

  function RawBytes(s: RawSection, little: bool): (r: Bytes)
    requires RawFits(s)
    ensures |r| == 40
  {
    PackWords([s.name, s.stype, s.flags, s.addr, s.offset, s.size, s.link, s.info, s.addralign, s.entsize], little)
  }

  /** The parser reads `h` exactly when `h` was written after the identification. */
  lemma {:induction false} HeaderReadsIff(data: Bytes, little: bool, h: ElfHeader)
    requires |data| >= 52 && HeaderFits(h)
    ensures StandsAt(data, 16, HeaderBytes(h, little)) <==> HeaderAt(data, little) == h
  {
    hide Field, StandsAt, PackHalves, PackWords, ReadsAs;
    var kinds: seq<nat>, words: seq<nat>, sizes: seq<nat> := [h.fileType, h.machine], [h.version, h.entry, h.phoff, h.shoff, h.flags],
      [h.ehsize, h.phentsize, h.phnum, h.shentsize, h.shnum, h.shstrndx];
    PartsStand(data, 16, PackHalves(kinds, little), PackWords(words, little) + PackHalves(sizes, little));
    PartsStand(data, 20, PackWords(words, little), PackHalves(sizes, little));
    HalvesStep(data, 16, h.fileType, [h.machine], little);
    HalvesStep(data, 18, h.machine, [], little);
    NoHalves(data, 20, little);
    assert [h.fileType] + [h.machine] == kinds && [h.machine] + [] == [h.machine];
    WordsIff(data, 20, words, little);
    FiveWords(data, 20, little, words);
    SixHalves(data, 40, h.ehsize, h.phentsize, h.phnum, h.shentsize, h.shnum, h.shstrndx, little);
  }

  lemma FiveWords(data: Bytes, at: nat, little: bool, v: seq<nat>)
    requires at + 20 <= |data| && |v| == 5
    ensures ReadsAs(data, at, v, little)
       <==> Field(data, at, 4, little) == v[0] && Field(data, at + 4, 4, little) == v[1]
            && Field(data, at + 8, 4, little) == v[2] && Field(data, at + 12, 4, little) == v[3]
            && Field(data, at + 16, 4, little) == v[4]
  {
    hide Field;
    if ReadsAs(data, at, v, little) {
      assert Field(data, at + 4 * 0, 4, little) == v[0] && Field(data, at + 4 * 1, 4, little) == v[1];
      assert Field(data, at + 4 * 2, 4, little) == v[2] && Field(data, at + 4 * 3, 4, little) == v[3];
      assert Field(data, at + 4 * 4, 4, little) == v[4];
    }
  }

  lemma EightWords(data: Bytes, at: nat, little: bool, v: seq<nat>)
    requires at + 32 <= |data| && |v| == 8
    ensures ReadsAs(data, at, v, little)
       <==> Field(data, at, 4, little) == v[0] && Field(data, at + 4, 4, little) == v[1]
            && Field(data, at + 8, 4, little) == v[2] && Field(data, at + 12, 4, little) == v[3]
            && Field(data, at + 16, 4, little) == v[4] && Field(data, at + 20, 4, little) == v[5]
            && Field(data, at + 24, 4, little) == v[6] && Field(data, at + 28, 4, little) == v[7]
  {
    hide Field;
    if ReadsAs(data, at, v, little) {
      assert Field(data, at + 4 * 0, 4, little) == v[0] && Field(data, at + 4 * 1, 4, little) == v[1];
      assert Field(data, at + 4 * 2, 4, little) == v[2] && Field(data, at + 4 * 3, 4, little) == v[3];
      assert Field(data, at + 4 * 4, 4, little) == v[4] && Field(data, at + 4 * 5, 4, little) == v[5];
      assert Field(data, at + 4 * 6, 4, little) == v[6] && Field(data, at + 4 * 7, 4, little) == v[7];
    }
  }

  lemma TenWords(data: Bytes, at: nat, little: bool, v: seq<nat>)
    requires at + 40 <= |data| && |v| == 10
    ensures ReadsAs(data, at, v, little)
       <==> Field(data, at, 4, little) == v[0] && Field(data, at + 4, 4, little) == v[1]
            && Field(data, at + 8, 4, little) == v[2] && Field(data, at + 12, 4, little) == v[3]
            && Field(data, at + 16, 4, little) == v[4] && Field(data, at + 20, 4, little) == v[5]
            && Field(data, at + 24, 4, little) == v[6] && Field(data, at + 28, 4, little) == v[7]
            && Field(data, at + 32, 4, little) == v[8] && Field(data, at + 36, 4, little) == v[9]
  {
    hide Field;
    if ReadsAs(data, at, v, little) {
      assert Field(data, at + 4 * 0, 4, little) == v[0] && Field(data, at + 4 * 1, 4, little) == v[1];
      assert Field(data, at + 4 * 2, 4, little) == v[2] && Field(data, at + 4 * 3, 4, little) == v[3];
      assert Field(data, at + 4 * 4, 4, little) == v[4] && Field(data, at + 4 * 5, 4, little) == v[5];
      assert Field(data, at + 4 * 6, 4, little) == v[6] && Field(data, at + 4 * 7, 4, little) == v[7];
      assert Field(data, at + 4 * 8, 4, little) == v[8] && Field(data, at + 4 * 9, 4, little) == v[9];
    }
  }

  lemma SegmentReadsIff(data: Bytes, at: nat, little: bool, p: ProgramHeader)
    requires at + 32 <= |data| && SegmentFits(p)
    ensures StandsAt(data, at, SegmentBytes(p, little)) <==> SegmentAt(data, at, little, p.index) == p
  {
    hide Field, StandsAt, PackWords, ReadsAs;
    var words: seq<nat> := [p.ptype, p.offset, p.vaddr, p.paddr, p.filesz, p.memsz, p.flags, p.align];
    WordsIff(data, at, words, little);
    EightWords(data, at, little, words);
  }

  lemma {:induction false} SectionReadsIff(data: Bytes, at: nat, little: bool, s: RawSection)
    requires at + 40 <= |data| && RawFits(s)
    ensures StandsAt(data, at, RawBytes(s, little)) <==> RawSectionAt(data, at, little) == s
  {
    hide Field, StandsAt, PackWords, ReadsAs;
    var words: seq<nat> := [s.name, s.stype, s.flags, s.addr, s.offset, s.size, s.link, s.info, s.addralign, s.entsize];
    WordsIff(data, at, words, little);
    TenWords(data, at, little, words);
  }

  // ---- Whole files ----

  /** A file whose header, program headers and section headers were written where the header says. */
  ghost predicate Written(
    data: Bytes, little: bool, h: ElfHeader, segments: seq<ProgramHeader>, raws: seq<RawSection>) {
    && |data| >= 52 && data[..4] == [0x7F, 0x45, 0x4C, 0x46] && data[4] == 1 && data[5] == (if little then 1 else 2)
    && HeaderFits(h) && StandsAt(data, 16, HeaderBytes(h, little))
    && (h.ehsize == 0 || h.ehsize >= 52)
    && h.phnum == |segments| && h.shnum == |raws|
    && (segments != [] ==> h.phentsize >= 32 && h.phoff + h.phentsize * |segments| <= |data|)
    && (raws != [] ==> h.shentsize >= 40 && h.shoff + h.shentsize * |raws| <= |data|)
    && (forall i :: 0 <= i < |segments| ==>
          segments[i].index == i && SegmentFits(segments[i])
          && StandsAt(data, h.phoff + i * h.phentsize, SegmentBytes(segments[i], little)))
    && (forall i :: 0 <= i < |raws| ==>
          RawFits(raws[i]) && StandsAt(data, h.shoff + i * h.shentsize, RawBytes(raws[i], little)))
  }

  lemma WrittenHeader(
    data: Bytes, little: bool, h: ElfHeader, segments: seq<ProgramHeader>, raws: seq<RawSection>)
    requires Written(data, little, h, segments, raws)
    ensures HeaderError(data).None? && IsLittle(data) == little && HeaderAt(data, little) == h
  {
    hide HeaderAt, StandsAt, HeaderBytes, SegmentBytes, RawBytes;
    HeaderReadsIff(data, little, h);
    EntriesNonNegative(h.phentsize, |segments|);
    EntriesNonNegative(h.shentsize, |raws|);
    hide HeaderFits, SegmentFits, RawFits;
  }

  lemma EntriesNonNegative(size: int, count: nat)
    ensures size >= 0 ==> size * count >= 0
  {
  }

  /** The parser returns the written header, program headers and sections; it refuses a written file
      only for an extent outside the file or a bad section-name table. */
  lemma {:induction false} WrittenParses(
    data: Bytes, little: bool, h: ElfHeader, segments: seq<ProgramHeader>, raws: seq<RawSection>)
    requires Written(data, little, h, segments, raws)
    ensures Acceptable(data)
       <==> HeaderError(data).None? && NameTable(data).Ok?
            && (forall i :: 0 <= i < |segments| ==> SegmentDataFits(data, segments[i]))
            && (forall i :: 0 <= i < |raws| ==> SectionDataFits(data, raws[i]))
    ensures Acceptable(data) ==>
              var image := ImageOf(data);
              && image.header == h && image.littleEndian == little && image.programHeaders == segments
              && |image.sections| == |raws|
              && forall i :: 0 <= i < |raws| ==> image.sections[i] == NamedSection(raws[i], NameTable(data).value, i)
  {
    hide HeaderAt, HeaderError, StandsAt, HeaderBytes, SegmentBytes, RawBytes, NameTable, NamedSection,
      EntrySegment, EntrySection, SegmentDataFits, SectionDataFits, Written;
    WrittenHeader(data, little, h, segments, raws);
    WrittenCounts(data, little, h, segments, raws);
    forall i: nat | i < |segments| ensures EntrySegment(data, i) == segments[i] {
      WrittenSegment(data, little, h, segments, raws, i);
    }
    forall i: nat | i < |raws| ensures EntrySection(data, i) == raws[i] {
      WrittenSection(data, little, h, segments, raws, i);
    }
  }

  lemma WrittenCounts(
    data: Bytes, little: bool, h: ElfHeader, segments: seq<ProgramHeader>, raws: seq<RawSection>)
    requires Written(data, little, h, segments, raws)
    ensures |data| >= 52 && h.phnum == |segments| && h.shnum == |raws|
  {
  }

  lemma {:induction false} WrittenSegment(
    data: Bytes, little: bool, h: ElfHeader, segments: seq<ProgramHeader>, raws: seq<RawSection>, i: nat)
    requires Written(data, little, h, segments, raws) && i < |segments|
    requires HeaderError(data).None? && IsLittle(data) == little && HeaderAt(data, little) == h
    ensures EntrySegment(data, i) == segments[i]
  {
    hide HeaderAt, HeaderError, HeaderBytes, RawBytes, SegmentAt, HeaderFits, RawFits, SegmentFits;
    SegmentReadsIff(data, h.phoff + i * h.phentsize, little, segments[i]);
  }

  lemma {:induction false} WrittenSection(
    data: Bytes, little: bool, h: ElfHeader, segments: seq<ProgramHeader>, raws: seq<RawSection>, i: nat)
    requires Written(data, little, h, segments, raws) && i < |raws|
    requires HeaderError(data).None? && IsLittle(data) == little && HeaderAt(data, little) == h
    ensures EntrySection(data, i) == raws[i]
  {
    hide HeaderAt, HeaderError, HeaderBytes, SegmentBytes, RawSectionAt, HeaderFits, RawFits, SegmentFits;
    SectionReadsIff(data, h.shoff + i * h.shentsize, little, raws[i]);
  }
}
