/** `load_view.py`: moving headers, sections and module metadata by one address delta. */
module Rebase {
  import opened Prelude
  import opened ByteStrings
  import opened ElfModel
  import opened LoadView

  // ---- Records ----

  datatype NidEntry = NidEntry(nid: int, address: int, nidAddress: int)

  datatype Library = Library(address: int, functions: seq<NidEntry>, variables: seq<NidEntry>)

  datatype ModuleInfo = ModuleInfo(
    gpValue: int, exportsStart: int, exportsEnd: int, importsStart: int, importsEnd: int, address: int)

  datatype Metadata = Metadata(moduleInfo: Option<ModuleInfo>, imports: seq<Library>, exports: seq<Library>)

  // ---- Headers and sections ----

  function ShiftHeader(s: ProgramHeader, delta: int): ProgramHeader {
    if s.ptype == 1 then s.(vaddr := s.vaddr + delta, paddr := s.paddr + delta) else s
  }

  function ShiftSection(s: Section, delta: int): Section {
    if s.Allocated() then s.(addr := s.addr + delta) else s
  }

  function ShiftHeaders(headers: seq<ProgramHeader>, delta: int): seq<ProgramHeader> {
    seq(|headers|, i requires 0 <= i < |headers| => ShiftHeader(headers[i], delta))
  }

  function ShiftSections(sections: seq<Section>, delta: int): seq<Section> {
    seq(|sections|, i requires 0 <= i < |sections| => ShiftSection(sections[i], delta))
  }

  predicate Contains(s: ProgramHeader, address: int) {
    s.Loaded() && s.vaddr <= address < s.vaddr + s.memsz
  }

  predicate ContainsEnd(s: ProgramHeader, address: int) {
    s.Loaded() && s.vaddr <= address <= s.vaddr + s.memsz
  }

  predicate InLoaded(headers: seq<ProgramHeader>, address: int) {
    exists i :: 0 <= i < |headers| && Contains(headers[i], address)
  }

  predicate AtLoadedEnd(headers: seq<ProgramHeader>, address: int) {
    exists i :: 0 <= i < |headers| && ContainsEnd(headers[i], address)
  }

  function RebaseElf(elf: ElfImage, data: Bytes, delta: int): ElfImage {
    var entry := if InLoaded(elf.programHeaders, elf.header.entry) then elf.header.entry + delta else elf.header.entry;
    ElfImage(elf.header.(entry := entry), elf.littleEndian,
             ShiftHeaders(elf.programHeaders, delta), ShiftSections(elf.sections, delta), data)
  }

  /** What `_validate_rebased_layout` accepts: shifted loads and sections stay inside 2^32. */
  predicate LayoutFits(elf: ElfImage, delta: int) {
    && (forall i :: 0 <= i < |elf.programHeaders| && elf.programHeaders[i].Loaded() ==>
          var s := elf.programHeaders[i];
          && 0 <= s.vaddr + delta && s.vaddr + delta + s.memsz <= 0x1_0000_0000
          && 0 <= s.paddr + delta < 0x1_0000_0000)
    && (forall i :: 0 <= i < |elf.sections| && elf.sections[i].Allocated() ==>
          var s := elf.sections[i];
          0 <= s.addr + delta < 0x1_0000_0000 && s.addr + delta + s.size <= 0x1_0000_0000)
  }

  // ---- Metadata addresses ----

  function RequireU32(value: int): Result<int, LoadError> {
    if 0 <= value < 0x1_0000_0000 then Ok(value) else Err(AddressOutside32Bit)
  }

  function RebaseAddress(elf: ElfImage, address: int, delta: int): Result<int, LoadError> {
    if InLoaded(elf.programHeaders, address) then RequireU32(address + delta) else Ok(address)
  }

  function RebaseNonzero(elf: ElfImage, address: int, delta: int): Result<int, LoadError> {
    if address == 0 then Ok(0) else RebaseAddress(elf, address, delta)
  }

  function RebaseRangeEnd(elf: ElfImage, address: int, delta: int): Result<int, LoadError> {
    if address == 0 then Ok(0)
    else if AtLoadedEnd(elf.programHeaders, address) then RequireU32(address + delta)
    else Ok(address)
  }

  function RebaseNids(elf: ElfImage, nids: seq<NidEntry>, delta: int): Result<seq<NidEntry>, LoadError> {
    if nids == [] then Ok([])
    else
      var address :- RebaseNonzero(elf, nids[0].address, delta);
      var nidAddress :- RebaseNonzero(elf, nids[0].nidAddress, delta);
      var rest :- RebaseNids(elf, nids[1..], delta);
      Ok([nids[0].(address := address, nidAddress := nidAddress)] + rest)
  }

  function RebaseLibraries(elf: ElfImage, libraries: seq<Library>, delta: int): Result<seq<Library>, LoadError> {
    if libraries == [] then Ok([])
    else
      var address :- RebaseAddress(elf, libraries[0].address, delta);
      var functions :- RebaseNids(elf, libraries[0].functions, delta);
      var variables :- RebaseNids(elf, libraries[0].variables, delta);
      var rest :- RebaseLibraries(elf, libraries[1..], delta);
      Ok([Library(address, functions, variables)] + rest)
  }

  function RebaseModuleInfo(elf: ElfImage, info: ModuleInfo, delta: int): Result<ModuleInfo, LoadError> {
    var gp :- RebaseNonzero(elf, info.gpValue, delta);
    var exportsStart :- RebaseNonzero(elf, info.exportsStart, delta);
    var exportsEnd :- RebaseRangeEnd(elf, info.exportsEnd, delta);
    var importsStart :- RebaseNonzero(elf, info.importsStart, delta);
    var importsEnd :- RebaseRangeEnd(elf, info.importsEnd, delta);
    var address :- RebaseAddress(elf, info.address, delta);
    Ok(ModuleInfo(gp, exportsStart, exportsEnd, importsStart, importsEnd, address))
  }

  function RebaseMetadata(elf: ElfImage, m: Metadata, delta: int): Result<Metadata, LoadError> {
    var info :- if m.moduleInfo.None? then Ok(None)
                else var i :- RebaseModuleInfo(elf, m.moduleInfo.value, delta); Ok(Some(i));
    var imports :- RebaseLibraries(elf, m.imports, delta);
    var exports :- RebaseLibraries(elf, m.exports, delta);
    Ok(Metadata(info, imports, exports))
  }

  // ---- Rebasing commutes with address lookup ----

  lemma {:induction false} SegmentLookupShifts(headers: seq<ProgramHeader>, address: int, delta: int)
    ensures SegmentOffset(ShiftHeaders(headers, delta), address + delta) == SegmentOffset(headers, address)
  {
    if headers != [] {
      assert ShiftHeaders(headers, delta)[1..] == ShiftHeaders(headers[1..], delta);
      SegmentLookupShifts(headers[1..], address, delta);
    }
  }

  /** Every section that backs file bytes is allocated. */
  ghost predicate FileSectionsAllocated(sections: seq<Section>) {
    forall s :: s in sections && s.stype != 8 && s.size > 0 ==> s.Allocated()
  }

  lemma {:induction false} SectionLookupShifts(sections: seq<Section>, address: int, delta: int)
    requires FileSectionsAllocated(sections)
    ensures SectionOffset(ShiftSections(sections, delta), address + delta) == SectionOffset(sections, address)
  {
    if sections != [] {
      assert sections[0] in sections;
      assert ShiftSections(sections, delta)[1..] == ShiftSections(sections[1..], delta);
      SectionLookupShifts(sections[1..], address, delta);
    }
  }

  /** Any address a file-backed PT_LOAD range holds finds the same file offset in the view; with
      only allocated file sections, so does every other address, found or not. */
  lemma LookupCommutes(elf: ElfImage, data: Bytes, address: int, delta: int)
    requires (exists s :: s in elf.programHeaders && s.FileBacks(address)) || FileSectionsAllocated(elf.sections)
    ensures RebaseElf(elf, data, delta).VaddrToOffset(address + delta) == elf.VaddrToOffset(address)
  {
    SegmentFound(elf.programHeaders, address);
    SegmentLookupShifts(elf.programHeaders, address, delta);
    if SegmentOffset(elf.programHeaders, address).None? {
      SectionLookupShifts(elf.sections, address, delta);
    }
  }

  lemma {:induction false} SegmentFound(headers: seq<ProgramHeader>, address: int)
    ensures SegmentOffset(headers, address).Some? <==> exists s :: s in headers && s.FileBacks(address)
  {
    if headers != [] {
      SegmentFound(headers[1..], address);
      assert headers == [headers[0]] + headers[1..];
    }
  }

  // ---- Shifting forth and back ----

  lemma InLoadedShifts(headers: seq<ProgramHeader>, address: int, delta: int)
    ensures InLoaded(ShiftHeaders(headers, delta), address + delta) <==> InLoaded(headers, address)
  {
    var shifted := ShiftHeaders(headers, delta);
    forall i | 0 <= i < |headers|
      ensures Contains(shifted[i], address + delta) <==> Contains(headers[i], address)
    {
    }
  }

  /** A shift by `delta` and one by `-delta` restore every program header and section.  The entry
      point comes back exactly when it was inside a load, or was not moved into one by the shift. */
  lemma ShiftAndBack(elf: ElfImage, data: Bytes, delta: int)
    ensures var back := RebaseElf(RebaseElf(elf, data, delta), data, -delta);
            && back.programHeaders == elf.programHeaders
            && back.sections == elf.sections
            && (back.header == elf.header
                <==> delta == 0 || InLoaded(elf.programHeaders, elf.header.entry)
                     || !InLoaded(elf.programHeaders, elf.header.entry - delta))
  {
    var there := RebaseElf(elf, data, delta);
    var back := RebaseElf(there, data, -delta);
    assert back.programHeaders == elf.programHeaders;
    forall i | 0 <= i < |elf.sections| ensures back.sections[i] == elf.sections[i] {
      assert there.sections[i].Allocated() == elf.sections[i].Allocated();
    }
    assert back.sections == elf.sections;
    InLoadedShifts(elf.programHeaders, elf.header.entry, delta);
    InLoadedShifts(elf.programHeaders, elf.header.entry - delta, delta);
  }

  // ---- Metadata under an accepted layout ----

  /** After the layout check a metadata address never falls outside 2^32. */
  lemma {:induction false} AddressesAlwaysRebase(elf: ElfImage, address: int, delta: int)
    requires LayoutFits(elf, delta)
    ensures RebaseAddress(elf, address, delta)
         == Ok(if InLoaded(elf.programHeaders, address) then address + delta else address)
  {
  }

  /** Only a range that ends with the address space itself is refused. */
  lemma {:induction false} RangeEndRefusedIff(elf: ElfImage, address: int, delta: int)
    requires LayoutFits(elf, delta)
    ensures RebaseRangeEnd(elf, address, delta).Err?
       <==> address != 0 && AtLoadedEnd(elf.programHeaders, address) && address + delta == 0x1_0000_0000
  {
  }

  lemma {:induction false} NidsAlwaysRebase(elf: ElfImage, nids: seq<NidEntry>, delta: int)
    requires LayoutFits(elf, delta)
    ensures var r := RebaseNids(elf, nids, delta);
            && r.Ok? && |r.value| == |nids|
            && (forall i :: 0 <= i < |nids| ==>
                  && r.value[i].nid == nids[i].nid
                  && Ok(r.value[i].address) == RebaseNonzero(elf, nids[i].address, delta)
                  && Ok(r.value[i].nidAddress) == RebaseNonzero(elf, nids[i].nidAddress, delta))
  {
    if nids != [] {
      NidsAlwaysRebase(elf, nids[1..], delta);
      AddressesAlwaysRebase(elf, nids[0].address, delta);
      AddressesAlwaysRebase(elf, nids[0].nidAddress, delta);
    }
  }

  lemma {:induction false} LibrariesAlwaysRebase(elf: ElfImage, libraries: seq<Library>, delta: int)
    requires LayoutFits(elf, delta)
    ensures var r := RebaseLibraries(elf, libraries, delta);
            && r.Ok? && |r.value| == |libraries|
            && (forall i :: 0 <= i < |libraries| ==>
                  && Ok(r.value[i].address) == RebaseAddress(elf, libraries[i].address, delta)
                  && Ok(r.value[i].functions) == RebaseNids(elf, libraries[i].functions, delta)
                  && Ok(r.value[i].variables) == RebaseNids(elf, libraries[i].variables, delta))
  {
    if libraries != [] {
      LibrariesAlwaysRebase(elf, libraries[1..], delta);
      AddressesAlwaysRebase(elf, libraries[0].address, delta);
      NidsAlwaysRebase(elf, libraries[0].functions, delta);
      NidsAlwaysRebase(elf, libraries[0].variables, delta);
    }
  }

  /** A table end that is a load end and lands on the end of the address space. */
  predicate EndsAtTop(elf: ElfImage, address: int, delta: int) {
    address != 0 && AtLoadedEnd(elf.programHeaders, address) && address + delta == 0x1_0000_0000
  }

  predicate TableEndRefused(elf: ElfImage, m: Metadata, delta: int) {
    m.moduleInfo.Some?
    && (EndsAtTop(elf, m.moduleInfo.value.exportsEnd, delta) || EndsAtTop(elf, m.moduleInfo.value.importsEnd, delta))
  }

  /** After the layout check rebasing the metadata is refused exactly when a table end is. */
  lemma {:induction false} MetadataRefusedIff(elf: ElfImage, m: Metadata, delta: int)
    requires LayoutFits(elf, delta)
    ensures RebaseMetadata(elf, m, delta).Err? <==> TableEndRefused(elf, m, delta)
    ensures RebaseMetadata(elf, m, delta).Err? ==> RebaseMetadata(elf, m, delta).error == AddressOutside32Bit
  {
    hide LayoutFits, InLoaded, AtLoadedEnd, RebaseRangeEnd, RebaseAddress, RebaseLibraries;
    LibrariesAlwaysRebase(elf, m.imports, delta);
    LibrariesAlwaysRebase(elf, m.exports, delta);
    if m.moduleInfo.Some? {
      var info := m.moduleInfo.value;
      AddressesAlwaysRebase(elf, info.gpValue, delta);
      AddressesAlwaysRebase(elf, info.exportsStart, delta);
      AddressesAlwaysRebase(elf, info.importsStart, delta);
      AddressesAlwaysRebase(elf, info.address, delta);
      RangeEndRefusedIff(elf, info.exportsEnd, delta);
      RangeEndRefusedIff(elf, info.importsEnd, delta);
      RangeEndError(elf, info.exportsEnd, delta);
      RangeEndError(elf, info.importsEnd, delta);
    }
  }

  lemma {:induction false} RangeEndError(elf: ElfImage, address: int, delta: int)
    ensures var r := RebaseRangeEnd(elf, address, delta); r.Err? ==> r.error == AddressOutside32Bit
  {
    hide AtLoadedEnd;
  }

  /** A table with non-zero ends inside one load keeps its length exactly when its start is below
      some load's end; the exception is an empty table standing at the very end of a load. */
  lemma {:induction false} TableLengthKeptIff(elf: ElfImage, i: nat, start: int, end: int, delta: int)
    requires LayoutFits(elf, delta) && delta != 0 && i < |elf.programHeaders|
    requires ContainsEnd(elf.programHeaders[i], start) && ContainsEnd(elf.programHeaders[i], end)
    requires start <= end && start != 0 && end != 0
    requires RebaseRangeEnd(elf, end, delta).Ok?
    ensures RebaseRangeEnd(elf, end, delta).value - RebaseNonzero(elf, start, delta).Extract() == end - start
       <==> InLoaded(elf.programHeaders, start)
    ensures start < end ==> InLoaded(elf.programHeaders, start)
  {
    AddressesAlwaysRebase(elf, start, delta);
    if start < end {
      assert Contains(elf.programHeaders[i], start);
    }
  }

  /** The exception is real: an empty export table at the end of the only load loses its start. */
  lemma {:induction false} EmptyTableAtEndTorn(elf: ElfImage)
    requires elf.sections == []
    requires elf.programHeaders == [ProgramHeader(0, 1, 0, 0, 0, 0x80, 0x80, 7, 16)]
    ensures LayoutFits(elf, 0x1000)
    ensures RebaseNonzero(elf, 0x80, 0x1000) == Ok(0x80)
    ensures RebaseRangeEnd(elf, 0x80, 0x1000) == Ok(0x1080)
  {
    assert ContainsEnd(elf.programHeaders[0], 0x80);
  }
}
