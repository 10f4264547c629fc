/** The ELF records of `model.py` and the address lookup over them. */
module ElfModel {
  import opened Prelude
  import opened ByteStrings

  datatype ElfHeader = ElfHeader(
    fileType: int, machine: int, version: int, entry: int, phoff: int, shoff: int, flags: int,
    ehsize: int, phentsize: int, phnum: int, shentsize: int, shnum: int, shstrndx: int)

  datatype ProgramHeader = ProgramHeader(
    index: int, ptype: int, offset: int, vaddr: int, paddr: int,
    filesz: int, memsz: int, flags: int, align: int)
  {
    /** A non-empty PT_LOAD segment. */
    predicate Loaded() {
      ptype == 1 && memsz > 0
    }

    predicate FileBacks(address: int) {
      ptype == 1 && vaddr <= address < vaddr + filesz
    }
  }

  datatype SectionKind = Bss | Executable | Writable | ReadOnly | NotLoaded

  datatype Section = Section(
    index: int, name: Bytes, stype: int, flags: int, addr: int, offset: int, size: int,
    link: int, info: int, addralign: int, entsize: int, kind: SectionKind)
  {
    /** A non-empty section with SHF_ALLOC (0x2) set. */
    predicate Allocated() {
      flags / 2 % 2 == 1 && size > 0
    }

    /** Section type 8 is SHT_NOBITS: it occupies no file bytes. */
    predicate FileBacks(address: int) {
      stype != 8 && addr <= address < addr + size
    }
  }

  /** `key=lambda section: (section.addr, section.index)`. */
  predicate AddressOrder(a: Section, b: Section) {
    a.addr < b.addr || (a.addr == b.addr && a.index <= b.index)
  }

  datatype ElfImage = ElfImage(
    header: ElfHeader, littleEndian: bool,
    programHeaders: seq<ProgramHeader>, sections: seq<Section>, rawData: Bytes)
  {
    function VaddrToOffset(address: int): Option<int> {
      match SegmentOffset(programHeaders, address)
      case Some(offset) => Some(offset)
      case None => SectionOffset(sections, address)
    }
  }

  function SegmentOffset(headers: seq<ProgramHeader>, address: int): Option<int> {
    if headers == [] then None
    else if headers[0].FileBacks(address) then Some(headers[0].offset + (address - headers[0].vaddr))
    else SegmentOffset(headers[1..], address)
  }

  function SectionOffset(sections: seq<Section>, address: int): Option<int> {
    if sections == [] then None
    else if sections[0].FileBacks(address) then Some(sections[0].offset + (address - sections[0].addr))
    else SectionOffset(sections[1..], address)
  }

  // ---- Loads ----

  function LoadedSegments(headers: seq<ProgramHeader>): (loads: seq<ProgramHeader>)
    ensures forall s :: s in loads <==> s in headers && s.Loaded()
  {
    if headers == [] then []
    else (if headers[0].Loaded() then [headers[0]] else []) + LoadedSegments(headers[1..])
  }

  function LowestVaddr(loads: seq<ProgramHeader>): (base: int)
    requires loads != []
    ensures forall s :: s in loads ==> base <= s.vaddr
    ensures exists s :: s in loads && s.vaddr == base
  {
    if |loads| == 1 then loads[0].vaddr else Min(loads[0].vaddr, LowestVaddr(loads[1..]))
  }

  datatype RelocationSource = FromSection | FromProgramHeader | FromProgramHeaderRel2

  datatype Relocation = Relocation(
    offset: int, info: int, rtype: int, source: RelocationSource,
    sourceSegment: Option<int>, targetSegment: Option<int>,
    streamOffset: Option<int>, addend: Option<int>, encodingFlags: Option<int>)
}
