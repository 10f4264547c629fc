/** `prxreloc2.py`: the bit-packed, stateful Type-B (PT_PRXRELOC2) relocation decoder. */
module TypeBDecoder {
  import opened Prelude
  import opened Bits
  import opened ByteStrings
  import opened ElfModel
  import opened RelocationWords

  datatype DecodeError =
    | BigEndian | BadHeaderIndex | NotTypeB | BeyondInput | Truncated | EmptyTable | WidthsExceed16
    | TableIndex | BadStateMode | BadCompactType | BadSource | BadTarget | BadOffsetMode
    | OffsetOutsideSource | BadLowHalfMode | TooMany

  // ---- The bounded reader ----

  function ReadLE(data: Bytes, end: int, pos: int, size: nat): (r: Result<nat, DecodeError>)
    requires 0 <= pos <= end <= |data|
    ensures r.Ok? ==> pos + size <= end
  {
    if pos + size > end then Err(Truncated) else Ok(LE(data[pos..pos + size]))
  }

  /** A table's first byte is its size, counted in its own entries. */
  function ReadTable(data: Bytes, end: int, pos: int): (r: Result<Bytes, DecodeError>)
    requires 0 <= pos <= end <= |data|
    ensures r.Ok? ==> |r.value| >= 1 && pos + |r.value| <= end
  {
    if pos + 1 > end then Err(Truncated)
    else if data[pos] < 1 then Err(EmptyTable)
    else if pos + data[pos] > end then Err(Truncated)
    else Ok(data[pos..pos + data[pos]])
  }

  class StreamReader {
    const data: Bytes
    const end: int
    var pos: int

    ghost predicate Valid()
      reads this
    {
      0 <= pos <= end <= |data|
    }

    constructor (data: Bytes, start: int, size: int)
      requires 0 <= start && 0 <= size && start + size <= |data|
      ensures Valid() && this.data == data && end == start + size && pos == start
    {
      this.data := data;
      this.end := start + size;
      this.pos := start;
    }

    method Read(size: nat) returns (r: Result<nat, DecodeError>)
      requires Valid()
      modifies this
      ensures Valid() && r == ReadLE(data, end, old(pos), size)
      ensures pos == if r.Ok? then old(pos) + size else old(pos)
    {
      if pos + size > end {
        return Err(Truncated);
      }
      r := Ok(LE(data[pos..pos + size]));
      pos := pos + size;
    }

    method ReadSizedTable() returns (r: Result<Bytes, DecodeError>)
      requires Valid()
      modifies this
      ensures Valid() && r == ReadTable(data, end, old(pos))
      ensures pos == if r.Ok? then old(pos) + |r.value| else old(pos)
    {
      if pos + 1 > end {
        return Err(Truncated);
      }
      var size := data[pos];
      if size < 1 {
        return Err(EmptyTable);
      }
      if pos + size > end {
        return Err(Truncated);
      }
      r := Ok(data[pos..pos + size]);
      pos := pos + size;
    }
  }

  // ---- Header ----

  /** Field widths and lookup tables of one stream. */
  datatype Format = Format(flagBits: nat, segBits: nat, typeBits: nat, flagTable: Bytes, typeTable: Bytes)
  {
    function TypeShift(): nat {
      flagBits + segBits
    }

    function PayloadShift(): nat {
      flagBits + segBits + typeBits
    }
  }

  function SegBitsFrom(k: nat, index: nat): nat
    decreases if Pow2(k) < index then index - Pow2(k) else 0
  {
    if Pow2(k) < index then SegBitsFrom(k + 1, index) else k
  }

  /** The least width, at least one bit, whose power of two reaches `index`. */
  method SegBits(index: nat) returns (bits: nat)
    ensures bits == SegBitsFrom(1, index)
    ensures bits >= 1 && index <= Pow2(bits) && (bits > 1 ==> Pow2(bits - 1) < index)
  {
    bits := 1;
    while Pow2(bits) < index
      invariant bits >= 1 && (bits > 1 ==> Pow2(bits - 1) < index)
      invariant SegBitsFrom(bits, index) == SegBitsFrom(1, index)
      decreases index - Pow2(bits)
    {
      bits := bits + 1;
    }
  }

  /** Header bytes and both tables; returns the format and the position of the first command. */
  function ReadFormat(data: Bytes, end: int, start: int, index: nat): (r: Result<(Format, int), DecodeError>)
    requires 0 <= start <= end <= |data|
    ensures r.Ok? ==> start + 6 <= r.value.1 <= end && r.value.0.PayloadShift() <= 16
  {
    if start + 4 > end then Err(Truncated)
    else
      var flagBits, typeBits, segBits := data[start + 2], data[start + 3], SegBitsFrom(1, index);
      if flagBits + segBits + typeBits > 16 then Err(WidthsExceed16)
      else
        var flagTable :- ReadTable(data, end, start + 4);
        var typeTable :- ReadTable(data, end, start + 4 + |flagTable|);
        Ok((Format(flagBits, segBits, typeBits, flagTable, typeTable), start + 4 + |flagTable| + |typeTable|))
  }

  // ---- Commands ----

  function Lookup(table: Bytes, index: int): Result<Byte, DecodeError> {
    if 0 <= index < |table| then Ok(table[index]) else Err(TableIndex)
  }

  /** The normalized relocation type of a compact type code. */
  function CompactType(t: int): Option<nat> {
    match t
    case 0 => Some(0)
    case 1 => Some(1)
    case 2 => Some(2)
    case 3 => Some(4)
    case 4 => Some(5)
    case 5 => Some(6)
    case 6 => Some(14)
    case 7 => Some(15)
    case _ => None
  }

  function SignedCompactDelta(command: int, shift: nat): int {
    Shr(if command >= 0x8000 then command - 0x1_0000 else command, shift)
  }

  function SignedU16(value: int): int {
    if value >= 0x8000 then value - 0x1_0000 else value
  }

  predicate IsLoad(headers: seq<ProgramHeader>, index: int) {
    0 <= index < |headers| && headers[index].ptype == 1
  }

  /** The decoder's carried state. */
  datatype Carry = Carry(pos: int, source: nat, base: int, relocs: seq<Relocation>)

  /** The flag's offset mode `(flag & 0x06) >> 1` and low-half mode `(flag & 0x38) >> 3`. */
  function OffsetMode(flag: int): int {
    flag / 2 % 4
  }

  function LowHalfMode(flag: int): int {
    flag / 8 % 8
  }

  /** The offset a relocation command selects and the position after its offset bytes. */
  function ReadOffset(data: Bytes, end: int, pos: int, command: int, shift: nat, flag: int, base: int)
    : (r: Result<(int, int), DecodeError>)
    requires 0 <= pos <= end <= |data|
    ensures r.Ok? ==> pos <= r.value.1 <= end
  {
    if OffsetMode(flag) == 0 then Ok((base + SignedCompactDelta(command, shift), pos))
    else if OffsetMode(flag) == 1 then
      var low :- ReadLE(data, end, pos, 2);
      Ok((base + SignedCompactDelta(command, shift) * 0x1_0000 + low, pos + 2))
    else if OffsetMode(flag) == 2 then
      var offset :- ReadLE(data, end, pos, 4);
      Ok((offset, pos + 4))
    else Err(BadOffsetMode)
  }

  function ReadAddend(data: Bytes, end: int, pos: int, flag: int): (r: Result<(Option<int>, int), DecodeError>)
    requires 0 <= pos <= end <= |data|
    ensures r.Ok? ==> pos <= r.value.1 <= end
  {
    if LowHalfMode(flag) == 0 then Ok((Some(0), pos))
    else if LowHalfMode(flag) == 2 then
      var low :- ReadLE(data, end, pos, 2);
      Ok((Some(SignedU16(low)), pos + 2))
    else if LowHalfMode(flag) == 1 then Ok((None, pos))
    else Err(BadLowHalfMode)
  }

  /** `info` packs type, source and target by OR-ing shifted indices. */
  function PackInfo(t: nat, source: nat, target: nat): nat {
    Or(Or(t, Shl(source, 8)), Shl(target, 16))
  }

  function MakeRelocation(t: nat, source: nat, target: nat, offset: int, stream: int, addend: Option<int>, flag: int)
    : Relocation
  {
    Relocation(offset, PackInfo(t, source, target), t, FromProgramHeaderRel2,
               Some(source), Some(target), Some(stream), addend, Some(flag))
  }

  const MAX_DECODED: nat := 1_000_000

  function StateCommand(data: Bytes, end: int, f: Format, c: Carry, command: int, flag: int, segment: nat)
    : (r: Result<Carry, DecodeError>)
    requires 0 <= c.pos && c.pos + 2 <= end <= |data|
    ensures r.Ok? ==> c.pos + 2 <= r.value.pos <= end
  {
    if OffsetMode(flag) == 0 then
      Ok(c.(pos := c.pos + 2, source := segment, base := Shr(command, f.TypeShift())))
    else if OffsetMode(flag) == 2 then
      var base :- ReadLE(data, end, c.pos + 2, 4);
      Ok(c.(pos := c.pos + 6, source := segment, base := base))
    else Err(BadStateMode)
  }

  function RelocationCommand(data: Bytes, end: int, start: int, headers: seq<ProgramHeader>, f: Format, c: Carry,
                             command: int, flag: int, compactType: int, target: nat)
    : (r: Result<Carry, DecodeError>)
    requires 0 <= c.pos && c.pos + 2 <= end <= |data|
    ensures r.Ok? ==> c.pos + 2 <= r.value.pos <= end
  {
    if CompactType(compactType).None? then Err(BadCompactType)
    else if !IsLoad(headers, c.source) then Err(BadSource)
    else if !IsLoad(headers, target) then Err(BadTarget)
    else
      var offset :- ReadOffset(data, end, c.pos + 2, command, f.PayloadShift(), flag, c.base);
      if offset.0 < 0 || offset.0 + 4 > headers[c.source].memsz then Err(OffsetOutsideSource)
      else
        var addend :- ReadAddend(data, end, offset.1, flag);
        var r := MakeRelocation(CompactType(compactType).value, c.source, target, offset.0, c.pos - start,
                                addend.0, flag);
        if |c.relocs| + 1 > MAX_DECODED then Err(TooMany)
        else Ok(Carry(addend.1, c.source, offset.0, c.relocs + [r]))
  }

  function Step(data: Bytes, end: int, start: int, headers: seq<ProgramHeader>, f: Format, c: Carry)
    : (r: Result<Carry, DecodeError>)
    requires 0 <= c.pos <= end <= |data|
    ensures r.Ok? ==> c.pos + 2 <= r.value.pos <= end
  {
    var command :- ReadLE(data, end, c.pos, 2);
    var segment := And(Shr(command, f.flagBits), Mask(f.segBits));
    var flag :- Lookup(f.flagTable, And(command, Mask(f.flagBits)));
    var compactType :- Lookup(f.typeTable, And(Shr(command, f.TypeShift()), Mask(f.typeBits)));
    if flag % 2 == 0 then StateCommand(data, end, f, c, command, flag, segment)
    else RelocationCommand(data, end, start, headers, f, c, command, flag, compactType, segment)
  }

  function DecodeFrom(data: Bytes, end: int, start: int, headers: seq<ProgramHeader>, f: Format, c: Carry)
    : Result<seq<Relocation>, DecodeError>
    requires 0 <= c.pos <= end <= |data|
    decreases end - c.pos
  {
    if c.pos >= end then Ok(c.relocs)
    else
      var next :- Step(data, end, start, headers, f, c);
      DecodeFrom(data, end, start, headers, f, next)
  }

  function Decode(data: Bytes, elf: ElfImage, index: int): Result<seq<Relocation>, DecodeError> {
    if !elf.littleEndian then Err(BigEndian)
    else if !(0 <= index < |elf.programHeaders|) then Err(BadHeaderIndex)
    else
      var segment := elf.programHeaders[index];
      if segment.ptype != 0x7000_00A1 then Err(NotTypeB)
      else if segment.offset < 0 || segment.filesz < 0 || segment.offset + segment.filesz > |data| then Err(BeyondInput)
      else
        var end := segment.offset + segment.filesz;
        var format :- ReadFormat(data, end, segment.offset, index);
        DecodeFrom(data, end, segment.offset, elf.programHeaders, format.0, Carry(format.1, 0, 0, []))
  }

  // ---- The decoding loop ----

  method DecodePrxreloc2(data: Bytes, elf: ElfImage, index: int) returns (r: Result<seq<Relocation>, DecodeError>)
    ensures r == Decode(data, elf, index)
  {
    if !elf.littleEndian {
      return Err(BigEndian);
    }
    if index < 0 || index >= |elf.programHeaders| {
      return Err(BadHeaderIndex);
    }
    var segment := elf.programHeaders[index];
    if segment.ptype != 0x7000_00A1 {
      return Err(NotTypeB);
    }
    if segment.offset < 0 || segment.filesz < 0 || segment.offset + segment.filesz > |data| {
      return Err(BeyondInput);
    }
    var reader := new StreamReader(data, segment.offset, segment.filesz);
    var format := ParseFormat(reader, index);
    if format.Err? {
      return Err(format.error);
    }
    r := DecodeCommands(reader, segment.offset, elf.programHeaders, format.value);
  }

  method ParseFormat(reader: StreamReader, index: nat) returns (r: Result<Format, DecodeError>)
    requires reader.Valid()
    modifies reader
    ensures reader.Valid()
    ensures var spec := ReadFormat(reader.data, reader.end, old(reader.pos), index);
            if spec.Err? then r == Err(spec.error) else r == Ok(spec.value.0) && reader.pos == spec.value.1
  {
    if reader.pos + 4 > reader.end {
      return Err(Truncated);
    }
    ghost var start := reader.pos;
    reader.pos := reader.pos + 2;
    var flagBits := reader.data[reader.pos];
    var typeBits := reader.data[reader.pos + 1];
    reader.pos := reader.pos + 2;
    var segBits := SegBits(index);
    if flagBits + segBits + typeBits > 16 {
      return Err(WidthsExceed16);
    }
    var flagTable := reader.ReadSizedTable();
    if flagTable.Err? {
      return Err(flagTable.error);
    }
    var typeTable := reader.ReadSizedTable();
    if typeTable.Err? {
      return Err(typeTable.error);
    }
    r := Ok(Format(flagBits, segBits, typeBits, flagTable.value, typeTable.value));
  }

  method DecodeCommands(reader: StreamReader, start: int, headers: seq<ProgramHeader>, f: Format)
    returns (r: Result<seq<Relocation>, DecodeError>)
    requires reader.Valid()
    modifies reader
    ensures r == DecodeFrom(reader.data, reader.end, start, headers, f, Carry(old(reader.pos), 0, 0, []))
  {
    hide Step;
    var source: nat, base, relocs := 0, 0, [];
    ghost var all := DecodeFrom(reader.data, reader.end, start, headers, f, Carry(reader.pos, 0, 0, []));
    while reader.pos < reader.end
      invariant reader.Valid()
      invariant DecodeFrom(reader.data, reader.end, start, headers, f, Carry(reader.pos, source, base, relocs)) == all
      decreases reader.end - reader.pos
    {
      var next := DecodeCommand(reader, start, headers, f, source, base, relocs);
      if next.Err? {
        return Err(next.error);
      }
      source, base, relocs := next.value.source, next.value.base, next.value.relocs;
    }
    r := Ok(relocs);
  }

  method DecodeCommand(reader: StreamReader, start: int, headers: seq<ProgramHeader>, f: Format,
                       source: nat, base: int, relocs: seq<Relocation>)
    returns (r: Result<Carry, DecodeError>)
    requires reader.Valid()
    modifies reader
    ensures reader.Valid()
    ensures r == Step(reader.data, reader.end, start, headers, f, Carry(old(reader.pos), source, base, relocs))
    ensures r.Ok? ==> reader.pos == r.value.pos
  {
    var stream := reader.pos - start;
    var word := reader.Read(2);
    if word.Err? {
      return Err(word.error);
    }
    var command := word.value;
    var segment := And(Shr(command, f.flagBits), Mask(f.segBits));
    var flagEntry := Lookup(f.flagTable, And(command, Mask(f.flagBits)));
    if flagEntry.Err? {
      return Err(flagEntry.error);
    }
    var typeEntry := Lookup(f.typeTable, And(Shr(command, f.TypeShift()), Mask(f.typeBits)));
    if typeEntry.Err? {
      return Err(typeEntry.error);
    }
    var flag := flagEntry.value;
    if flag % 2 == 0 {
      r := DecodeState(reader, f, command, flag, segment, source, base, relocs);
    } else {
      r := DecodeRelocation(reader, stream, headers, f, command, flag, typeEntry.value, segment, source, base, relocs);
    }
  }

  method DecodeState(reader: StreamReader, f: Format, command: int, flag: int, segment: nat,
                     ghost source: nat, base: int, relocs: seq<Relocation>)
    returns (r: Result<Carry, DecodeError>)
    requires reader.Valid() && reader.pos >= 2
    modifies reader
    ensures reader.Valid() && (r.Ok? ==> reader.pos == r.value.pos)
    ensures r == StateCommand(reader.data, reader.end, f, Carry(old(reader.pos) - 2, source, base, relocs),
                              command, flag, segment)
  {
    if OffsetMode(flag) == 0 {
      return Ok(Carry(reader.pos, segment, Shr(command, f.TypeShift()), relocs));
    } else if OffsetMode(flag) == 2 {
      var wide := reader.Read(4);
      if wide.Err? {
        return Err(wide.error);
      }
      return Ok(Carry(reader.pos, segment, wide.value, relocs));
    } else {
      return Err(BadStateMode);
    }
  }

  method DecodeRelocation(reader: StreamReader, stream: int, headers: seq<ProgramHeader>, f: Format, command: int,
                          flag: int, compactType: int, target: nat, source: nat, base0: int, relocs: seq<Relocation>)
    returns (r: Result<Carry, DecodeError>)
    requires reader.Valid() && reader.pos >= 2
    modifies reader
    ensures reader.Valid() && (r.Ok? ==> reader.pos == r.value.pos)
    ensures r == RelocationCommand(reader.data, reader.end, old(reader.pos) - 2 - stream, headers, f,
                                   Carry(old(reader.pos) - 2, source, base0, relocs), command, flag, compactType, target)
  {
    hide LE, SignedCompactDelta;
    if CompactType(compactType).None? {
      return Err(BadCompactType);
    }
    if !IsLoad(headers, source) {
      return Err(BadSource);
    }
    if !IsLoad(headers, target) {
      return Err(BadTarget);
    }
    var base := base0;
    if OffsetMode(flag) == 0 {
      base := base + SignedCompactDelta(command, f.PayloadShift());
    } else if OffsetMode(flag) == 1 {
      var low := reader.Read(2);
      if low.Err? {
        return Err(low.error);
      }
      base := base + SignedCompactDelta(command, f.PayloadShift()) * 0x1_0000 + low.value;
    } else if OffsetMode(flag) == 2 {
      var wide := reader.Read(4);
      if wide.Err? {
        return Err(wide.error);
      }
      base := wide.value;
    } else {
      return Err(BadOffsetMode);
    }
    if base < 0 || base + 4 > headers[source].memsz {
      return Err(OffsetOutsideSource);
    }
    var addend: Option<int>;
    if LowHalfMode(flag) == 0 {
      addend := Some(0);
    } else if LowHalfMode(flag) == 2 {
      var low := reader.Read(2);
      if low.Err? {
        return Err(low.error);
      }
      addend := Some(SignedU16(low.value));
    } else if LowHalfMode(flag) == 1 {
      addend := None;
    } else {
      return Err(BadLowHalfMode);
    }
    var reloc := MakeRelocation(CompactType(compactType).value, source, target, base, stream, addend, flag);
    if |relocs| + 1 > MAX_DECODED {
      return Err(TooMany);
    }
    r := Ok(Carry(reader.pos, source, base, relocs + [reloc]));
  }

  // ---- What every successful decode satisfies ----

  /** A decoded relocation: in-range loads and its 4-byte word inside the source `memsz`.  With at
      most 256 headers the packed bytes of `info` repeat the explicit indices. */
  ghost predicate WellPlaced(headers: seq<ProgramHeader>, r: Relocation) {
    && r.sourceSegment.Some? && r.targetSegment.Some? && r.source == FromProgramHeaderRel2
    && IsLoad(headers, r.sourceSegment.value) && IsLoad(headers, r.targetSegment.value)
    && 0 <= r.offset && r.offset + 4 <= headers[r.sourceSegment.value].memsz
    && SupportedType(r.rtype)
    && (|headers| <= 256 ==> && r.info / 0x100 % 0x100 == r.sourceSegment.value
                             && r.info / 0x1_0000 % 0x100 == r.targetSegment.value
                             && r.info % 0x100 == r.rtype)
  }

  function StreamOf(r: Relocation): int {
    if r.streamOffset.Some? then r.streamOffset.value else -1
  }

  /** What was emitted from the commands between stream offsets `first` and `limit`. */
  ghost predicate Emitted(headers: seq<ProgramHeader>, relocs: seq<Relocation>, first: int, limit: int) {
    && (forall i :: 0 <= i < |relocs| ==> WellPlaced(headers, relocs[i]))
    && (forall i :: 0 <= i < |relocs| ==> first <= StreamOf(relocs[i]) <= limit - 2)
    && (forall i, j :: 0 <= i < j < |relocs| ==> StreamOf(relocs[i]) + 2 <= StreamOf(relocs[j]))
    && first + 2 * |relocs| <= limit
    && |relocs| <= MAX_DECODED
  }

  lemma PackedIndices(t: nat, source: nat, target: nat)
    requires t < 0x100 && source < 0x100 && target < 0x100
    ensures var info := PackInfo(t, source, target);
            info % 0x100 == t && info / 0x100 % 0x100 == source && info / 0x1_0000 % 0x100 == target
  {
    hide Or, Shl;
    Pow2Values();
    ShlIsTimes(source, 8);
    ShlIsTimes(target, 16);
    OrJoins(t, source, 8);
    OrJoins(t + source * 0x100, target, 16);
    ThreeDigits(t, source, target);
  }

  lemma ThreeDigits(a: int, b: int, c: int)
    requires 0 <= a < 0x100 && 0 <= b < 0x100 && 0 <= c < 0x100
    ensures var n := a + b * 0x100 + c * 0x1_0000;
            n % 0x100 == a && n / 0x100 % 0x100 == b && n / 0x1_0000 % 0x100 == c
  {
    var n := a + b * 0x100 + c * 0x1_0000;
    assert n / 0x100 == b + c * 0x100;
    assert n / 0x1_0000 == c;
  }

  lemma MadeWellPlaced(headers: seq<ProgramHeader>, compactType: int, source: nat, target: nat,
                                          offset: int, stream: int, addend: Option<int>, flag: int)
    requires CompactType(compactType).Some? && IsLoad(headers, source) && IsLoad(headers, target)
    requires 0 <= offset && offset + 4 <= headers[source].memsz
    ensures WellPlaced(headers, MakeRelocation(CompactType(compactType).value, source, target, offset, stream, addend, flag))
  {
    hide PackInfo;
    if |headers| <= 256 {
      PackedIndices(CompactType(compactType).value, source, target);
    }
  }

  lemma EmittedAppends(headers: seq<ProgramHeader>, relocs: seq<Relocation>, r: Relocation,
                                          first: int, limit: int, limit': int)
    requires Emitted(headers, relocs, first, limit) && first <= limit && limit + 2 <= limit'
    requires WellPlaced(headers, r) && StreamOf(r) == limit && |relocs| < MAX_DECODED
    ensures Emitted(headers, relocs + [r], first, limit')
  {
    hide WellPlaced, StreamOf;
  }

  lemma StepEmits(
    data: Bytes, end: int, start: int, headers: seq<ProgramHeader>, f: Format, c: Carry, first: int)
    requires 0 <= start <= c.pos <= end <= |data| && first <= c.pos - start
    requires Emitted(headers, c.relocs, first, c.pos - start)
    requires Step(data, end, start, headers, f, c).Ok?
    ensures var next := Step(data, end, start, headers, f, c).value;
            Emitted(headers, next.relocs, first, next.pos - start)
  {
    hide LE, PackInfo, SignedCompactDelta, WellPlaced, And, Shr;
    var next := Step(data, end, start, headers, f, c).value;
    if next.relocs != c.relocs {
      var r := next.relocs[|c.relocs|];
      assert next.relocs == c.relocs + [r];
      var command := LE(data[c.pos..c.pos + 2]);
      var target := And(Shr(command, f.flagBits), Mask(f.segBits));
      var compactType := Lookup(f.typeTable, And(Shr(command, f.TypeShift()), Mask(f.typeBits))).value;
      MadeWellPlaced(headers, compactType, c.source, target, r.offset, c.pos - start, r.addend, r.encodingFlags.value);
      EmittedAppends(headers, c.relocs, r, first, c.pos - start, next.pos - start);
    }
  }

  lemma {:induction false} CommandsEmit(
    data: Bytes, end: int, start: int, headers: seq<ProgramHeader>, f: Format, c: Carry, first: int)
    requires 0 <= start <= c.pos <= end <= |data| && first <= c.pos - start
    requires Emitted(headers, c.relocs, first, c.pos - start)
    requires DecodeFrom(data, end, start, headers, f, c).Ok?
    ensures Emitted(headers, DecodeFrom(data, end, start, headers, f, c).value, first, end - start)
    decreases end - c.pos
  {
    hide Emitted, Step;
    if c.pos < end {
      StepEmits(data, end, start, headers, f, c, first);
      CommandsEmit(data, end, start, headers, f, Step(data, end, start, headers, f, c).value, first);
    }
  }

  /** Every successful decode: well-placed relocations, stream offsets that strictly increase from the
      first command byte after both tables, at most one relocation per two command bytes, at most a
      million. */
  lemma DecodeEmits(data: Bytes, elf: ElfImage, index: int)
    requires Decode(data, elf, index).Ok?
    ensures 0 <= index < |elf.programHeaders|
    ensures var s := elf.programHeaders[index];
            && 0 <= s.offset && 0 <= s.filesz && s.offset + s.filesz <= |data|
            && var format := ReadFormat(data, s.offset + s.filesz, s.offset, index);
               && format.Ok?
               && Emitted(elf.programHeaders, Decode(data, elf, index).value,
                          4 + |format.value.0.flagTable| + |format.value.0.typeTable|, s.filesz)
  {
    hide Emitted, Step, ReadFormat;
    var segment := elf.programHeaders[index];
    var end := segment.offset + segment.filesz;
    var format := ReadFormat(data, end, segment.offset, index).value;
    var first := 4 + |format.0.flagTable| + |format.0.typeTable|;
    FormatEnds(data, end, segment.offset, index);
    NothingEmitted(elf.programHeaders, first);
    CommandsEmit(data, end, segment.offset, elf.programHeaders, format.0, Carry(format.1, 0, 0, []), first);
  }

  lemma FormatEnds(data: Bytes, end: int, start: int, index: nat)
    requires 0 <= start <= end <= |data| && ReadFormat(data, end, start, index).Ok?
    ensures var (f, pos) := ReadFormat(data, end, start, index).value;
            pos == start + 4 + |f.flagTable| + |f.typeTable|
  {
    hide SegBitsFrom;
  }

  lemma NothingEmitted(headers: seq<ProgramHeader>, first: nat)
    ensures Emitted(headers, [], first, first)
  {
  }
}
