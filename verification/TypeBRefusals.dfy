/** Why the Type-B decoder refuses a stream, by plain arithmetic on its words. */
module TypeBRefusals {
  import opened Prelude
  import opened Bits
  import opened ByteStrings
  import opened ElfModel
  import opened RelocationWords
  import opened TypeBDecoder

  /** Shifts and masks are quotients and remainders, for negative words too. */
  lemma QuotientAndRest(x: int, k: nat)
    ensures Shr(x, k) == x / Pow2(k) && And(x, Mask(k)) == x % Pow2(k)
  {
    hide And, Shr, Shl, Pow2;
    var p, q, m := Pow2(k), Shr(x, k), And(x, Mask(k));
    MaskSplits(x, k);
    ShlIsTimes(q, k);
    RemainderIs(x, q, p, m);
  }

  // ---- One command ----

  ghost predicate Loads(headers: seq<ProgramHeader>, index: int) {
    0 <= index < |headers| && headers[index].ptype == 1
  }

  /** The offset that a relocation word selects, by offset mode (0 to 2); `delta` is its signed payload. */
  ghost function Selected(data: Bytes, pos: int, mode: int, base: int, delta: int): int
    requires 0 <= pos && pos + (if mode == 1 then 4 else if mode == 2 then 6 else 2) <= |data|
  {
    if mode == 1 then base + delta * 0x1_0000 + LE(data[pos + 2..pos + 4])
    else if mode == 2 then LE(data[pos + 2..pos + 6])
    else base + delta
  }

  /** The first complaint about a relocation command with this flag and type code. */
  ghost predicate RelocationRefused(data: Bytes, end: int, headers: seq<ProgramHeader>, f: Format, c: Carry,
                                    flag: int, code: int, target: int, e: DecodeError)
    requires 0 <= c.pos && c.pos + 2 <= end <= |data|
  {
    var word := LE(data[c.pos..c.pos + 2]);
    var delta := (if word >= 0x8000 then word - 0x1_0000 else word) / Pow2(f.PayloadShift());
    var mode, low := flag / 2 % 4, flag / 8 % 8;
    var next := c.pos + (if mode == 1 then 4 else if mode == 2 then 6 else 2);
    if code > 7 then e == BadCompactType
    else if !Loads(headers, c.source) then e == BadSource
    else if !Loads(headers, target) then e == BadTarget
    else if mode == 3 then e == BadOffsetMode
    else if next > end then e == Truncated
    else
      var offset := Selected(data, c.pos, mode, c.base, delta);
      if offset < 0 || offset + 4 > headers[c.source].memsz then e == OffsetOutsideSource
      else if low == 2 && next + 2 > end then e == Truncated
      else if low > 2 then e == BadLowHalfMode
      else |c.relocs| >= 1_000_000 && e == TooMany
  }

  ghost predicate StateRefused(end: int, pos: int, flag: int, e: DecodeError) {
    var mode := flag / 2 % 4;
    if mode == 1 || mode == 3 then e == BadStateMode else mode == 2 && pos + 6 > end && e == Truncated
  }

  /** The fields of a word from the lowest: flag index, segment, type index. */
  ghost predicate CommandRefused(data: Bytes, end: int, headers: seq<ProgramHeader>, f: Format, c: Carry, e: DecodeError)
    requires 0 <= c.pos <= end <= |data|
  {
    if c.pos + 2 > end then e == Truncated
    else
      var word := LE(data[c.pos..c.pos + 2]);
      var flagIndex := word % Pow2(f.flagBits);
      var segment := word / Pow2(f.flagBits) % Pow2(f.segBits);
      var typeIndex := word / Pow2(f.flagBits + f.segBits) % Pow2(f.typeBits);
      if flagIndex >= |f.flagTable| || typeIndex >= |f.typeTable| || flagIndex < 0 || typeIndex < 0 then e == TableIndex
      else if f.flagTable[flagIndex] % 2 == 0 then StateRefused(end, c.pos, f.flagTable[flagIndex], e)
      else RelocationRefused(data, end, headers, f, c, f.flagTable[flagIndex], f.typeTable[typeIndex], segment, e)
  }

  lemma StateRefusal(data: Bytes, end: int, f: Format, c: Carry, command: int, flag: int, segment: nat, e: DecodeError)
    requires 0 <= c.pos && c.pos + 2 <= end <= |data| && flag >= 0
    ensures StateCommand(data, end, f, c, command, flag, segment) == Err(e) <==> StateRefused(end, c.pos, flag, e)
  {
    hide LE, Shr;
  }

  lemma RelocationRefusal(data: Bytes, end: int, start: int, headers: seq<ProgramHeader>, f: Format, c: Carry,
                          flag: Byte, code: Byte, target: nat, e: DecodeError)
    requires 0 <= c.pos && c.pos + 2 <= end <= |data|
    ensures RelocationCommand(data, end, start, headers, f, c, LE(data[c.pos..c.pos + 2]), flag, code, target) == Err(e)
       <==> RelocationRefused(data, end, headers, f, c, flag, code, target, e)
  {
    hide *;
    var word: int := LE(data[c.pos..c.pos + 2]);
    OffsetRefusal(data, end, c.pos, word, f.PayloadShift(), flag, c.base);
    CodeRefusal(code);
    RelocationOrder(data, end, start, headers, f, c, word, flag, code, target, e);
    RefusedOrder(data, end, headers, f, c, word, flag, code, target, e);
  }

  lemma RelocationOrder(data: Bytes, end: int, start: int, headers: seq<ProgramHeader>, f: Format, c: Carry, word: int,
                        flag: Byte, code: Byte, target: nat, e: DecodeError)
    requires 0 <= c.pos && c.pos + 2 <= end <= |data|
    ensures RelocationCommand(data, end, start, headers, f, c, word, flag, code, target) == Err(e)
       <==> if CompactType(code).None? then e == BadCompactType
            else if !Loads(headers, c.source) then e == BadSource
            else if !Loads(headers, target) then e == BadTarget
            else
              var offset := ReadOffset(data, end, c.pos + 2, word, f.PayloadShift(), flag, c.base);
              if offset.Err? then e == offset.error
              else if offset.value.0 < 0 || offset.value.0 + 4 > headers[c.source].memsz then e == OffsetOutsideSource
              else
                var addend := ReadAddend(data, end, offset.value.1, flag);
                if addend.Err? then e == addend.error else |c.relocs| >= 1_000_000 && e == TooMany
  {
    hide ReadOffset, ReadAddend, CompactType, MakeRelocation, Format.PayloadShift;
  }

  lemma RefusedOrder(data: Bytes, end: int, headers: seq<ProgramHeader>, f: Format, c: Carry, word: int,
                     flag: Byte, code: Byte, target: nat, e: DecodeError)
    requires 0 <= c.pos && c.pos + 2 <= end <= |data| && word == LE(data[c.pos..c.pos + 2])
    ensures RelocationRefused(data, end, headers, f, c, flag, code, target, e)
       <==> if CompactType(code).None? then e == BadCompactType
            else if !Loads(headers, c.source) then e == BadSource
            else if !Loads(headers, target) then e == BadTarget
            else
              var offset := ReadOffset(data, end, c.pos + 2, word, f.PayloadShift(), flag, c.base);
              if offset.Err? then e == offset.error
              else if offset.value.0 < 0 || offset.value.0 + 4 > headers[c.source].memsz then e == OffsetOutsideSource
              else
                var addend := ReadAddend(data, end, offset.value.1, flag);
                if addend.Err? then e == addend.error else |c.relocs| >= 1_000_000 && e == TooMany
  {
    hide ReadOffset, ReadAddend, CompactType, Format.PayloadShift, LE, Pow2, Selected;
    CodeRefusal(code);
    OffsetRefusal(data, end, c.pos, word, f.PayloadShift(), flag, c.base);
    var next := c.pos + (if flag / 2 % 4 == 1 then 4 else if flag / 2 % 4 == 2 then 6 else 2);
    if next <= end {
      AddendRefusal(data, end, next, flag);
    }
  }

  lemma CodeRefusal(code: Byte)
    ensures CompactType(code).None? <==> code > 7
  {
  }

  lemma OffsetRefusal(data: Bytes, end: int, pos: int, word: int, shift: nat, flag: Byte, base: int)
    requires 0 <= pos && pos + 2 <= end <= |data|
    ensures var r, mode := ReadOffset(data, end, pos + 2, word, shift, flag, base), flag / 2 % 4;
            var delta := (if word >= 0x8000 then word - 0x1_0000 else word) / Pow2(shift);
            var next := pos + (if mode == 1 then 4 else if mode == 2 then 6 else 2);
            if mode == 3 then r == Err(BadOffsetMode)
            else if next > end then r == Err(Truncated)
            else r == Ok((Selected(data, pos, mode, base, delta), next))
  {
    QuotientAndRest(if word >= 0x8000 then word - 0x1_0000 else word, shift);
    hide LE, Shr, Pow2;
  }

  lemma AddendRefusal(data: Bytes, end: int, at: int, flag: Byte)
    requires 0 <= at <= end <= |data|
    ensures var r, low := ReadAddend(data, end, at, flag), flag / 8 % 8;
            if low == 2 && at + 2 > end then r == Err(Truncated)
            else if low > 2 then r == Err(BadLowHalfMode)
            else r.Ok?
  {
    hide LE;
  }

  /** A command is refused for the first of its checks that fails. */
  lemma StepRefusal(data: Bytes, end: int, start: int, headers: seq<ProgramHeader>, f: Format, c: Carry, e: DecodeError)
    requires 0 <= c.pos <= end <= |data|
    ensures Step(data, end, start, headers, f, c) == Err(e) <==> CommandRefused(data, end, headers, f, c, e)
  {
    hide And, Shr, Mask, Pow2, LE, StateCommand, RelocationCommand, StateRefused, RelocationRefused;
    if c.pos + 2 <= end {
      var word := LE(data[c.pos..c.pos + 2]);
      QuotientAndRest(word, f.flagBits);
      QuotientAndRest(Shr(word, f.flagBits), f.segBits);
      QuotientAndRest(word, f.TypeShift());
      QuotientAndRest(Shr(word, f.TypeShift()), f.typeBits);
      var flagIndex, typeIndex := And(word, Mask(f.flagBits)), And(Shr(word, f.TypeShift()), Mask(f.typeBits));
      var segment := And(Shr(word, f.flagBits), Mask(f.segBits));
      if flagIndex < |f.flagTable| && typeIndex < |f.typeTable| {
        StateRefusal(data, end, f, c, word, f.flagTable[flagIndex], segment, e);
        RelocationRefusal(data, end, start, headers, f, c, f.flagTable[flagIndex], f.typeTable[typeIndex], segment, e);
      }
    }
  }

  // ---- The stream ----

  /** Four bytes, widths of at most sixteen bits with the least segment width, and two tables that hold their
      own sizes. */
  lemma HeaderRefusal(data: Bytes, end: int, start: int, index: nat, e: DecodeError)
    requires 0 <= start <= end <= |data|
    ensures ReadFormat(data, end, start, index) == Err(e)
       <==> if start + 4 > end then e == Truncated
            else if data[start + 2] + SegBitsFrom(1, index) + data[start + 3] > 16 then e == WidthsExceed16
            else if start + 5 > end then e == Truncated
            else if data[start + 4] == 0 then e == EmptyTable
            else
              var second := start + 4 + data[start + 4];
              if second > end then e == Truncated
              else if second + 1 > end then e == Truncated
              else if data[second] == 0 then e == EmptyTable
              else second + data[second] > end && e == Truncated
  {
    hide SegBitsFrom;
  }

  /** The commands are read one after the other until one is refused. */
  lemma {:induction false} CommandsRefusal(
    data: Bytes, end: int, start: int, headers: seq<ProgramHeader>, f: Format, c: Carry)
    requires 0 <= c.pos <= end <= |data|
    ensures var r := DecodeFrom(data, end, start, headers, f, c);
            r.Err? ==> exists at: Carry :: c.pos <= at.pos < end && CommandRefused(data, end, headers, f, at, r.error)
    decreases end - c.pos
  {
    hide Step, CommandRefused;
    if c.pos < end {
      var next := Step(data, end, start, headers, f, c);
      if next.Ok? {
        CommandsRefusal(data, end, start, headers, f, next.value);
      } else {
        StepRefusal(data, end, start, headers, f, c, next.error);
      }
    }
  }

  /** A segment is refused for its image, its header, its extent, its stream header or one of its commands. */
  lemma DecodeRefusal(data: Bytes, elf: ElfImage, index: int)
    requires Decode(data, elf, index).Err?
    ensures var e := Decode(data, elf, index).error;
            if !elf.littleEndian then e == BigEndian
            else if !(0 <= index < |elf.programHeaders|) then e == BadHeaderIndex
            else
              var s := elf.programHeaders[index];
              if s.ptype != 0x7000_00A1 then e == NotTypeB
              else if s.offset < 0 || s.filesz < 0 || s.offset + s.filesz > |data| then e == BeyondInput
              else
                var format := ReadFormat(data, s.offset + s.filesz, s.offset, index);
                if format.Err? then e == format.error
                else exists at: Carry :: format.value.1 <= at.pos < s.offset + s.filesz
                       && CommandRefused(data, s.offset + s.filesz, elf.programHeaders, format.value.0, at, e)
  {
    hide ReadFormat, DecodeFrom, CommandRefused;
    if elf.littleEndian && 0 <= index < |elf.programHeaders| {
      var s := elf.programHeaders[index];
      if s.ptype == 0x7000_00A1 && 0 <= s.offset && 0 <= s.filesz && s.offset + s.filesz <= |data| {
        var format := ReadFormat(data, s.offset + s.filesz, s.offset, index);
        if format.Ok? {
          CommandsRefusal(data, s.offset + s.filesz, s.offset, elf.programHeaders, format.value.0,
                          Carry(format.value.1, 0, 0, []));
        }
      }
    }
  }
}
