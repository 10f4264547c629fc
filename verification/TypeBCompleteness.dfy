/** Every stream the Type-B decoder accepts is one the writer produces, so the writer's grammar and
    meaning describe the decoder completely. */
module TypeBCompleteness {
  import opened Prelude
  import opened Bits
  import opened ByteStrings
  import opened ElfModel
  import opened RelocationWords
  import opened TypeBDecoder
  import opened TypeBCodec

  // ---- Taking a command word apart ----

  lemma {:induction false} ShrBound(x: nat, j: nat, k: nat)
    requires x < Pow2(j + k)
    ensures 0 <= Shr(x, k) < Pow2(j)
    decreases k
  {
    if k > 0 {
      ShrBound(x / 2, j, k - 1);
    }
  }

  /** The four fields of a word, and the word rebuilt from them. */
  lemma {:induction false} WordParts(f: Format, word: nat)
    requires f.PayloadShift() <= 16 && word < 0x1_0000
    ensures var flagIndex, segment := And(word, Mask(f.flagBits)), And(Shr(word, f.flagBits), Mask(f.segBits));
            var upper, payload := Shr(word, f.TypeShift()), Shr(word, f.PayloadShift());
            var typeIndex := And(upper, Mask(f.typeBits));
            && flagIndex < Pow2(f.flagBits) && segment < Pow2(f.segBits) && typeIndex < Pow2(f.typeBits)
            && 0 <= upper < Pow2(16 - f.TypeShift()) && 0 <= payload < Pow2(16 - f.PayloadShift())
            && word == flagIndex + Shl(segment + Shl(upper, f.segBits), f.flagBits)
            && upper == typeIndex + Shl(payload, f.typeBits)
  {
    hide And, Shr, Shl, Mask, Pow2;
    Pow2Values();
    MaskSplits(word, f.flagBits);
    MaskSplits(Shr(word, f.flagBits), f.segBits);
    ShrAdds(word, f.flagBits, f.segBits);
    MaskSplits(Shr(word, f.TypeShift()), f.typeBits);
    ShrAdds(word, f.TypeShift(), f.typeBits);
    ShrBound(word, 16 - f.TypeShift(), f.TypeShift());
    ShrBound(word, 16 - f.PayloadShift(), f.PayloadShift());
  }

  predicate DeltaFits(word: nat, shift: nat, delta: int)
    requires shift <= 16
  {
    if shift == 16 then delta == if word >= 0x8000 then -1 else 0
    else 0 <= delta + Pow2(15 - shift) && delta < Pow2(15 - shift)
  }

  /** The sign-extended payload fits, and packing it again gives the word's payload. */
  lemma {:induction false} DeltaParts(word: nat, shift: nat)
    requires shift <= 16 && word < 0x1_0000
    ensures var delta := SignedCompactDelta(word, shift);
            DeltaFits(word, shift, delta) && And(delta, Mask(16 - shift)) == Shr(word, shift)
  {
    if shift == 16 {
      NoPayloadParts(word, shift);
    } else {
      PayloadParts(word, shift);
    }
  }

  lemma {:induction false} PayloadParts(word: nat, shift: nat)
    requires shift < 16 && word < 0x1_0000
    ensures var delta := SignedCompactDelta(word, shift);
            DeltaFits(word, shift, delta) && And(delta, Mask(16 - shift)) == Shr(word, shift)
  {
    hide And, Shr, Shl, Mask, Pow2;
    var bits := 16 - shift;
    var payload, low := Shr(word, shift), And(word, Mask(shift));
    Pow2Values();
    MaskSplits(word, shift);
    ShrBound(word, bits, shift);
    SignBit(low, payload, shift, bits);
    DoublePow2(bits);
    if word < 0x8000 {
      PayloadOf(payload, bits);
    } else {
      ShlPow2(bits, shift);
      ShlSum(payload - Pow2(bits), Pow2(bits), shift);
      FieldUnpacks(low, payload - Pow2(bits), shift);
      PayloadOf(payload - Pow2(bits), bits);
    }
  }

  lemma {:induction false} NoPayloadParts(word: nat, shift: nat)
    requires word < 0x1_0000 && shift == 16
    ensures var delta := SignedCompactDelta(word, shift);
            DeltaFits(word, shift, delta) && And(delta, Mask(16 - shift)) == Shr(word, shift)
  {
    hide Shr, Pow2, Shl;
    Pow2Values();
    assert Pow2(0) == 1 by {
      PowZero();
    }
    ShrBound(word, 0, shift);
    ShlIsTimes(-1, shift);
    FieldUnpacks(word, -1, shift);
    assert Mask(0) == 0;
  }

  // ---- Taking a command apart ----

  /** Bytes that were read as an integer are that integer's bytes. */
  lemma {:induction false} ReadStands(data: Bytes, end: int, pos: int, n: nat)
    requires 0 <= pos <= end <= |data| && ReadLE(data, end, pos, n).Ok?
    ensures var v := ReadLE(data, end, pos, n).value; v < Pow2(8 * n) && StandsAt(data, pos, LEBytes(v, n))
  {
    LERoundTrip(data[pos..pos + n]);
  }

  lemma {:induction false} ChangeParses(
    data: Bytes, end: int, pos: int, f: Format, word: nat, flag: int, base: int, lowFields: nat)
    returns (change: OffsetChange)
    requires 0 <= pos <= end <= |data| && f.PayloadShift() <= 16 && word < 0x1_0000
    requires ReadOffset(data, end, pos, word, f.PayloadShift(), flag, base).Ok?
    requires f.PayloadShift() == 16 ==> lowFields == word
    ensures ChangeFits(f, flag, lowFields, change) && Payload(f, change) == Shr(word, f.PayloadShift())
    ensures StandsAt(data, pos, ChangeBytes(change))
    ensures pos + |ChangeBytes(change)| == ReadOffset(data, end, pos, word, f.PayloadShift(), flag, base).value.1
  {
    hide And, Shr, Shl, Mask, Pow2, LE, LEBytes, SignedCompactDelta, StandsAt;
    var shift := f.PayloadShift();
    var delta := SignedCompactDelta(word, shift);
    DeltaParts(word, shift);
    ShrBound(word, 16 - shift, shift) by {
      Pow2Values();
    }
    Pow2Words();
    if OffsetMode(flag) == 0 {
      change := Compact(delta);
      NothingStands(data, pos);
    } else if OffsetMode(flag) == 1 {
      var low := ReadLE(data, end, pos, 2).value;
      ReadStands(data, end, pos, 2);
      change := Extended(delta * 0x1_0000 + low);
      HighAndLow(delta, low);
    } else {
      ReadStands(data, end, pos, 4);
      change := Absolute(ReadLE(data, end, pos, 4).value, Shr(word, shift));
    }
  }

  lemma HighAndLow(high: int, low: int)
    requires 0 <= low < 0x1_0000
    ensures (high * 0x1_0000 + low) / 0x1_0000 == high && (high * 0x1_0000 + low) % 0x1_0000 == low
  {
  }

  lemma LowParses(data: Bytes, end: int, pos: int, flag: int) returns (low: LowHalf)
    requires 0 <= pos <= end <= |data| && ReadAddend(data, end, pos, flag).Ok?
    ensures LowFits(flag, low) && StandsAt(data, pos, LowBytes(low))
    ensures pos + |LowBytes(low)| == ReadAddend(data, end, pos, flag).value.1
  {
    hide LE, LEBytes, Pow2, StandsAt;
    Pow2Words();
    if LowHalfMode(flag) == 2 {
      ReadStands(data, end, pos, 2);
      low := ExplicitLow(SignedU16(ReadLE(data, end, pos, 2).value));
    } else {
      low := if LowHalfMode(flag) == 0 then ZeroLow else ReuseLow;
      NothingStands(data, pos);
    }
  }

  ghost predicate Parsed(data: Bytes, end: int, f: Format, pos: int, cmd: Command) {
    f.PayloadShift() <= 16 && Encodable(f, cmd)
    && pos + CommandSize(cmd) <= end && StandsAt(data, pos, EncodeCommand(f, cmd))
  }

  /** A successful step read one encodable command. */
  lemma {:induction false} StepParses(
    data: Bytes, end: int, start: int, headers: seq<ProgramHeader>, f: Format, c: Carry)
    returns (cmd: Command)
    requires 0 <= c.pos <= end <= |data| && f.PayloadShift() <= 16
    requires Step(data, end, start, headers, f, c).Ok?
    ensures Parsed(data, end, f, c.pos, cmd)
  {
    hide And, Shr, Shl, Mask, Pow2, LE, LEBytes, StateCommand, RelocationCommand, Parsed;
    var word := ReadLE(data, end, c.pos, 2).value;
    ReadStands(data, end, c.pos, 2);
    Pow2Words();
    var flagIndex := And(word, Mask(f.flagBits));
    var flag := f.flagTable[flagIndex];
    if flag % 2 == 0 {
      cmd := StateParses(data, end, f, c, word);
    } else {
      cmd := RelocationParses(data, end, start, headers, f, c, word);
    }
  }

  lemma {:induction false} StateParses(data: Bytes, end: int, f: Format, c: Carry, word: nat) returns (cmd: Command)
    requires 0 <= c.pos && c.pos + 2 <= end <= |data| && f.PayloadShift() <= 16 && word < 0x1_0000
    requires StandsAt(data, c.pos, LEBytes(word, 2))
    requires And(word, Mask(f.flagBits)) < |f.flagTable|
    requires And(Shr(word, f.TypeShift()), Mask(f.typeBits)) < |f.typeTable|
    requires var flag := f.flagTable[And(word, Mask(f.flagBits))];
             flag % 2 == 0
             && StateCommand(data, end, f, c, word, flag, And(Shr(word, f.flagBits), Mask(f.segBits))).Ok?
    ensures Parsed(data, end, f, c.pos, cmd)
  {
    hide And, Shr, Shl, Mask, Pow2, LE, LEBytes, StandsAt;
    WordParts(f, word);
    Pow2Words();
    var flagIndex, segment := And(word, Mask(f.flagBits)), And(Shr(word, f.flagBits), Mask(f.segBits));
    var upper := Shr(word, f.TypeShift());
    if OffsetMode(f.flagTable[flagIndex]) == 0 {
      cmd := SetSegment(flagIndex, segment, Packed(upper));
      NothingStands(data, c.pos + 2);
      PartsStand(data, c.pos, LEBytes(word, 2), []);
    } else {
      var base := ReadLE(data, end, c.pos + 2, 4).value;
      ReadStands(data, end, c.pos + 2, 4);
      cmd := SetSegment(flagIndex, segment, WideBase(base, And(upper, Mask(f.typeBits)), Shr(word, f.PayloadShift())));
      PartsStand(data, c.pos, LEBytes(word, 2), LEBytes(base, 4));
    }
    assert Word(f, cmd) == word;
  }

  lemma {:induction false} RelocationParses(
    data: Bytes, end: int, start: int, headers: seq<ProgramHeader>, f: Format, c: Carry, word: nat)
    returns (cmd: Command)
    requires 0 <= c.pos && c.pos + 2 <= end <= |data| && f.PayloadShift() <= 16 && word < 0x1_0000
    requires StandsAt(data, c.pos, LEBytes(word, 2))
    requires And(word, Mask(f.flagBits)) < |f.flagTable|
    requires And(Shr(word, f.TypeShift()), Mask(f.typeBits)) < |f.typeTable|
    requires var flag := f.flagTable[And(word, Mask(f.flagBits))];
             flag % 2 == 1
             && RelocationCommand(data, end, start, headers, f, c, word, flag,
                                  f.typeTable[And(Shr(word, f.TypeShift()), Mask(f.typeBits))],
                                  And(Shr(word, f.flagBits), Mask(f.segBits))).Ok?
    ensures Parsed(data, end, f, c.pos, cmd)
  {
    hide And, Shr, Shl, Mask, Pow2, LE, LEBytes, StandsAt, ReadOffset, ReadAddend, ChangeFits, LowFits, Payload,
      ChangeBytes, LowBytes, MakeRelocation, Codes, KindOf, CompactType;
    WordParts(f, word);
    var flagIndex, segment := And(word, Mask(f.flagBits)), And(Shr(word, f.flagBits), Mask(f.segBits));
    var typeIndex := And(Shr(word, f.TypeShift()), Mask(f.typeBits));
    var flag := f.flagTable[flagIndex];
    var fields := LowFields(f, flagIndex, segment, typeIndex);
    if f.PayloadShift() == 16 {
      FullWord(f, word);
    }
    var change := ChangeParses(data, end, c.pos + 2, f, word, flag, c.base, fields);
    var at := c.pos + 2 + |ChangeBytes(change)|;
    var low := LowParses(data, end, at, flag);
    cmd := Relocate(flagIndex, segment, typeIndex, KindOf(f.typeTable[typeIndex]), change, low);
    KindCodes(f.typeTable[typeIndex]);
    assert Word(f, cmd) == word;
    PartsStand(data, c.pos + 2, ChangeBytes(change), LowBytes(low));
    PartsStand(data, c.pos, LEBytes(word, 2), ChangeBytes(change) + LowBytes(low));
    SizeOfParts(f, cmd);
  }

  function KindOf(code: Byte): Option<MipsType> {
    match code
    case 0 => Some(Nothing)
    case 1 => Some(Half16)
    case 2 => Some(Word32)
    case 3 => Some(Jump26)
    case 4 => Some(High16)
    case 5 => Some(Low16)
    case 6 => Some(ForcedJ)
    case 7 => Some(ForcedJal)
    case _ => None
  }

  lemma KindCodes(code: Byte)
    ensures Codes(KindOf(code), code)
  {
  }

  lemma SizeOfParts(f: Format, cmd: Command)
    requires cmd.Relocate? && f.PayloadShift() <= 16
    ensures CommandSize(cmd) == 2 + |ChangeBytes(cmd.change)| + |LowBytes(cmd.low)|
  {
  }

  /** Without payload bits the fields are the whole word. */
  lemma {:induction false} FullWord(f: Format, word: nat)
    requires f.PayloadShift() == 16 && word < 0x1_0000
    ensures LowFields(f, And(word, Mask(f.flagBits)), And(Shr(word, f.flagBits), Mask(f.segBits)),
                      And(Shr(word, f.TypeShift()), Mask(f.typeBits))) == word
  {
    hide And, Shr, Shl, Mask;
    WordParts(f, word);
    ShlIsTimes(0, f.typeBits);
    hide Pow2;
    assert Pow2(0) == 1 by {
      PowZero();
    }
  }

  lemma PowZero()
    ensures Pow2(0) == 1
  {
  }

  // ---- Whole streams ----

  /** The command bytes of a successful decode are written commands. */
  lemma {:induction false} CommandsParse(
    data: Bytes, end: int, start: int, headers: seq<ProgramHeader>, f: Format, c: Carry)
    returns (cmds: seq<Command>)
    requires 0 <= c.pos <= end <= |data| && f.PayloadShift() <= 16
    requires DecodeFrom(data, end, start, headers, f, c).Ok?
    ensures AllEncodable(f, cmds) && StandsAt(data, c.pos, EncodeAll(f, cmds))
    ensures c.pos + |EncodeAll(f, cmds)| == end
    decreases end - c.pos
  {
    hide Step, StandsAt, EncodeCommand, Encodable, Meaning;
    if c.pos == end {
      cmds := [];
      NothingStands(data, c.pos);
    } else {
      var cmd := StepParses(data, end, start, headers, f, c);
      StepReadsCommand(data, end, start, headers, f, c, cmd);
      MeaningMoves(headers, f, start, c, cmd);
      var rest := CommandsParse(data, end, start, headers, f, Step(data, end, start, headers, f, c).value);
      cmds := [cmd] + rest;
      assert cmds[1..] == rest;
      PartsStand(data, c.pos, EncodeCommand(f, cmd), EncodeAll(f, rest));
    }
  }

  function StreamHeader(reserved: (Byte, Byte), f: Format): Bytes
    requires f.PayloadShift() <= 16
  {
    [reserved.0, reserved.1, f.flagBits, f.typeBits] + f.flagTable + f.typeTable
  }

  lemma FormatParses(data: Bytes, end: int, start: nat, index: nat) returns (reserved: (Byte, Byte))
    requires start <= end <= |data| && ReadFormat(data, end, start, index).Ok?
    ensures var (f, pos) := ReadFormat(data, end, start, index).value;
            && FormatFits(f, index) && pos == start + 4 + |f.flagTable| + |f.typeTable|
            && StandsAt(data, start, StreamHeader(reserved, f))
  {
    SegBitsIff(ReadFormat(data, end, start, index).value.0.segBits, index);
    hide SegBitsFrom, LeastWidth;
    reserved := (data[start], data[start + 1]);
    var (f, pos) := ReadFormat(data, end, start, index).value;
    assert data[start..start + 4] == [data[start], data[start + 1], data[start + 2], data[start + 3]];
    var four: Bytes := [reserved.0, reserved.1, f.flagBits, f.typeBits];
    assert StandsAt(data, start, four);
    assert StandsAt(data, start + 4, f.flagTable) && StandsAt(data, start + 4 + |f.flagTable|, f.typeTable);
    hide ReadFormat, StandsAt;
    PartsStand(data, start, four, f.flagTable);
    PartsStand(data, start, four + f.flagTable, f.typeTable);
  }

  /** A PT_PRXRELOC2 segment that holds a written stream whose commands mean `relocs`. */
  ghost predicate WrittenAs(
    data: Bytes, elf: ElfImage, index: int, reserved: (Byte, Byte), f: Format, cmds: seq<Command>, relocs: seq<Relocation>)
  {
    && elf.littleEndian && 0 <= index < |elf.programHeaders| && FormatFits(f, index) && AllEncodable(f, cmds)
    && var s := elf.programHeaders[index];
       s.ptype == 0x7000_00A1 && s.filesz == |EncodeStream(reserved, f, cmds)|
       && StandsAt(data, s.offset, EncodeStream(reserved, f, cmds))
       && MeaningOfAll(elf.programHeaders, f, s.offset,
                       Carry(s.offset + 4 + |f.flagTable| + |f.typeTable|, 0, 0, []), cmds) == Ok(relocs)
  }

  /** The decoder succeeds with `relocs` exactly when the segment holds a written stream that means
      `relocs`: the grammar admits every accepted stream and nothing else. */
  lemma DecodesIffWritten(data: Bytes, elf: ElfImage, index: int, relocs: seq<Relocation>)
    ensures Decode(data, elf, index) == Ok(relocs)
       <==> exists reserved, f, cmds :: WrittenAs(data, elf, index, reserved, f, cmds, relocs)
  {
    hide Decode, MeaningOfAll, EncodeStream, AllEncodable, FormatFits, StandsAt;
    if reserved, f, cmds :| WrittenAs(data, elf, index, reserved, f, cmds, relocs) {
      WrittenDecodes(data, elf, index, reserved, f, cmds);
    }
    if Decode(data, elf, index) == Ok(relocs) {
      var reserved, f, cmds := DecodedWasWritten(data, elf, index);
      WrittenDecodes(data, elf, index, reserved, f, cmds);
      assert WrittenAs(data, elf, index, reserved, f, cmds, relocs);
    }
  }

  lemma {:induction false} WrittenDecodes(
    data: Bytes, elf: ElfImage, index: int, reserved: (Byte, Byte), f: Format, cmds: seq<Command>)
    requires elf.littleEndian && 0 <= index < |elf.programHeaders| && FormatFits(f, index) && AllEncodable(f, cmds)
    requires var s := elf.programHeaders[index];
             s.ptype == 0x7000_00A1 && s.filesz == |EncodeStream(reserved, f, cmds)|
             && StandsAt(data, s.offset, EncodeStream(reserved, f, cmds))
    ensures var s := elf.programHeaders[index];
            Decode(data, elf, index)
            == MeaningOfAll(elf.programHeaders, f, s.offset,
                            Carry(s.offset + 4 + |f.flagTable| + |f.typeTable|, 0, 0, []), cmds)
  {
    hide Decode, MeaningOfAll, EncodeStream, AllEncodable, SegBitsFrom;
    var s := elf.programHeaders[index];
    var before, after := data[..s.offset], data[s.offset + s.filesz..];
    assert data == before + EncodeStream(reserved, f, cmds) + after;
    DecodeInvertsEncode(before, reserved, f, cmds, after, elf, index);
  }

  lemma {:induction false} DecodedWasWritten(data: Bytes, elf: ElfImage, index: int)
    returns (reserved: (Byte, Byte), f: Format, cmds: seq<Command>)
    requires Decode(data, elf, index).Ok?
    ensures elf.littleEndian && 0 <= index < |elf.programHeaders| && FormatFits(f, index) && AllEncodable(f, cmds)
    ensures var s := elf.programHeaders[index];
            s.ptype == 0x7000_00A1 && s.filesz == |EncodeStream(reserved, f, cmds)|
            && StandsAt(data, s.offset, EncodeStream(reserved, f, cmds))
  {
    hide DecodeFrom, ReadFormat, AllEncodable, FormatFits, StandsAt, EncodeAll;
    var s := elf.programHeaders[index];
    var end := s.offset + s.filesz;
    var format := ReadFormat(data, end, s.offset, index).value;
    f := format.0;
    reserved := FormatParses(data, end, s.offset, index);
    cmds := CommandsParse(data, end, s.offset, elf.programHeaders, f, Carry(format.1, 0, 0, []));
    PartsStand(data, s.offset, StreamHeader(reserved, f), EncodeAll(f, cmds));
  }
}
