/** A writer for the Type-B command grammar and the proof that the decoder inverts it. */
module TypeBCodec {
  import opened Prelude
  import opened Bits
  import opened ByteStrings
  import opened ElfModel
  import opened RelocationWords
  import opened TypeBDecoder

  // ---- Abstract commands; `spare` holds payload bits a command's mode ignores ----

  datatype StateBase = Packed(base: nat) | WideBase(base: nat, typeIndex: nat, spare: nat)

  datatype OffsetChange = Compact(delta: int) | Extended(delta: int) | Absolute(offset: nat, spare: nat)

  datatype LowHalf = ZeroLow | ExplicitLow(value: int) | ReuseLow

  datatype Command =
    | SetSegment(flagIndex: nat, segment: nat, base: StateBase)
    | Relocate(flagIndex: nat, segment: nat, typeIndex: nat, kind: Option<MipsType>, change: OffsetChange, low: LowHalf)

  function PayloadBits(f: Format): nat
    requires f.PayloadShift() <= 16
  {
    16 - f.PayloadShift()
  }

  // ---- Meaning: what a command sequence says, without any bytes ----

  function CommandSize(cmd: Command): nat {
    match cmd
    case SetSegment(_, _, base) => if base.Packed? then 2 else 6
    case Relocate(_, _, _, _, change, low) =>
      2 + (match change case Compact(_) => 0 case Extended(_) => 2 case Absolute(_, _) => 4)
        + (if low.ExplicitLow? then 2 else 0)
  }

  function NewOffset(change: OffsetChange, base: int): int {
    match change
    case Compact(delta) => base + delta
    case Extended(delta) => base + delta
    case Absolute(offset, _) => offset
  }

  function AddendOf(low: LowHalf): Option<int> {
    match low
    case ZeroLow => Some(0)
    case ExplicitLow(value) => Some(value)
    case ReuseLow => None
  }

  /** One command's effect on the carried source segment, base, stream position and list. */
  function Meaning(headers: seq<ProgramHeader>, f: Format, start: int, c: Carry, cmd: Command)
    : Result<Carry, DecodeError>
    requires Encodable(f, cmd)
  {
    match cmd
    case SetSegment(_, segment, base) => Ok(Carry(c.pos + CommandSize(cmd), segment, base.base, c.relocs))
    case Relocate(flagIndex, target, _, kind, change, low) =>
      var offset := NewOffset(change, c.base);
      if kind.None? then Err(BadCompactType)
      else if !(c.source < |headers| && headers[c.source].ptype == 1) then Err(BadSource)
      else if !(target < |headers| && headers[target].ptype == 1) then Err(BadTarget)
      else if offset < 0 || offset + 4 > headers[c.source].memsz then Err(OffsetOutsideSource)
      else if |c.relocs| >= 1_000_000 then Err(TooMany)
      else
        var t := kind.value.Number();
        var r := Relocation(offset, t + 0x100 * Or(c.source, 0x100 * target), t, FromProgramHeaderRel2, Some(c.source),
                            Some(target), Some(c.pos - start), AddendOf(low), Some(f.flagTable[flagIndex]));
        Ok(Carry(c.pos + CommandSize(cmd), c.source, offset, c.relocs + [r]))
  }

  function MeaningOfAll(headers: seq<ProgramHeader>, f: Format, start: int, c: Carry, cmds: seq<Command>)
    : Result<seq<Relocation>, DecodeError>
    requires AllEncodable(f, cmds)
    decreases |cmds|
  {
    if cmds == [] then Ok(c.relocs)
    else
      var next :- Meaning(headers, f, start, c, cmds[0]);
      MeaningOfAll(headers, f, start, next, cmds[1..])
  }

  // ---- The writer ----

  /** The low fields of a relocation word, below its payload. */
  function LowFields(f: Format, flagIndex: nat, segment: nat, typeIndex: nat): nat {
    flagIndex + Shl(segment + Shl(typeIndex, f.segBits), f.flagBits)
  }

  /** A delta the payload can carry.  With no payload bits left, the decoder still sign-extends the
      word, so its top bit alone selects 0 or -1. */
  predicate FitsCompact(f: Format, lowFields: nat, delta: int)
    requires f.PayloadShift() <= 16
  {
    var bits := PayloadBits(f);
    if bits == 0 then delta == if lowFields >= 0x8000 then -1 else 0
    else 0 <= delta + Pow2(bits - 1) && delta < Pow2(bits - 1)
  }

  /** The code a type table holds for a relocation type; codes above seven stand for none. */
  predicate Codes(kind: Option<MipsType>, code: Byte) {
    match kind
    case None => code > 7
    case Some(Nothing) => code == 0
    case Some(Half16) => code == 1
    case Some(Word32) => code == 2
    case Some(Jump26) => code == 3
    case Some(High16) => code == 4
    case Some(Low16) => code == 5
    case Some(ForcedJ) => code == 6
    case Some(ForcedJal) => code == 7
    case Some(GpRelative) => false
  }

  /** Flag bit 0 marks a relocation, bits 1 and 2 choose the offset mode, bits 3 to 5 the low-half mode. */
  predicate ChangeFits(f: Format, flag: int, lowFields: nat, change: OffsetChange)
    requires f.PayloadShift() <= 16
  {
    match change
    case Compact(delta) => flag / 2 % 4 == 0 && FitsCompact(f, lowFields, delta)
    case Extended(delta) => flag / 2 % 4 == 1 && FitsCompact(f, lowFields, delta / 0x1_0000)
    case Absolute(offset, spare) => flag / 2 % 4 == 2 && offset < 0x1_0000_0000 && spare < Pow2(PayloadBits(f))
  }

  predicate LowFits(flag: int, low: LowHalf) {
    match low
    case ZeroLow => flag / 8 % 8 == 0
    case ExplicitLow(value) => flag / 8 % 8 == 2 && -0x8000 <= value < 0x8000
    case ReuseLow => flag / 8 % 8 == 1
  }

  /** The fields fit their widths and name table entries that select the command's own modes. */
  predicate Encodable(f: Format, cmd: Command) {
    && f.PayloadShift() <= 16
    && cmd.flagIndex < Pow2(f.flagBits) && cmd.flagIndex < |f.flagTable| && cmd.segment < Pow2(f.segBits)
    && var flag := f.flagTable[cmd.flagIndex];
       match cmd
       case SetSegment(_, _, Packed(base)) =>
         && flag % 8 == 0
         && base < Pow2(16 - f.TypeShift()) && And(base, Mask(f.typeBits)) < |f.typeTable|
       case SetSegment(_, _, WideBase(base, typeIndex, spare)) =>
         && flag % 8 == 4 && base < 0x1_0000_0000
         && typeIndex < Pow2(f.typeBits) && typeIndex < |f.typeTable| && spare < Pow2(PayloadBits(f))
       case Relocate(flagIndex, segment, typeIndex, kind, change, low) =>
         && flag % 2 == 1 && typeIndex < Pow2(f.typeBits) && typeIndex < |f.typeTable|
         && Codes(kind, f.typeTable[typeIndex])
         && ChangeFits(f, flag, LowFields(f, flagIndex, segment, typeIndex), change) && LowFits(flag, low)
  }

  predicate AllEncodable(f: Format, cmds: seq<Command>) {
    forall i :: 0 <= i < |cmds| ==> Encodable(f, cmds[i])
  }

  function Payload(f: Format, change: OffsetChange): nat
    requires f.PayloadShift() <= 16
  {
    match change
    case Compact(delta) => And(delta, Mask(PayloadBits(f)))
    case Extended(delta) => And(delta / 0x1_0000, Mask(PayloadBits(f)))
    case Absolute(_, spare) => spare
  }

  /** The bits above the segment field. */
  function Upper(f: Format, cmd: Command): nat
    requires f.PayloadShift() <= 16
  {
    match cmd
    case SetSegment(_, _, Packed(base)) => base
    case SetSegment(_, _, WideBase(_, typeIndex, spare)) => typeIndex + Shl(spare, f.typeBits)
    case Relocate(_, _, typeIndex, _, change, _) => typeIndex + Shl(Payload(f, change), f.typeBits)
  }

  function Word(f: Format, cmd: Command): nat
    requires f.PayloadShift() <= 16
  {
    cmd.flagIndex + Shl(cmd.segment + Shl(Upper(f, cmd), f.segBits), f.flagBits)
  }

  function ChangeBytes(change: OffsetChange): Bytes {
    match change
    case Compact(_) => []
    case Extended(delta) => LEBytes(delta % 0x1_0000, 2)
    case Absolute(offset, _) => LEBytes(offset, 4)
  }

  function LowBytes(low: LowHalf): Bytes {
    if low.ExplicitLow? then LEBytes(low.value % 0x1_0000, 2) else []
  }

  function EncodeCommand(f: Format, cmd: Command): (bytes: Bytes)
    requires f.PayloadShift() <= 16
    ensures |bytes| == CommandSize(cmd)
  {
    LEBytes(Word(f, cmd), 2) +
    match cmd
    case SetSegment(_, _, base) => if base.Packed? then [] else LEBytes(base.base, 4)
    case Relocate(_, _, _, _, change, low) => ChangeBytes(change) + LowBytes(low)
  }

  function EncodeAll(f: Format, cmds: seq<Command>): Bytes
    requires f.PayloadShift() <= 16
  {
    if cmds == [] then [] else EncodeCommand(f, cmds[0]) + EncodeAll(f, cmds[1..])
  }

  /** A whole PT_PRXRELOC2 stream: two reserved bytes, the widths, both tables and the commands. */
  function EncodeStream(reserved: (Byte, Byte), f: Format, cmds: seq<Command>): Bytes
    requires f.PayloadShift() <= 16
  {
    [reserved.0, reserved.1, f.flagBits, f.typeBits] + f.flagTable + f.typeTable + EncodeAll(f, cmds)
  }

  // ---- Field arithmetic ----

  lemma {:induction false} ShlSum(a: int, b: int, k: nat)
    ensures Shl(a, k) + Shl(b, k) == Shl(a + b, k)
    decreases k
  {
    if k > 0 {
      ShlSum(a, b, k - 1);
    }
  }

  lemma {:induction false} ShlMonotone(a: int, b: int, k: nat)
    requires a <= b
    ensures Shl(a, k) <= Shl(b, k)
    decreases k
  {
    if k > 0 {
      ShlMonotone(a, b, k - 1);
    }
  }

  lemma {:induction false} ShlPow2(j: nat, k: nat)
    ensures Shl(Pow2(j), k) == Pow2(j + k)
    decreases k
  {
    if k > 0 {
      ShlPow2(j, k - 1);
    }
  }

  /** A field of `k` bits below a value of `j` bits makes a value of `j + k` bits. */
  lemma JoinedBound(field: nat, rest: nat, k: nat, j: nat)
    requires field < Pow2(k) && rest < Pow2(j)
    ensures field + Shl(rest, k) < Pow2(j + k)
  {
    ShlMonotone(rest, Pow2(j) - 1, k);
    ShlSum(Pow2(j) - 1, 1, k);
    ShlPow2(j, k);
    ShlPow2(0, k);
  }

  /** The word's fields read back, and the word fits sixteen bits. */
  lemma {:induction false} WordFields(f: Format, cmd: Command)
    requires Encodable(f, cmd)
    ensures var word := Word(f, cmd);
            && word < 0x1_0000
            && And(word, Mask(f.flagBits)) == cmd.flagIndex
            && And(Shr(word, f.flagBits), Mask(f.segBits)) == cmd.segment
            && Shr(word, f.TypeShift()) == Upper(f, cmd)
  {
    hide And, Shr, Shl, Mask, Pow2, Upper;
    var upper := Upper(f, cmd);
    UpperBound(f, cmd);
    FieldUnpacks(cmd.flagIndex, cmd.segment + Shl(upper, f.segBits), f.flagBits);
    FieldUnpacks(cmd.segment, upper, f.segBits);
    ShrAdds(Word(f, cmd), f.flagBits, f.segBits);
    WordBound(f, cmd.flagIndex, cmd.segment, upper);
  }

  lemma WordBound(f: Format, flagIndex: nat, segment: nat, upper: nat)
    requires f.TypeShift() <= 16 && upper < Pow2(16 - f.TypeShift())
    requires flagIndex < Pow2(f.flagBits) && segment < Pow2(f.segBits)
    ensures flagIndex + Shl(segment + Shl(upper, f.segBits), f.flagBits) < 0x1_0000
  {
    hide Shl, Pow2;
    JoinedBound(segment, upper, f.segBits, 16 - f.TypeShift());
    JoinedBound(flagIndex, segment + Shl(upper, f.segBits), f.flagBits, 16 - f.flagBits);
    Pow2Values();
  }

  lemma {:induction false} UpperBound(f: Format, cmd: Command)
    requires Encodable(f, cmd)
    ensures Upper(f, cmd) < Pow2(16 - f.TypeShift())
  {
    hide And, Shr, Shl, Pow2;
    match cmd {
      case SetSegment(_, _, Packed(base)) =>
      case SetSegment(_, _, WideBase(base, typeIndex, spare)) =>
        JoinedBound(typeIndex, spare, f.typeBits, PayloadBits(f));
      case Relocate(flagIndex, segment, typeIndex, _, change, low) =>
        if change.Compact? {
          MaskSplits(change.delta, PayloadBits(f));
        } else if change.Extended? {
          MaskSplits(change.delta / 0x1_0000, PayloadBits(f));
        }
        JoinedBound(typeIndex, Payload(f, change), f.typeBits, PayloadBits(f));
    }
  }

  /** The type field, whatever sits above it. */
  lemma {:induction false} WordType(f: Format, cmd: Command)
    requires Encodable(f, cmd) && !(cmd.SetSegment? && cmd.base.Packed?)
    ensures var typeIndex := if cmd.SetSegment? then cmd.base.typeIndex else cmd.typeIndex;
            And(Upper(f, cmd), Mask(f.typeBits)) == typeIndex
  {
    hide And, Shr, Shl, Mask;
    match cmd {
      case SetSegment(_, _, WideBase(base, typeIndex, spare)) => FieldUnpacks(typeIndex, spare, f.typeBits);
      case Relocate(_, _, typeIndex, _, change, _) => FieldUnpacks(typeIndex, Payload(f, change), f.typeBits);
    }
  }

  /** The word's sign-extended payload is the delta that was packed. */
  lemma PayloadSigned(shift: nat, lowFields: nat, delta: int)
    requires shift <= 16 && lowFields < Pow2(shift)
    requires if shift == 16 then delta == (if lowFields >= 0x8000 then -1 else 0)
             else 0 <= delta + Pow2(15 - shift) && delta < Pow2(15 - shift)
    ensures SignedCompactDelta(lowFields + Shl(And(delta, Mask(16 - shift)), shift), shift) == delta
  {
    hide And, Shl, Shr, Mask, Pow2;
    var bits := 16 - shift;
    var payload := And(delta, Mask(bits));
    var word := lowFields + Shl(payload, shift);
    Pow2Values();
    MaskSplits(delta, bits);
    if bits == 0 {
      NoPayload(delta, lowFields);
    } else {
      PayloadOf(delta, bits);
      assert word >= 0x8000 <==> delta < 0 by {
        assert Pow2(bits) == 2 * Pow2(bits - 1) by { DoublePow2(bits); }
        SignBit(lowFields, payload, shift, bits);
      }
      ShlSum(delta, Pow2(bits), shift);
      ShlPow2(bits, shift);
      FieldUnpacks(lowFields, delta, shift);
    }
  }

  lemma DoublePow2(k: nat)
    requires k > 0
    ensures Pow2(k) == 2 * Pow2(k - 1)
  {
  }

  lemma {:induction false} NoPayload(delta: int, low: nat)
    requires low < Pow2(16) && delta == (if low >= 0x8000 then -1 else 0)
    ensures SignedCompactDelta(low + Shl(And(delta, Mask(0)), 16), 16) == delta
  {
    hide Shr;
    Pow2Values();
    assert And(delta, Mask(0)) == 0;
    ShlIsTimes(0, 16);
    ShlIsTimes(-1, 16);
    FieldUnpacks(low, 0, 16);
    if low >= 0x8000 {
      FieldUnpacks(low, -1, 16);
    }
  }

  /** Two's complement: the masked delta is the delta, plus 2^bits when negative. */
  lemma {:induction false} PayloadOf(delta: int, bits: nat)
    requires bits > 0 && 0 <= delta + Pow2(bits - 1) && delta < Pow2(bits - 1)
    ensures And(delta, Mask(bits)) == if delta < 0 then delta + Pow2(bits) else delta
  {
    hide And, Shr, Shl, Mask;
    MaskSplits(delta, bits);
    ShlIsTimes(0, bits);
    ShlIsTimes(-1, bits);
    if delta < 0 {
      FieldUnpacks(delta + Pow2(bits), -1, bits);
    } else {
      FieldUnpacks(delta, 0, bits);
    }
  }

  /** The top bit of the word is the top bit of its payload. */
  lemma SignBit(low: nat, payload: nat, shift: nat, bits: nat)
    requires shift + bits == 16 && bits > 0 && low < Pow2(shift) && payload < Pow2(bits)
    ensures low + Shl(payload, shift) >= 0x8000 <==> payload >= Pow2(bits - 1)
  {
    hide Shl;
    Pow2Values();
    ShlPow2(bits - 1, shift);
    if payload >= Pow2(bits - 1) {
      ShlMonotone(Pow2(bits - 1), payload, shift);
    } else {
      JoinedBound(low, payload, shift, bits - 1);
    }
  }

  // ---- Decoding what was written ----

  /** The integers behind a written command read back wherever its bytes stand in the stream. */
  lemma {:induction false} ReadBack(data: Bytes, end: int, pos: int, v: nat, n: nat)
    requires 0 <= pos && pos + n <= end <= |data| && v < Pow2(8 * n)
    requires StandsAt(data, pos, LEBytes(v, n))
    ensures ReadLE(data, end, pos, n) == Ok(v)
  {
    LEBytesRoundTrip(v, n);
  }

  lemma {:induction false} ChangeReadsBack(data: Bytes, end: int, pos: int, f: Format, flag: int, command: int,
                                           lowFields: nat, change: OffsetChange, base: int)
    requires 0 <= pos && pos + |ChangeBytes(change)| <= end <= |data|
    requires f.PayloadShift() <= 16 && lowFields < Pow2(f.PayloadShift())
    requires command == lowFields + Shl(Payload(f, change), f.PayloadShift())
    requires ChangeFits(f, flag, lowFields, change) && StandsAt(data, pos, ChangeBytes(change))
    ensures ReadOffset(data, end, pos, command, f.PayloadShift(), flag, base)
         == Ok((NewOffset(change, base), pos + |ChangeBytes(change)|))
  {
    hide And, Shl, Shr, LE, LEBytes, SignedCompactDelta, Pow2;
    Pow2Words();
    match change {
      case Compact(delta) =>
        PayloadSigned(f.PayloadShift(), lowFields, delta);
      case Extended(delta) =>
        PayloadSigned(f.PayloadShift(), lowFields, delta / 0x1_0000);
        ReadBack(data, end, pos, delta % 0x1_0000, 2);
      case Absolute(offset, _) =>
        ReadBack(data, end, pos, offset, 4);
    }
  }

  lemma LowReadsBack(data: Bytes, end: int, pos: int, flag: int, low: LowHalf)
    requires 0 <= pos && pos + |LowBytes(low)| <= end <= |data|
    requires LowFits(flag, low) && StandsAt(data, pos, LowBytes(low))
    ensures ReadAddend(data, end, pos, flag) == Ok((AddendOf(low), pos + |LowBytes(low)|))
  {
    hide LE, LEBytes, Pow2;
    Pow2Words();
    if low.ExplicitLow? {
      ReadBack(data, end, pos, low.value % 0x1_0000, 2);
    }
  }

  /** A relocation word is its low fields plus the shifted payload. */
  lemma {:induction false} WordSplits(f: Format, cmd: Command)
    requires Encodable(f, cmd) && cmd.Relocate?
    ensures var low := LowFields(f, cmd.flagIndex, cmd.segment, cmd.typeIndex);
            low < Pow2(f.PayloadShift()) && Word(f, cmd) == low + Shl(Payload(f, cmd.change), f.PayloadShift())
  {
    hide And, Shl, Shr, Pow2;
    var payload := Payload(f, cmd.change);
    var high := Shl(payload, f.typeBits);
    ShlSum(cmd.typeIndex, high, f.segBits);
    ShlSum(cmd.segment + Shl(cmd.typeIndex, f.segBits), Shl(high, f.segBits), f.flagBits);
    ShlAdds(payload, f.typeBits, f.segBits);
    ShlAdds(payload, f.typeBits + f.segBits, f.flagBits);
    JoinedBound(cmd.segment, cmd.typeIndex, f.segBits, f.typeBits);
    JoinedBound(cmd.flagIndex, cmd.segment + Shl(cmd.typeIndex, f.segBits), f.flagBits, f.typeBits + f.segBits);
  }

  /** One decoder step on a written command is the command's meaning, errors included. */
  lemma {:induction false} StepReadsCommand(
    data: Bytes, end: int, start: int, headers: seq<ProgramHeader>, f: Format, c: Carry, cmd: Command)
    requires Encodable(f, cmd) && 0 <= c.pos && c.pos + CommandSize(cmd) <= end <= |data|
    requires StandsAt(data, c.pos, EncodeCommand(f, cmd))
    ensures Step(data, end, start, headers, f, c) == Meaning(headers, f, start, c, cmd)
  {
    hide Step, Meaning, Encodable, EncodeCommand;
    if cmd.SetSegment? {
      StepReadsState(data, end, start, headers, f, c, cmd);
    } else {
      StepReadsRelocation(data, end, start, headers, f, c, cmd);
    }
  }

  lemma {:induction false} StepReadsState(
    data: Bytes, end: int, start: int, headers: seq<ProgramHeader>, f: Format, c: Carry, cmd: Command)
    requires Encodable(f, cmd) && 0 <= c.pos && c.pos + CommandSize(cmd) <= end <= |data|
    requires StandsAt(data, c.pos, EncodeCommand(f, cmd)) && cmd.SetSegment?
    ensures Step(data, end, start, headers, f, c) == Meaning(headers, f, start, c, cmd)
  {
    hide And, Shl, Shr, LE, LEBytes, Pow2, Mask, RelocationCommand, StandsAt, Word;
    var word, base := Word(f, cmd), cmd.base;
    WordFields(f, cmd);
    Pow2Words();
    PartsStand(data, c.pos, LEBytes(word, 2), if base.Packed? then [] else LEBytes(base.base, 4));
    ReadBack(data, end, c.pos, word, 2);
    if base.WideBase? {
      WordType(f, cmd);
      ReadBack(data, end, c.pos + 2, base.base, 4);
    }
  }

  lemma {:induction false} StepReadsRelocation(
    data: Bytes, end: int, start: int, headers: seq<ProgramHeader>, f: Format, c: Carry, cmd: Command)
    requires Encodable(f, cmd) && 0 <= c.pos && c.pos + CommandSize(cmd) <= end <= |data|
    requires StandsAt(data, c.pos, EncodeCommand(f, cmd)) && cmd.Relocate?
    ensures Step(data, end, start, headers, f, c) == Meaning(headers, f, start, c, cmd)
  {
    hide And, Shl, Shr, LE, LEBytes, Pow2, Mask, ReadOffset, ReadAddend, MakeRelocation, ChangeFits, LowFits,
         StandsAt, StateCommand, CompactType, NewOffset, Word, LowFields, Payload, Codes, Or, MipsType.Number;
    var word, flag := Word(f, cmd), f.flagTable[cmd.flagIndex];
    var at := c.pos + 2 + |ChangeBytes(cmd.change)|;
    WordFields(f, cmd);
    Pow2Words();
    PartsStand(data, c.pos, LEBytes(word, 2), ChangeBytes(cmd.change) + LowBytes(cmd.low));
    PartsStand(data, c.pos + 2, ChangeBytes(cmd.change), LowBytes(cmd.low));
    ReadBack(data, end, c.pos, word, 2);
    WordType(f, cmd);
    WordSplits(f, cmd);
    var fields := LowFields(f, cmd.flagIndex, cmd.segment, cmd.typeIndex);
    ChangeReadsBack(data, end, c.pos + 2, f, flag, word, fields, cmd.change, c.base);
    LowReadsBack(data, end, at, flag, cmd.low);
    CodeReads(cmd.kind, f.typeTable[cmd.typeIndex]);
    if cmd.kind.Some? {
      RelocationMade(cmd.kind.value.Number(), c.source, cmd.segment, NewOffset(cmd.change, c.base), c.pos - start,
                     AddendOf(cmd.low), flag);
    }
  }

  /** The decoder's type table undoes the writer's codes. */
  lemma CodeReads(kind: Option<MipsType>, code: Byte)
    requires Codes(kind, code)
    ensures CompactType(code) == if kind.Some? then Some(kind.value.Number()) else None
    ensures kind.Some? ==> kind.value.Number() < 0x100
  {
  }

  lemma RelocationMade(
    t: nat, source: nat, target: nat, offset: int, stream: int, addend: Option<int>, flag: int)
    requires t < 0x100
    ensures MakeRelocation(t, source, target, offset, stream, addend, flag)
         == Relocation(offset, t + 0x100 * Or(source, 0x100 * target), t, FromProgramHeaderRel2, Some(source),
                       Some(target), Some(stream), addend, Some(flag))
  {
    hide Or, Shl;
    Pow2Values();
    ShlIsTimes(source, 8);
    ShlIsTimes(target, 16);
    OrJoins(t, source, 8);
    ShlIsTimes(0x100 * target, 8);
    ShlIsTimes(Or(source, 0x100 * target), 8);
    OrAbove(t, source, 0x100 * target, 8);
  }

  /** The lowest bits of a disjunction are those of the one operand that has any. */
  lemma {:induction false} OrAbove(low: nat, x: nat, y: nat, k: nat)
    requires low < Pow2(k)
    ensures Or(low + Shl(x, k), Shl(y, k)) == low + Shl(Or(x, y), k)
    decreases k
  {
    if k == 0 {
    } else {
      OrAbove(low / 2, x, y, k - 1);
    }
  }

  lemma {:induction false} CommandsReadBack(
    data: Bytes, end: int, start: int, headers: seq<ProgramHeader>, f: Format, c: Carry, cmds: seq<Command>)
    requires f.PayloadShift() <= 16 && AllEncodable(f, cmds)
    requires 0 <= c.pos <= end <= |data| && data[c.pos..end] == EncodeAll(f, cmds)
    ensures DecodeFrom(data, end, start, headers, f, c) == MeaningOfAll(headers, f, start, c, cmds)
    decreases |cmds|
  {
    if cmds != [] {
      hide Step, Meaning, EncodeCommand;
      var here, rest := EncodeCommand(f, cmds[0]), EncodeAll(f, cmds[1..]);
      SliceParts(data, c.pos, end, here, rest);
      StepReadsCommand(data, end, start, headers, f, c, cmds[0]);
      var next := Meaning(headers, f, start, c, cmds[0]);
      if next.Ok? {
        MeaningMoves(headers, f, start, c, cmds[0]);
        CommandsReadBack(data, end, start, headers, f, next.value, cmds[1..]);
      }
    }
  }

  lemma SliceParts(data: Bytes, a: int, b: int, x: Bytes, y: Bytes)
    requires 0 <= a <= b <= |data| && data[a..b] == x + y
    ensures a + |x| <= b && data[a..a + |x|] == x && data[a + |x|..b] == y
  {
    assert data[a..b][..|x|] == x && data[a..b][|x|..] == y;
    SliceOfSlice(data, a, b, a, a + |x|);
    SliceOfSlice(data, a, b, a + |x|, b);
  }

  lemma {:induction false} MeaningMoves(headers: seq<ProgramHeader>, f: Format, start: int, c: Carry, cmd: Command)
    requires Encodable(f, cmd) && Meaning(headers, f, start, c, cmd).Ok?
    ensures Meaning(headers, f, start, c, cmd).value.pos == c.pos + |EncodeCommand(f, cmd)|
  {
    hide Encodable;
  }

  /** The segment field has the least width, at least one bit, whose power of two reaches the header index. */
  ghost predicate LeastWidth(bits: nat, index: nat) {
    bits >= 1 && index <= Pow2(bits) && (bits > 1 ==> Pow2(bits - 1) < index)
  }

  lemma {:induction false} SegBitsReach(k: nat, index: nat)
    requires k >= 1 && (k > 1 ==> Pow2(k - 1) < index)
    ensures LeastWidth(SegBitsFrom(k, index), index)
    decreases if Pow2(k) < index then index - Pow2(k) else 0
  {
    if Pow2(k) < index {
      SegBitsReach(k + 1, index);
    }
  }

  lemma SegBitsIff(bits: nat, index: nat)
    ensures bits == SegBitsFrom(1, index) <==> LeastWidth(bits, index)
  {
    hide SegBitsFrom, Pow2;
    SegBitsReach(1, index);
    var found := SegBitsFrom(1, index);
    if LeastWidth(bits, index) && bits < found {
      Pow2Monotone(bits, found - 1);
    }
    if LeastWidth(bits, index) && found < bits {
      Pow2Monotone(found, bits - 1);
    }
  }

  /** A format whose tables announce their own sizes and whose widths fit the header index. */
  ghost predicate FormatFits(f: Format, index: nat) {
    && f.PayloadShift() <= 16 && LeastWidth(f.segBits, index)
    && 1 <= |f.flagTable| == f.flagTable[0] && 1 <= |f.typeTable| == f.typeTable[0]
  }

  /** Writing a format and any encodable command sequence into a PT_PRXRELOC2 segment anywhere in a
      file and decoding that file gives exactly what the commands mean: the same relocations with
      their bases, segments, addends and stream offsets, or the same refusal. */
  lemma {:induction false} DecodeInvertsEncode(
    before: Bytes, reserved: (Byte, Byte), f: Format, cmds: seq<Command>, after: Bytes, elf: ElfImage, index: int)
    requires elf.littleEndian && 0 <= index < |elf.programHeaders|
    requires FormatFits(f, index) && AllEncodable(f, cmds)
    requires var s := elf.programHeaders[index];
             s.ptype == 0x7000_00A1 && s.offset == |before| && s.filesz == |EncodeStream(reserved, f, cmds)|
    ensures var start := |before| + 4 + |f.flagTable| + |f.typeTable|;
            Decode(before + EncodeStream(reserved, f, cmds) + after, elf, index)
              == MeaningOfAll(elf.programHeaders, f, |before|, Carry(start, 0, 0, []), cmds)
  {
    hide EncodeAll, DecodeFrom, MeaningOfAll, SegBitsFrom, ReadFormat, AllEncodable;
    MiddleStands(before, EncodeStream(reserved, f, cmds), after);
    var data := before + EncodeStream(reserved, f, cmds) + after;
    var end := |before| + |EncodeStream(reserved, f, cmds)|;
    var start := |before| + 4 + |f.flagTable| + |f.typeTable|;
    HeaderReadsBack(data, end, |before|, reserved, f, EncodeAll(f, cmds), index);
    BodyStands(data, |before|, end, [reserved.0, reserved.1, f.flagBits, f.typeBits] + f.flagTable + f.typeTable,
               EncodeAll(f, cmds));
    CommandsReadBack(data, end, |before|, elf.programHeaders, f, Carry(start, 0, 0, []), cmds);
  }

  lemma MiddleStands(a: Bytes, b: Bytes, c: Bytes)
    ensures (a + b + c)[|a|..|a| + |b|] == b
  {
  }

  lemma BodyStands(data: Bytes, start: int, end: int, header: Bytes, body: Bytes)
    requires 0 <= start <= end <= |data| && data[start..end] == header + body
    ensures data[start + |header|..end] == body
  {
    SliceOfSlice(data, start, end, start + |header|, end);
  }

  lemma HeaderReadsBack(
    data: Bytes, end: int, start: nat, reserved: (Byte, Byte), f: Format, body: Bytes, index: nat)
    requires FormatFits(f, index)
    requires start + 4 + |f.flagTable| + |f.typeTable| + |body| == end <= |data|
    requires data[start..end] == [reserved.0, reserved.1, f.flagBits, f.typeBits] + f.flagTable + f.typeTable + body
    ensures ReadFormat(data, end, start, index) == Ok((f, start + 4 + |f.flagTable| + |f.typeTable|))
  {
    hide *;
    FormatParts(f, index);
    SegBitsIff(f.segBits, index);
    var widths: Bytes := [reserved.0, reserved.1, f.flagBits, f.typeBits];
    var b := start + 4 + |f.flagTable|;
    StreamStands(data, start, end, widths + f.flagTable + f.typeTable + body);
    PartsStand(data, start, widths + f.flagTable + f.typeTable, body);
    PartsStand(data, start, widths + f.flagTable, f.typeTable);
    PartsStand(data, start, widths, f.flagTable);
    WidthsRead(data, start, widths);
    TableReadsBack(data, end, start + 4, f.flagTable);
    TableReadsBack(data, end, b, f.typeTable);
    FormatRead(data, end, start, index, f);
  }

  lemma FormatParts(f: Format, index: nat)
    requires FormatFits(f, index)
    ensures f.PayloadShift() <= 16 && f.flagBits < 256 && f.typeBits < 256 && LeastWidth(f.segBits, index)
    ensures 1 <= |f.flagTable| == f.flagTable[0] && 1 <= |f.typeTable| == f.typeTable[0]
  {
    hide LeastWidth;
  }

  lemma FormatRead(data: Bytes, end: int, start: nat, index: nat, f: Format)
    requires start + 4 <= end <= |data| && f.PayloadShift() <= 16 && f.segBits == SegBitsFrom(1, index)
    requires data[start + 2] == f.flagBits && data[start + 3] == f.typeBits
    requires start + 4 + |f.flagTable| <= end
    requires ReadTable(data, end, start + 4) == Ok(f.flagTable)
    requires ReadTable(data, end, start + 4 + |f.flagTable|) == Ok(f.typeTable)
    ensures ReadFormat(data, end, start, index) == Ok((f, start + 4 + |f.flagTable| + |f.typeTable|))
  {
    hide ReadTable, SegBitsFrom;
  }

  lemma StreamStands(data: Bytes, start: int, end: int, s: Bytes)
    requires 0 <= start <= end <= |data| && data[start..end] == s
    ensures StandsAt(data, start, s)
  {
  }

  lemma WidthsRead(data: Bytes, start: nat, widths: Bytes)
    requires |widths| == 4 && StandsAt(data, start, widths)
    ensures start + 4 <= |data| && data[start + 2] == widths[2] && data[start + 3] == widths[3]
  {
    assert data[start + 2] == data[start..start + 4][2] && data[start + 3] == data[start..start + 4][3];
  }

  /** A table that holds its own size is read back where it stands. */
  lemma TableReadsBack(data: Bytes, end: int, at: nat, table: Bytes)
    requires 1 <= |table| == table[0] && StandsAt(data, at, table) && at + |table| <= end <= |data|
    ensures ReadTable(data, end, at) == Ok(table)
  {
    assert data[at] == data[at..at + |table|][0];
  }
}
