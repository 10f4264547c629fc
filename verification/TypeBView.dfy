/** From a Type-B stream to the bytes of the load view built from it: each relocation command, by the
    type it was written with, and the word it moves. */
module TypeBView {
  import opened Prelude
  import opened ByteStrings
  import opened ElfModel
  import opened RelocationWords
  import opened TypeBDecoder
  import opened TypeBCodec
  import opened TypeBCompleteness
  import opened LoadViewTheorems
  import opened LoadViewBuilder
  import opened LoadViewMeaning
  import opened Rebase

  function Relocates(cmds: seq<Command>): (r: seq<Command>)
    ensures forall cmd :: cmd in r ==> cmd.Relocate?
  {
    if cmds == [] then []
    else (if cmds[0].Relocate? then [cmds[0]] else []) + Relocates(cmds[1..])
  }

  /** The record a relocation command leaves: its own type, target and low half, from a load. */
  ghost predicate RecordOf(headers: seq<ProgramHeader>, cmd: Command, r: Relocation) {
    && cmd.Relocate? && cmd.kind.Some? && r.rtype == cmd.kind.value.Number() && r.source == FromProgramHeaderRel2
    && r.targetSegment == Some(cmd.segment) && r.addend == AddendOf(cmd.low)
    && r.sourceSegment.Some? && 0 <= r.sourceSegment.value < |headers|
  }

  ghost predicate RecordsOf(headers: seq<ProgramHeader>, cmds: seq<Command>, relocs: seq<Relocation>) {
    |relocs| == |cmds| && forall k :: 0 <= k < |cmds| ==> RecordOf(headers, cmds[k], relocs[k])
  }

  lemma MeaningRecords(headers: seq<ProgramHeader>, f: Format, start: int, c: Carry, cmd: Command)
    requires Encodable(f, cmd) && Meaning(headers, f, start, c, cmd).Ok?
    ensures var next := Meaning(headers, f, start, c, cmd).value;
            if cmd.Relocate? then exists r :: next.relocs == c.relocs + [r] && RecordOf(headers, cmd, r)
            else next.relocs == c.relocs
  {
    hide Encodable, MipsType.Number;
    var next := Meaning(headers, f, start, c, cmd).value;
    if cmd.Relocate? {
      assert RecordOf(headers, cmd, next.relocs[|c.relocs|]);
    }
  }

  lemma {:induction false} CommandsRecord(
    headers: seq<ProgramHeader>, f: Format, start: int, c: Carry, before: seq<Command>, cmds: seq<Command>)
    requires AllEncodable(f, cmds) && MeaningOfAll(headers, f, start, c, cmds).Ok?
    requires RecordsOf(headers, before, c.relocs)
    ensures RecordsOf(headers, before + Relocates(cmds), MeaningOfAll(headers, f, start, c, cmds).value)
    decreases |cmds|
  {
    hide Encodable, Meaning, RecordsOf, Relocates;
    if cmds == [] {
      NoRelocates(before);
    } else {
      var next := Meaning(headers, f, start, c, cmds[0]).value;
      var taken := if cmds[0].Relocate? then [cmds[0]] else [];
      OneRecord(headers, f, start, c, before, cmds[0]);
      CommandsRecord(headers, f, start, next, before + taken, cmds[1..]);
      RelocatesStep(before, cmds);
    }
  }

  lemma NoRelocates(before: seq<Command>)
    ensures before + Relocates([]) == before
  {
  }

  lemma RelocatesStep(before: seq<Command>, cmds: seq<Command>)
    requires cmds != []
    ensures before + Relocates(cmds) == before + (if cmds[0].Relocate? then [cmds[0]] else []) + Relocates(cmds[1..])
  {
  }

  lemma OneRecord(headers: seq<ProgramHeader>, f: Format, start: int, c: Carry, before: seq<Command>, cmd: Command)
    requires Encodable(f, cmd) && Meaning(headers, f, start, c, cmd).Ok? && RecordsOf(headers, before, c.relocs)
    ensures RecordsOf(headers, before + (if cmd.Relocate? then [cmd] else []),
                      Meaning(headers, f, start, c, cmd).value.relocs)
  {
    hide Encodable, Meaning, RecordOf;
    MeaningRecords(headers, f, start, c, cmd);
    if !cmd.Relocate? {
      assert before + [] == before;
    }
  }

  lemma WrittenRecords(
    data: Bytes, elf: ElfImage, index: int, reserved: (Byte, Byte), f: Format, cmds: seq<Command>, relocs: seq<Relocation>)
    requires WrittenAs(data, elf, index, reserved, f, cmds, relocs)
    ensures RecordsOf(elf.programHeaders, Relocates(cmds), relocs)
  {
    hide MeaningOfAll, EncodeStream, AllEncodable, FormatFits, StandsAt;
    var start := elf.programHeaders[index].offset;
    var c := Carry(start + 4 + |f.flagTable| + |f.typeTable|, 0, 0, []);
    CommandsRecord(elf.programHeaders, f, start, c, [], cmds);
    assert [] + Relocates(cmds) == Relocates(cmds);
  }

  /** The word that the command's record names moves, from `data` to the view, as the type the command was
      written with says: by the view's address of the segment the command names. */
  ghost predicate CommandMoves(data: Bytes, elf: ElfImage, view: ElfImage, cmd: Command, r: Relocation) {
    && RecordOf(elf.programHeaders, cmd, r)
    && var p := elf.programHeaders[r.sourceSegment.value].offset + r.offset;
       && 0 <= p && p + 4 <= |data| == |view.rawData| && cmd.segment < |view.programHeaders|
       && (cmd.kind == Some(High16) ==> !cmd.low.ReuseLow?)
       && Moved(cmd.kind.value, LE(data[p..p + 4]), LE(view.rawData[p..p + 4]), view.programHeaders[cmd.segment].vaddr,
                if cmd.low.ExplicitLow? then cmd.low.value else 0)
  }

  /** In the view built from a written stream every relocation command moves its word. */
  lemma StreamMovesWords(
    data: Bytes, elf: ElfImage, index: int, reserved: (Byte, Byte), f: Format, cmds: seq<Command>,
    relocs: seq<Relocation>, metadata: Metadata, loadAddress: int)
    requires WrittenAs(data, elf, index, reserved, f, cmds, relocs)
    requires Numbered(elf.programHeaders) && WordsApart(elf, relocs)
    requires BuildView(data, elf, Model(relocs, metadata), loadAddress).Ok?
    ensures var view := BuildView(data, elf, Model(relocs, metadata), loadAddress).value.elf;
            && |relocs| == |Relocates(cmds)|
            && forall k :: 0 <= k < |relocs| ==> CommandMoves(data, elf, view, Relocates(cmds)[k], relocs[k])
  {
    hide BuildView, WrittenAs, WordsApart, Relocates, CommandMoves, RecordOf;
    WrittenRecords(data, elf, index, reserved, f, cmds, relocs);
    forall k | 0 <= k < |relocs|
      ensures CommandMoves(data, elf, BuildView(data, elf, Model(relocs, metadata), loadAddress).value.elf,
                           Relocates(cmds)[k], relocs[k])
    {
      RecordMoves(data, elf, Model(relocs, metadata), loadAddress, Relocates(cmds)[k], k);
    }
  }

  lemma RecordMoves(data: Bytes, elf: ElfImage, model: Model, loadAddress: int, cmd: Command, k: nat)
    requires Numbered(elf.programHeaders) && WordsApart(elf, model.relocations)
    requires BuildView(data, elf, model, loadAddress).Ok?
    requires k < |model.relocations| && RecordOf(elf.programHeaders, cmd, model.relocations[k])
    ensures CommandMoves(data, elf, BuildView(data, elf, model, loadAddress).value.elf, cmd, model.relocations[k])
  {
    hide BuildView, Moved, WordsApart, LE, MipsType.Number, Numbered;
    var r, t := model.relocations[k], cmd.kind.value;
    var view := BuildView(data, elf, model, loadAddress).value.elf;
    if t == High16 {
      HighHasAddend(data, elf, model, loadAddress, k);
    }
    RelocatedWord(data, elf, model, loadAddress, k, t, r.sourceSegment.value, cmd.segment);
    if t != High16 {
      var p := elf.programHeaders[r.sourceSegment.value].offset + r.offset;
      LowIgnored(t, LE(data[p..p + 4]), LE(view.rawData[p..p + 4]), view.programHeaders[cmd.segment].vaddr, 0,
                 if cmd.low.ExplicitLow? then cmd.low.value else 0);
    }
  }

  /** A Type-B HI16 never looks for a companion, so a view is built only when it has an addend. */
  lemma HighHasAddend(data: Bytes, elf: ElfImage, model: Model, loadAddress: int, k: nat)
    requires Numbered(elf.programHeaders) && BuildView(data, elf, model, loadAddress).Ok? && k < |model.relocations|
    requires model.relocations[k].rtype == High16.Number() && model.relocations[k].source == FromProgramHeaderRel2
    ensures model.relocations[k].addend.Some?
  {
    hide BuildView, CompanionOf, WordInFile, TableEndRefused, LayoutFits, LoadedSegments, LowestVaddr, Relocatable;
    ViewBuiltIff(data, elf, model, loadAddress);
    RelocatableIff(elf, |data|, model.relocations, k);
  }

  /** An HI16 command and an LO16 command (codes 4 and 5) for one target: when the HI16 was written with the
      low half that the LO16's word holds, the address the two words build moves by the target's address. */
  lemma CommandsMovePair(
    data: Bytes, elf: ElfImage, view: ElfImage, hi: Command, lo: Command, a: Relocation, b: Relocation)
    requires CommandMoves(data, elf, view, hi, a) && CommandMoves(data, elf, view, lo, b)
    requires hi.kind == Some(High16) && lo.kind == Some(Low16) && hi.segment == lo.segment
    requires var q := elf.programHeaders[b.sourceSegment.value].offset + b.offset;
             (if hi.low.ExplicitLow? then hi.low.value else 0) == Signed16(LE(data[q..q + 4]))
    ensures var p := elf.programHeaders[a.sourceSegment.value].offset + a.offset;
            var q := elf.programHeaders[b.sourceSegment.value].offset + b.offset;
            PairMoved(LE(data[p..p + 4]), LE(data[q..q + 4]), LE(view.rawData[p..p + 4]), LE(view.rawData[q..q + 4]),
                      view.programHeaders[hi.segment].vaddr)
  {
    hide Moved, PairMoved, LE, Signed16, MipsType.Number;
    var p := elf.programHeaders[a.sourceSegment.value].offset + a.offset;
    var q := elf.programHeaders[b.sourceSegment.value].offset + b.offset;
    var base := view.programHeaders[hi.segment].vaddr;
    LowIgnored(Low16, LE(data[q..q + 4]), LE(view.rawData[q..q + 4]), base,
               if lo.low.ExplicitLow? then lo.low.value else 0, 0);
    PairMoves(LE(data[p..p + 4]), LE(data[q..q + 4]), LE(view.rawData[p..p + 4]), LE(view.rawData[q..q + 4]), base, Low16);
  }
}
