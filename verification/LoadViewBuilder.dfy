/** `build_relocated_load_view`: the loop that patches a copy of the input in place. */
module LoadViewBuilder {
  import opened Prelude
  import opened ByteStrings
  import opened ElfModel
  import opened RelocationWords
  import opened LoadView
  import opened LoadViewTheorems
  import opened Rebase

  datatype Model = Model(relocations: seq<Relocation>, metadata: Metadata)

  datatype View = View(
    loadAddress: int, originalImageBase: int, addressDelta: int, segmentBases: map<int, int>,
    appliedRelocations: nat, elf: ElfImage, model: Model)

  /** The dictionary from segment index to load base; a repeated index keeps its last segment. */
  function SegmentBases(loads: seq<ProgramHeader>, delta: int): map<int, int> {
    if loads == [] then map[]
    else
      var last := loads[|loads| - 1];
      SegmentBases(loads[..|loads| - 1], delta)[last.index := last.vaddr + delta]
  }

  /** Every header carries its own position, as the ELF parser numbers them. */
  ghost predicate Numbered(headers: seq<ProgramHeader>) {
    forall i :: 0 <= i < |headers| ==> headers[i].index == i
  }

  lemma {:induction false} BasesOfLoads(loads: seq<ProgramHeader>, delta: int)
    requires Ascending(loads)
    ensures forall k :: k in SegmentBases(loads, delta) <==> exists s :: s in loads && s.index == k
    ensures forall s :: s in loads ==> SegmentBases(loads, delta)[s.index] == s.vaddr + delta
  {
    if loads != [] {
      var n := |loads| - 1;
      BasesOfLoads(loads[..n], delta);
      assert loads == loads[..n] + [loads[n]];
    }
  }

  ghost predicate Ascending(headers: seq<ProgramHeader>) {
    forall i, j :: 0 <= i < j < |headers| ==> headers[i].index < headers[j].index
  }

  lemma {:induction false} LoadsKeepOrder(headers: seq<ProgramHeader>)
    requires Ascending(headers)
    ensures Ascending(LoadedSegments(headers))
  {
    if headers != [] {
      var rest := LoadedSegments(headers[1..]);
      LoadsKeepOrder(headers[1..]);
      forall j | 0 <= j < |rest| ensures headers[0].index < rest[j].index {
        assert rest[j] in headers[1..];
      }
      assert LoadedSegments(headers) == if headers[0].Loaded() then [headers[0]] + rest else rest;
    }
  }

  /** The base table of numbered headers: exactly the non-empty loads, each at its shifted address. */
  lemma {:induction false} BasesExact(elf: ElfImage, delta: int, k: int)
    requires Numbered(elf.programHeaders)
    ensures var bases := SegmentBases(LoadedSegments(elf.programHeaders), delta);
            && (k in bases <==> 0 <= k < |elf.programHeaders| && elf.programHeaders[k].Loaded())
            && (k in bases ==> bases[k] == elf.programHeaders[k].vaddr + delta)
  {
    var loads := LoadedSegments(elf.programHeaders);
    LoadsKeepOrder(elf.programHeaders);
    BasesOfLoads(loads, delta);
    if 0 <= k < |elf.programHeaders| && elf.programHeaders[k].Loaded() {
      assert elf.programHeaders[k] in loads;
    }
  }

  function BuildView(data: Bytes, elf: ElfImage, model: Model, loadAddress: int): Result<View, LoadError> {
    if !elf.littleEndian then Err(BigEndian)
    else if !(0 <= loadAddress < 0x1_0000_0000) then Err(BadLoadAddress)
    else
      var loads := LoadedSegments(elf.programHeaders);
      if loads == [] then Err(NoLoadedSegment)
      else
        var base := LowestVaddr(loads);
        var delta := loadAddress - base;
        if !(-0x1_0000_0000 < delta < 0x1_0000_0000) then Err(DeltaOutOfRange)
        else if !LayoutFits(elf, delta) then Err(LayoutOutside32Bit)
        else
          var bases := SegmentBases(loads, delta);
          var image :- Patched(data, elf, bases, model.relocations, |model.relocations|);
          var metadata :- RebaseMetadata(elf, model.metadata, delta);
          Ok(View(loadAddress, base, delta, bases, |model.relocations|, RebaseElf(elf, image, delta),
                  Model(model.relocations, metadata)))
  }

  method BuildRelocatedLoadView(data: Bytes, elf: ElfImage, model: Model, loadAddress: int)
    returns (r: Result<View, LoadError>)
    ensures r == BuildView(data, elf, model, loadAddress)
  {
    hide Patched, RebaseMetadata, LayoutFits;
    if !elf.littleEndian {
      return Err(BigEndian);
    }
    if loadAddress < 0 || loadAddress > 0xFFFF_FFFF {
      return Err(BadLoadAddress);
    }
    var loads := LoadedSegments(elf.programHeaders);
    if loads == [] {
      return Err(NoLoadedSegment);
    }
    var base := LowestVaddr(loads);
    var delta := loadAddress - base;
    if !(-0x1_0000_0000 < delta < 0x1_0000_0000) {
      return Err(DeltaOutOfRange);
    }
    if !LayoutFits(elf, delta) {
      return Err(LayoutOutside32Bit);
    }
    var bases := SegmentBases(loads, delta);
    var image := ApplyRelocations(data, elf, bases, model.relocations);
    if image.Err? {
      return Err(image.error);
    }
    var metadata := RebaseMetadata(elf, model.metadata, delta);
    if metadata.Err? {
      return Err(metadata.error);
    }
    r := Ok(View(loadAddress, base, delta, bases, |model.relocations|, RebaseElf(elf, image.value, delta),
                 Model(model.relocations, metadata.value)));
  }

  /** The patch loop: a fresh byte array, changed one word at a time. */
  method ApplyRelocations(data: Bytes, elf: ElfImage, bases: map<int, int>, relocs: seq<Relocation>)
    returns (r: Result<Bytes, LoadError>)
    ensures r == Patched(data, elf, bases, relocs, |relocs|)
  {
    hide *;
    var patched := new Byte[|data|](i requires 0 <= i < |data| => data[i]);
    assert patched[..] == data;
    PatchedStart(data, elf, bases, relocs);
    var applied := 0;
    while applied < |relocs|
      invariant 0 <= applied <= |relocs| && patched.Length == |data|
      invariant Patched(data, elf, bases, relocs, applied) == Ok(patched[..])
    {
      PatchedStep(data, elf, bases, relocs, applied, patched[..]);
      var step := Site(elf, patched.Length, relocs[applied]);
      if step.Err? {
        StuckPatch(data, elf, bases, relocs, applied, |relocs|, step.error);
        return Err(step.error);
      }
      var word := NewWord(data, elf, bases, relocs, applied, WordAt(patched[..], step.value));
      if word.Err? {
        StuckPatch(data, elf, bases, relocs, applied, |relocs|, word.error);
        return Err(word.error);
      }
      WriteWord(patched, step.value, word.value);
      applied := applied + 1;
    }
    r := Ok(patched[..]);
  }

  method WriteWord(image: array<Byte>, offset: nat, word: nat)
    requires offset + 4 <= image.Length
    modifies image
    ensures image[..] == Patch(old(image[..]), offset, word)
  {
    var bytes := LEBytes(word, 4);
    forall k | 0 <= k < 4 {
      image[offset + k] := bytes[k];
    }
  }

  /** A step that raises makes the whole loop raise that error. */
  lemma {:induction false} StuckPatch(data: Bytes, elf: ElfImage, bases: map<int, int>, relocs: seq<Relocation>,
                                      k: nat, n: nat, e: LoadError)
    requires k < n <= |relocs| && Patched(data, elf, bases, relocs, k).Ok?
    requires Patched(data, elf, bases, relocs, k + 1) == Err(e)
    ensures Patched(data, elf, bases, relocs, n) == Err(e)
    decreases n
  {
    hide Site, NewWord;
    if n > k + 1 {
      StuckPatch(data, elf, bases, relocs, k, n - 1, e);
    }
  }

  // ---- The built view ----

  /** The view is as long as the input, and a byte that no relocation covers is the input's. */
  lemma {:induction false} ViewFrame(data: Bytes, elf: ElfImage, model: Model, loadAddress: int, p: nat)
    requires BuildView(data, elf, model, loadAddress).Ok? && p < |data|
    requires forall k :: 0 <= k < |model.relocations| ==> !Covers(elf, |data|, model.relocations[k], p)
    ensures var image := BuildView(data, elf, model, loadAddress).value.elf.rawData;
            |image| == |data| && image[p] == data[p]
  {
    hide BuildView, Patched, Covers, SegmentBases, LayoutFits;
    ViewParts(data, elf, model, loadAddress);
    var view := BuildView(data, elf, model, loadAddress).value;
    Frame(data, elf, view.segmentBases, model.relocations, |model.relocations|, p);
  }

  /** With disjoint source words each word of the view is the input word relocated by the new address of
      its target segment, as the view's own headers give it. */
  lemma {:induction false} ViewWords(data: Bytes, elf: ElfImage, model: Model, loadAddress: int, k: nat)
    requires Numbered(elf.programHeaders)
    requires BuildView(data, elf, model, loadAddress).Ok?
    requires SitesDisjoint(elf, |data|, model.relocations) && k < |model.relocations|
    ensures var image := BuildView(data, elf, model, loadAddress).value.elf;
            var r := model.relocations[k];
            var t, site, low := TargetIndex(r), Site(elf, |data|, r), LowHalfFor(data, elf, model.relocations, k);
            && site.Ok? && low.Ok? && |image.rawData| == |data| && 0 <= t < |image.programHeaders|
            && ApplyWord(WordAt(data, site.value), r, image.programHeaders[t].vaddr, low.value)
               == Ok(WordAt(image.rawData, site.value))
  {
    hide BuildView, Patched, SitesDisjoint, WordAt, SegmentBases, LayoutFits, ApplyWord, Site, LowHalfFor;
    ViewParts(data, elf, model, loadAddress);
    var view := BuildView(data, elf, model, loadAddress).value;
    WordsExact(data, elf, view.segmentBases, model.relocations, |model.relocations|, k);
    BasesExact(elf, view.addressDelta, TargetIndex(model.relocations[k]));
  }

  /** A built view of numbered headers: every Type-A pair builds its input address moved by the new
      address of the target segment. */
  lemma {:induction false} ViewTheorem(data: Bytes, elf: ElfImage, model: Model, loadAddress: int, i: nat, j: nat)
    requires Numbered(elf.programHeaders)
    requires BuildView(data, elf, model, loadAddress).Ok?
    requires SitesDisjoint(elf, |data|, model.relocations)
    requires i < |model.relocations| && TypeAHi16(model.relocations[i])
    requires FirstCompanion(model.relocations, model.relocations[i], i + 1) == Some(j)
    ensures var view := BuildView(data, elf, model, loadAddress).value;
            var t := TargetIndex(model.relocations[i]);
            var hi, lo := Site(elf, |data|, model.relocations[i]), Site(elf, |data|, model.relocations[j]);
            && hi.Ok? && lo.Ok? && |view.elf.rawData| == |data|
            && 0 <= t < |view.elf.programHeaders|
            && Congruent32(Ahl(WordAt(view.elf.rawData, hi.value), WordAt(view.elf.rawData, lo.value)),
                           Ahl(WordAt(data, hi.value), WordAt(data, lo.value)) + view.elf.programHeaders[t].vaddr)
            && WordAt(view.elf.rawData, hi.value) / 0x1_0000 == WordAt(data, hi.value) / 0x1_0000
            && WordAt(view.elf.rawData, lo.value) / 0x1_0000 == WordAt(data, lo.value) / 0x1_0000
  {
    hide BuildView, Patched, SitesDisjoint, Ahl, Congruent32, WordAt, FirstCompanion, SegmentBases;
    ViewParts(data, elf, model, loadAddress);
    var view := BuildView(data, elf, model, loadAddress).value;
    HighLowPairMoves(data, elf, view.segmentBases, model.relocations, i, j);
    BasesExact(elf, view.addressDelta, TargetIndex(model.relocations[i]));
  }

  /** What the builder asks of one relocation, with its target among the non-empty loads. */
  predicate Relocatable(elf: ElfImage, size: nat, relocs: seq<Relocation>, k: nat)
    requires k < |relocs|
  {
    var t := TargetIndex(relocs[k]);
    && 0 <= t < |elf.programHeaders| && elf.programHeaders[t].Loaded()
    && Site(elf, size, relocs[k]).Ok? && SupportedType(relocs[k].rtype) && LowHalfAtHand(elf, size, relocs, k)
  }

  /** A view is built exactly for a little-endian image with a load, at a 32-bit address that keeps the
      layout inside 32 bits, when every relocation applies and no table end lands on 2^32. */
  lemma {:induction false} ViewBuiltIff(data: Bytes, elf: ElfImage, model: Model, loadAddress: int)
    requires Numbered(elf.programHeaders)
    ensures BuildView(data, elf, model, loadAddress).Ok?
       <==> && elf.littleEndian && 0 <= loadAddress < 0x1_0000_0000
            && LoadedSegments(elf.programHeaders) != []
            && var delta := loadAddress - LowestVaddr(LoadedSegments(elf.programHeaders));
               && -0x1_0000_0000 < delta < 0x1_0000_0000 && LayoutFits(elf, delta)
               && (forall k: nat :: k < |model.relocations| ==>
                     Relocatable(elf, |data|, model.relocations, k))
               && !TableEndRefused(elf, model.metadata, delta)
  {
    hide Patched, RebaseMetadata, LayoutFits, SegmentBases, LoadedSegments, LowestVaddr, Site, LowHalfAtHand,
      SupportedType, TableEndRefused, RebaseElf;
    var loads := LoadedSegments(elf.programHeaders);
    if loads != [] {
      var delta := loadAddress - LowestVaddr(loads);
      var bases := SegmentBases(loads, delta);
      forall k: nat | k < |model.relocations|
        ensures Applies(elf, |data|, bases, model.relocations, k) == Relocatable(elf, |data|, model.relocations, k)
      {
        BasesExact(elf, delta, TargetIndex(model.relocations[k]));
      }
      PatchSucceedsIff(data, elf, bases, model.relocations, |model.relocations|);
      if LayoutFits(elf, delta) {
        MetadataRefusedIff(elf, model.metadata, delta);
      }
    }
  }

  lemma {:induction false} ViewParts(data: Bytes, elf: ElfImage, model: Model, loadAddress: int)
    requires BuildView(data, elf, model, loadAddress).Ok?
    ensures var view := BuildView(data, elf, model, loadAddress).value;
            && view.segmentBases == SegmentBases(LoadedSegments(elf.programHeaders), view.addressDelta)
            && Patched(data, elf, view.segmentBases, model.relocations, |model.relocations|) == Ok(view.elf.rawData)
            && view.elf == RebaseElf(elf, view.elf.rawData, view.addressDelta)
            && LayoutFits(elf, view.addressDelta)
            && view.appliedRelocations == |model.relocations|
  {
    hide Patched, RebaseMetadata, LayoutFits, SegmentBases, LoadedSegments, LowestVaddr;
  }
}
