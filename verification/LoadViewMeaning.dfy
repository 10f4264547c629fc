/** What a built load view does to the file, said with the file's own records: program headers, the
    fields of each relocation and the little-endian words at the positions they name. */
module LoadViewMeaning {
  import opened Prelude
  import opened ByteStrings
  import opened ElfModel
  import opened RelocationWords
  import opened LoadView
  import opened LoadViewTheorems
  import opened LoadViewBuilder
  import opened Rebase

  /** `index` is the explicit segment index, or without one the byte of `info` counted in `unit`s. */
  predicate Names(explicit: Option<int>, info: int, unit: nat, index: int)
    requires unit > 0
  {
    explicit == Some(index) || (explicit.None? && index == info / unit % 0x100)
  }

  /** The word a relocation names: `r.offset` bytes into its source segment, at file position `p`. */
  ghost predicate NamesWord(elf: ElfImage, r: Relocation, p: int) {
    exists s :: 0 <= s < |elf.programHeaders| && Names(r.sourceSegment, r.info, 0x100, s)
                && p == elf.programHeaders[s].offset + r.offset
  }

  /** The relocations name words no two of which share a byte. */
  ghost predicate WordsApart(elf: ElfImage, relocs: seq<Relocation>) {
    forall i, j, p, q :: 0 <= i < j < |relocs| && NamesWord(elf, relocs[i], p) && NamesWord(elf, relocs[j], q) ==>
      p + 4 <= q || q + 4 <= p
  }

  lemma SiteIsNamed(elf: ElfImage, size: nat, r: Relocation, p: int)
    requires Site(elf, size, r).Ok?
    ensures NamesWord(elf, r, p) <==> Site(elf, size, r).value == p
    ensures forall s :: Names(r.sourceSegment, r.info, 0x100, s) ==>
              && 0 <= s < |elf.programHeaders| && elf.programHeaders[s].ptype == 1
              && 0 <= r.offset && r.offset + 4 <= elf.programHeaders[s].filesz
              && Site(elf, size, r).value == elf.programHeaders[s].offset + r.offset
  {
    assert Names(r.sourceSegment, r.info, 0x100, SourceIndex(r));
  }

  lemma SitesApart(elf: ElfImage, size: nat, relocs: seq<Relocation>)
    requires WordsApart(elf, relocs)
    ensures SitesDisjoint(elf, size, relocs)
  {
    hide Site, NamesWord;
    forall i, j, p | 0 <= i < j < |relocs| && Covers(elf, size, relocs[i], p)
      ensures !Covers(elf, size, relocs[j], p)
    {
      if Site(elf, size, relocs[j]).Ok? {
        SiteIsNamed(elf, size, relocs[i], Site(elf, size, relocs[i]).value);
        SiteIsNamed(elf, size, relocs[j], Site(elf, size, relocs[j]).value);
      }
    }
  }

  // ---- The view ----

  /** The file keeps its length, and every byte outside the named words. */
  lemma UntouchedByte(data: Bytes, elf: ElfImage, model: Model, loadAddress: int, p: nat)
    requires BuildView(data, elf, model, loadAddress).Ok? && p < |data|
    requires forall k, s :: 0 <= k < |model.relocations| && 0 <= s < |elf.programHeaders|
                            && Names(model.relocations[k].sourceSegment, model.relocations[k].info, 0x100, s) ==>
               var q := elf.programHeaders[s].offset + model.relocations[k].offset;
               !(q <= p < q + 4)
    ensures var image := BuildView(data, elf, model, loadAddress).value.elf.rawData;
            |image| == |data| && image[p] == data[p]
  {
    hide BuildView, Site;
    forall k | 0 <= k < |model.relocations| ensures !Covers(elf, |data|, model.relocations[k], p) {
      var r := model.relocations[k];
      if Site(elf, |data|, r).Ok? {
        SiteIsNamed(elf, |data|, r, Site(elf, |data|, r).value);
      }
    }
    ViewFrame(data, elf, model, loadAddress, p);
  }

  /** The word that relocation `k` names in its source segment `s` moves by the address the view gives its
      target segment `d`, as the relocation's type says. */
  lemma RelocatedWord(data: Bytes, elf: ElfImage, model: Model, loadAddress: int, k: nat, t: MipsType, s: int, d: int)
    requires Numbered(elf.programHeaders) && BuildView(data, elf, model, loadAddress).Ok?
    requires WordsApart(elf, model.relocations) && k < |model.relocations|
    requires var r := model.relocations[k];
             && r.rtype == t.Number() && (t == High16 ==> r.addend.Some?)
             && Names(r.sourceSegment, r.info, 0x100, s) && Names(r.targetSegment, r.info, 0x1_0000, d)
    ensures var r, view := model.relocations[k], BuildView(data, elf, model, loadAddress).value.elf;
            && 0 <= s < |elf.programHeaders| && 0 <= d < |view.programHeaders|
            && 0 <= r.offset && r.offset + 4 <= elf.programHeaders[s].filesz
            && var p := elf.programHeaders[s].offset + r.offset;
               && 0 <= p && p + 4 <= |data| == |view.rawData|
               && Moved(t, LE(data[p..p + 4]), LE(view.rawData[p..p + 4]), view.programHeaders[d].vaddr,
                        if t == High16 then r.addend.value else 0)
  {
    hide BuildView, Site, Moved, ApplyWord, WordsApart, LE;
    var r := model.relocations[k];
    SitesApart(elf, |data|, model.relocations);
    ViewWords(data, elf, model, loadAddress, k);
    SiteIsNamed(elf, |data|, r, Site(elf, |data|, r).value);
    var view, p := BuildView(data, elf, model, loadAddress).value.elf, Site(elf, |data|, r).value;
    WordIs32Bit(data, p);
    ApplyWordIff(t, WordAt(data, p), r, view.programHeaders[d].vaddr, None, WordAt(view.rawData, p));
    if t != High16 {
      LowIgnored(t, WordAt(data, p), WordAt(view.rawData, p), view.programHeaders[d].vaddr,
                 if r.addend.Some? then r.addend.value else 0, 0);
    }
  }

  lemma LowIgnored(t: MipsType, before: int, after: int, base: int, low: int, other: int)
    requires t != High16
    ensures Moved(t, before, after, base, low) <==> Moved(t, before, after, base, other)
  {
    hide TargetMoved;
  }

  // ---- A Type-A HI16 and its low half ----

  /** `b` is a low half for segments that `a` names too. */
  ghost predicate Pairs(a: Relocation, b: Relocation) {
    && (b.rtype == 1 || b.rtype == 6)
    && exists s, d ::
         && Names(a.sourceSegment, a.info, 0x100, s) && Names(b.sourceSegment, b.info, 0x100, s)
         && Names(a.targetSegment, a.info, 0x1_0000, d) && Names(b.targetSegment, b.info, 0x1_0000, d)
  }

  /** The first low half after the HI16 at `i` that names its segments. */
  ghost predicate CompanionOf(relocs: seq<Relocation>, i: nat, j: nat) {
    i < j < |relocs| && Pairs(relocs[i], relocs[j]) && forall m :: i < m < j ==> !Pairs(relocs[i], relocs[m])
  }

  lemma PairsIff(a: Relocation, b: Relocation)
    ensures Pairs(a, b) <==> IsCompanion(a, b)
  {
    if IsCompanion(a, b) {
      assert Names(a.sourceSegment, a.info, 0x100, SourceIndex(a)) && Names(a.targetSegment, a.info, 0x1_0000, TargetIndex(a));
      assert Names(b.sourceSegment, b.info, 0x100, SourceIndex(a)) && Names(b.targetSegment, b.info, 0x1_0000, TargetIndex(a));
    }
  }

  lemma CompanionIff(relocs: seq<Relocation>, i: nat, j: nat)
    requires i < |relocs|
    ensures CompanionOf(relocs, i, j) <==> FirstCompanion(relocs, relocs[i], i + 1) == Some(j)
  {
    hide Pairs, IsCompanion;
    forall m | 0 <= m < |relocs| ensures Pairs(relocs[i], relocs[m]) <==> IsCompanion(relocs[i], relocs[m]) {
      PairsIff(relocs[i], relocs[m]);
    }
    var first := FirstCompanion(relocs, relocs[i], i + 1);
    hide FirstCompanion;
  }

  /** The two words a Type-A HI16 and its low half name in their segment `s` keep their upper halves and
      build the address they built in the input, moved by the view's address of their target `d`. */
  lemma RelocatedPair(data: Bytes, elf: ElfImage, model: Model, loadAddress: int, i: nat, j: nat, s: int, d: int)
    requires Numbered(elf.programHeaders) && BuildView(data, elf, model, loadAddress).Ok?
    requires WordsApart(elf, model.relocations)
    requires i < j < |model.relocations| && CompanionOf(model.relocations, i, j)
    requires var r := model.relocations[i];
             && TypeAHi16(r) && Names(r.sourceSegment, r.info, 0x100, s) && Names(r.targetSegment, r.info, 0x1_0000, d)
    ensures var view := BuildView(data, elf, model, loadAddress).value.elf;
            && 0 <= s < |elf.programHeaders| && 0 <= d < |view.programHeaders|
            && var p := elf.programHeaders[s].offset + model.relocations[i].offset;
               var q := elf.programHeaders[s].offset + model.relocations[j].offset;
               && 0 <= p && p + 4 <= |data| == |view.rawData| && 0 <= q && q + 4 <= |data|
               && PairMoved(LE(data[p..p + 4]), LE(data[q..q + 4]), LE(view.rawData[p..p + 4]), LE(view.rawData[q..q + 4]),
                            view.programHeaders[d].vaddr)
  {
    hide *;
    var r, companion := model.relocations[i], model.relocations[j];
    PairedSites(data, elf, model, loadAddress, i, j);
    CompanionNames(model.relocations, i, j, s);
    TargetNamed(r, d);
    NamedSite(elf, |data|, r, s);
    NamedSite(elf, |data|, companion, s);
    var view := BuildView(data, elf, model, loadAddress).value.elf;
    WordsAre(data, view.rawData, Site(elf, |data|, r).value);
    WordsAre(data, view.rawData, Site(elf, |data|, companion).value);
  }

  lemma NamedSite(elf: ElfImage, size: nat, r: Relocation, s: int)
    requires Site(elf, size, r).Ok? && Names(r.sourceSegment, r.info, 0x100, s)
    ensures 0 <= s < |elf.programHeaders| && Site(elf, size, r).value == elf.programHeaders[s].offset + r.offset
  {
  }

  lemma WordsAre(a: Bytes, b: Bytes, p: int)
    requires 0 <= p && p + 4 <= |a| == |b|
    ensures WordAt(a, p) == LE(a[p..p + 4]) && WordAt(b, p) == LE(b[p..p + 4])
  {
  }

  lemma TargetNamed(r: Relocation, d: int)
    requires Names(r.targetSegment, r.info, 0x1_0000, d)
    ensures d == TargetIndex(r)
  {
  }

  lemma PairedSites(data: Bytes, elf: ElfImage, model: Model, loadAddress: int, i: nat, j: nat)
    requires Numbered(elf.programHeaders) && BuildView(data, elf, model, loadAddress).Ok?
    requires WordsApart(elf, model.relocations)
    requires i < j < |model.relocations| && CompanionOf(model.relocations, i, j)
    requires TypeAHi16(model.relocations[i])
    ensures var view, t := BuildView(data, elf, model, loadAddress).value.elf, TargetIndex(model.relocations[i]);
            var hi, lo := Site(elf, |data|, model.relocations[i]), Site(elf, |data|, model.relocations[j]);
            && hi.Ok? && lo.Ok? && |view.rawData| == |data| && 0 <= t < |view.programHeaders|
            && PairMoved(WordAt(data, hi.value), WordAt(data, lo.value),
                         WordAt(view.rawData, hi.value), WordAt(view.rawData, lo.value), view.programHeaders[t].vaddr)
  {
    hide *;
    CompanionIff(model.relocations, i, j);
    SitesApart(elf, |data|, model.relocations);
    ViewTheorem(data, elf, model, loadAddress, i, j);
    var view, t := BuildView(data, elf, model, loadAddress).value.elf, TargetIndex(model.relocations[i]);
    var hi, lo := Site(elf, |data|, model.relocations[i]).value, Site(elf, |data|, model.relocations[j]).value;
    CongruentPair(WordAt(data, hi), WordAt(data, lo), WordAt(view.rawData, hi), WordAt(view.rawData, lo),
                  view.programHeaders[t].vaddr);
  }

  lemma CongruentPair(hi: int, lo: int, hi': int, lo': int, base: int)
    requires Congruent32(Ahl(hi', lo'), Ahl(hi, lo) + base)
    requires hi' / 0x1_0000 == hi / 0x1_0000 && lo' / 0x1_0000 == lo / 0x1_0000
    ensures PairMoved(hi, lo, hi', lo', base)
  {
    AhlIs(hi, lo);
    AhlIs(hi', lo');
    hide Ahl, Signed16;
  }

  lemma CompanionNames(relocs: seq<Relocation>, i: nat, j: nat, s: int)
    requires CompanionOf(relocs, i, j) && Names(relocs[i].sourceSegment, relocs[i].info, 0x100, s)
    ensures Names(relocs[j].sourceSegment, relocs[j].info, 0x100, s)
  {
  }

  lemma AhlIs(hi: int, lo: int)
    ensures Ahl(hi, lo) == hi % 0x1_0000 * 0x1_0000 + Signed16(lo)
  {
  }

  // ---- When a view is built ----

  /** What the builder asks of relocation `k`, field by field: two loads, the target non-empty; a word inside
      the source's file extent and the file; a known type; and for an HI16 without an addend a Type-A
      record whose companion names such a word. */
  ghost predicate FieldsRelocatable(elf: ElfImage, size: nat, relocs: seq<Relocation>, k: nat)
    requires k < |relocs|
  {
    var r := relocs[k];
    && (exists d :: 0 <= d < |elf.programHeaders| && Names(r.targetSegment, r.info, 0x1_0000, d)
                    && elf.programHeaders[d].ptype == 1 && elf.programHeaders[d].memsz > 0)
    && WordInFile(elf, size, r)
    && (exists t: MipsType :: t.Number() == r.rtype)
    && (r.rtype == 5 && r.addend.None? ==>
          r.source != FromProgramHeaderRel2
          && exists j: nat :: CompanionOf(relocs, k, j) && WordInFile(elf, size, relocs[j]))
  }

  ghost predicate WordInFile(elf: ElfImage, size: nat, r: Relocation) {
    exists s :: 0 <= s < |elf.programHeaders| && Names(r.sourceSegment, r.info, 0x100, s)
                && elf.programHeaders[s].ptype == 1 && 0 <= r.offset && r.offset + 4 <= elf.programHeaders[s].filesz
                && 0 <= elf.programHeaders[s].offset + r.offset && elf.programHeaders[s].offset + r.offset + 4 <= size
  }

  lemma WordInFileIff(elf: ElfImage, size: nat, r: Relocation)
    ensures WordInFile(elf, size, r)
       <==> var offset := SourceFileOffset(elf, r); offset.Ok? && 0 <= offset.value && offset.value + 4 <= size
  {
    assert Names(r.sourceSegment, r.info, 0x100, SourceIndex(r));
  }

  lemma KnownTypes(rtype: int)
    ensures SupportedType(rtype) <==> exists t: MipsType :: t.Number() == rtype
  {
    assert Nothing.Number() == 0 && Half16.Number() == 1 && Word32.Number() == 2 && Jump26.Number() == 4;
    assert High16.Number() == 5 && Low16.Number() == 6 && GpRelative.Number() == 7;
    assert ForcedJ.Number() == 14 && ForcedJal.Number() == 15;
  }

  lemma RelocatableIff(elf: ElfImage, size: nat, relocs: seq<Relocation>, k: nat)
    requires k < |relocs|
    ensures Relocatable(elf, size, relocs, k) <==> FieldsRelocatable(elf, size, relocs, k)
  {
    hide SupportedType, SourceFileOffset, FirstCompanion, CompanionOf, WordInFile;
    var r := relocs[k];
    KnownTypes(r.rtype);
    WordInFileIff(elf, size, r);
    assert Names(r.targetSegment, r.info, 0x1_0000, TargetIndex(r));
    forall j: nat ensures CompanionOf(relocs, k, j) <==> FirstCompanion(relocs, r, k + 1) == Some(j) {
      CompanionIff(relocs, k, j);
    }
    forall j | 0 <= j < |relocs|
      ensures WordInFile(elf, size, relocs[j])
         <==> var offset := SourceFileOffset(elf, relocs[j]);
              offset.Ok? && 0 <= offset.value && offset.value + 4 <= size
    {
      WordInFileIff(elf, size, relocs[j]);
    }
  }

  // ---- Headers, sections and metadata of the view ----

  /** Non-empty loads and allocated sections of an image lie inside the 32-bit address space. */
  ghost predicate Fits32(elf: ElfImage) {
    && (forall i :: 0 <= i < |elf.programHeaders| ==>
          var s := elf.programHeaders[i];
          s.ptype == 1 && s.memsz > 0 ==>
            0 <= s.vaddr && s.vaddr + s.memsz <= 0x1_0000_0000 && 0 <= s.paddr < 0x1_0000_0000)
    && (forall i :: 0 <= i < |elf.sections| ==>
          var s := elf.sections[i];
          s.flags / 2 % 2 == 1 && s.size > 0 ==> 0 <= s.addr && s.addr + s.size <= 0x1_0000_0000)
  }

  /** The layout check looks ahead: it accepts exactly the deltas whose rebased image fits. */
  lemma LayoutFitsIff(elf: ElfImage, data: Bytes, delta: int)
    ensures LayoutFits(elf, delta) <==> Fits32(RebaseElf(elf, data, delta))
  {
    hide InLoaded;
    var view := RebaseElf(elf, data, delta);
    forall i | 0 <= i < |elf.programHeaders|
      ensures view.programHeaders[i] == ShiftHeader(elf.programHeaders[i], delta)
    {
    }
    forall i | 0 <= i < |elf.sections| ensures view.sections[i] == ShiftSection(elf.sections[i], delta) {
    }
    if LayoutFits(elf, delta) {
      FittingFits(elf, view, delta);
    }
    if Fits32(view) {
      FitsBack(elf, view, delta);
    }
  }

  lemma FittingFits(elf: ElfImage, view: ElfImage, delta: int)
    requires LayoutFits(elf, delta)
    requires view.programHeaders == ShiftHeaders(elf.programHeaders, delta)
    requires view.sections == ShiftSections(elf.sections, delta)
    ensures Fits32(view)
  {
  }

  lemma FitsBack(elf: ElfImage, view: ElfImage, delta: int)
    requires Fits32(view)
    requires view.programHeaders == ShiftHeaders(elf.programHeaders, delta)
    requires view.sections == ShiftSections(elf.sections, delta)
    ensures LayoutFits(elf, delta)
  {
    forall i | 0 <= i < |elf.programHeaders| && elf.programHeaders[i].Loaded()
      ensures var s := elf.programHeaders[i];
              && 0 <= s.vaddr + delta && s.vaddr + delta + s.memsz <= 0x1_0000_0000
              && 0 <= s.paddr + delta < 0x1_0000_0000
    {
      assert view.programHeaders[i] == ShiftHeader(elf.programHeaders[i], delta);
    }
    forall i | 0 <= i < |elf.sections| && elf.sections[i].Allocated()
      ensures var s := elf.sections[i];
              0 <= s.addr + delta < 0x1_0000_0000 && s.addr + delta + s.size <= 0x1_0000_0000
    {
      assert view.sections[i] == ShiftSection(elf.sections[i], delta);
    }
  }

  /** The loads of `view` are those of `elf` moved by `delta`, the lowest non-empty one to `lowest`; nothing
      but their addresses changes. */
  ghost predicate LoadsMoved(elf: ElfImage, view: ElfImage, delta: int, lowest: int) {
    && |view.programHeaders| == |elf.programHeaders|
    && (exists l :: 0 <= l < |elf.programHeaders| && elf.programHeaders[l].ptype == 1
                    && elf.programHeaders[l].memsz > 0 && view.programHeaders[l].vaddr == lowest)
    && (forall l :: 0 <= l < |elf.programHeaders| ==>
          var s, s' := elf.programHeaders[l], view.programHeaders[l];
          && (s.ptype == 1 && s.memsz > 0 ==> s'.vaddr >= lowest)
          && s' == if s.ptype == 1 then s.(vaddr := s.vaddr + delta, paddr := s.paddr + delta) else s)
  }

  /** The lowest non-empty load of the view stands at the load address, and every load has moved by the
      same distance, and the view fits the address space. */
  lemma ViewLoads(data: Bytes, elf: ElfImage, model: Model, loadAddress: int)
    requires BuildView(data, elf, model, loadAddress).Ok?
    ensures var view := BuildView(data, elf, model, loadAddress).value;
            && view.loadAddress == loadAddress && 0 <= loadAddress < 0x1_0000_0000
            && view.originalImageBase + view.addressDelta == loadAddress
            && view.appliedRelocations == |model.relocations| && view.model.relocations == model.relocations
            && Fits32(view.elf) && LoadsMoved(elf, view.elf, view.addressDelta, loadAddress)
  {
    hide Patched, RebaseMetadata, SegmentBases, LayoutFits, Fits32, RebaseElf, LoadsMoved, LoadedSegments, LowestVaddr;
    var view := BuildView(data, elf, model, loadAddress).value;
    ViewParts(data, elf, model, loadAddress);
    LayoutFitsIff(elf, view.elf.rawData, view.addressDelta);
    HeadersMove(elf, view.elf.rawData, view.addressDelta);
  }

  lemma HeadersMove(elf: ElfImage, data: Bytes, delta: int)
    requires LoadedSegments(elf.programHeaders) != []
    ensures LoadsMoved(elf, RebaseElf(elf, data, delta), delta, LowestVaddr(LoadedSegments(elf.programHeaders)) + delta)
  {
    hide InLoaded, ShiftSections, LoadedSegments, LowestVaddr, ShiftHeader, LoadsMoved;
    var view, lowest := RebaseElf(elf, data, delta), LowestVaddr(LoadedSegments(elf.programHeaders));
    LowestLoad(elf.programHeaders);
    forall l | 0 <= l < |elf.programHeaders|
      ensures var s, s' := elf.programHeaders[l], view.programHeaders[l];
              && s' == (if s.ptype == 1 then s.(vaddr := s.vaddr + delta, paddr := s.paddr + delta) else s)
              && (s.ptype == 1 && s.memsz > 0 ==> s'.vaddr >= lowest + delta)
    {
      HeaderMoves(elf.programHeaders[l], delta);
      assert elf.programHeaders[l].Loaded() ==> lowest <= elf.programHeaders[l].vaddr;
    }
    var l :| 0 <= l < |elf.programHeaders| && elf.programHeaders[l].Loaded() && elf.programHeaders[l].vaddr == lowest;
    assert view.programHeaders[l].vaddr == lowest + delta;
    MovedFrom(elf, view, delta, lowest + delta, l);
  }

  lemma MovedFrom(elf: ElfImage, view: ElfImage, delta: int, lowest: int, l: nat)
    requires |view.programHeaders| == |elf.programHeaders| && l < |elf.programHeaders|
    requires elf.programHeaders[l].Loaded() && view.programHeaders[l].vaddr == lowest
    requires forall l :: 0 <= l < |elf.programHeaders| ==>
               var s, s' := elf.programHeaders[l], view.programHeaders[l];
               && s' == (if s.ptype == 1 then s.(vaddr := s.vaddr + delta, paddr := s.paddr + delta) else s)
               && (s.ptype == 1 && s.memsz > 0 ==> s'.vaddr >= lowest)
    ensures LoadsMoved(elf, view, delta, lowest)
  {
  }

  lemma HeaderMoves(s: ProgramHeader, delta: int)
    ensures ShiftHeader(s, delta) == if s.ptype == 1 then s.(vaddr := s.vaddr + delta, paddr := s.paddr + delta) else s
  {
  }

  lemma LowestLoad(headers: seq<ProgramHeader>)
    requires LoadedSegments(headers) != []
    ensures exists l :: 0 <= l < |headers| && headers[l].Loaded() && headers[l].vaddr == LowestVaddr(LoadedSegments(headers))
    ensures forall l :: 0 <= l < |headers| && headers[l].Loaded() ==> LowestVaddr(LoadedSegments(headers)) <= headers[l].vaddr
  {
    var loads := LoadedSegments(headers);
    var low :| low in loads && low.vaddr == LowestVaddr(loads);
    assert low in headers && low.Loaded();
    forall l | 0 <= l < |headers| && headers[l].Loaded() ensures LowestVaddr(loads) <= headers[l].vaddr {
      assert headers[l] in loads;
    }
  }

  /** The address lies inside a non-empty load. */
  ghost predicate InsideLoad(elf: ElfImage, a: int) {
    exists l :: 0 <= l < |elf.programHeaders| && elf.programHeaders[l].ptype == 1
                && elf.programHeaders[l].vaddr <= a < elf.programHeaders[l].vaddr + elf.programHeaders[l].memsz
  }

  /** The address lies inside a non-empty load or directly behind one. */
  ghost predicate TouchesLoad(elf: ElfImage, a: int) {
    exists l :: 0 <= l < |elf.programHeaders| && elf.programHeaders[l].ptype == 1 && elf.programHeaders[l].memsz > 0
                && elf.programHeaders[l].vaddr <= a <= elf.programHeaders[l].vaddr + elf.programHeaders[l].memsz
  }

  /** `a'` is the address `a` carried along by its load. */
  ghost predicate Carried(elf: ElfImage, delta: int, a: int, a': int) {
    a' == if InsideLoad(elf, a) then a + delta else a
  }

  /** The same for a field in which zero means absent. */
  ghost predicate CarriedIfSet(elf: ElfImage, delta: int, a: int, a': int) {
    if a == 0 then a' == 0 else Carried(elf, delta, a, a')
  }

  ghost predicate EndCarriedIfSet(elf: ElfImage, delta: int, a: int, a': int) {
    a' == if a != 0 && TouchesLoad(elf, a) then a + delta else a
  }

  ghost predicate NidsCarried(elf: ElfImage, delta: int, nids: seq<NidEntry>, nids': seq<NidEntry>) {
    && |nids'| == |nids|
    && forall i :: 0 <= i < |nids| ==>
         && nids'[i].nid == nids[i].nid
         && CarriedIfSet(elf, delta, nids[i].address, nids'[i].address)
         && CarriedIfSet(elf, delta, nids[i].nidAddress, nids'[i].nidAddress)
  }

  ghost predicate LibrariesCarried(elf: ElfImage, delta: int, libs: seq<Library>, libs': seq<Library>) {
    && |libs'| == |libs|
    && forall i :: 0 <= i < |libs| ==>
         && Carried(elf, delta, libs[i].address, libs'[i].address)
         && NidsCarried(elf, delta, libs[i].functions, libs'[i].functions)
         && NidsCarried(elf, delta, libs[i].variables, libs'[i].variables)
  }

  ghost predicate InfoCarried(elf: ElfImage, delta: int, m: ModuleInfo, m': ModuleInfo) {
    && CarriedIfSet(elf, delta, m.gpValue, m'.gpValue)
    && CarriedIfSet(elf, delta, m.exportsStart, m'.exportsStart)
    && EndCarriedIfSet(elf, delta, m.exportsEnd, m'.exportsEnd)
    && CarriedIfSet(elf, delta, m.importsStart, m'.importsStart)
    && EndCarriedIfSet(elf, delta, m.importsEnd, m'.importsEnd)
    && Carried(elf, delta, m.address, m'.address)
  }

  lemma LoadsAre(elf: ElfImage, a: int)
    ensures InLoaded(elf.programHeaders, a) <==> InsideLoad(elf, a)
    ensures AtLoadedEnd(elf.programHeaders, a) <==> TouchesLoad(elf, a)
  {
    if InsideLoad(elf, a) {
      var l :| 0 <= l < |elf.programHeaders| && elf.programHeaders[l].ptype == 1
               && elf.programHeaders[l].vaddr <= a < elf.programHeaders[l].vaddr + elf.programHeaders[l].memsz;
      assert Contains(elf.programHeaders[l], a);
    }
    if TouchesLoad(elf, a) {
      var l :| 0 <= l < |elf.programHeaders| && elf.programHeaders[l].ptype == 1 && elf.programHeaders[l].memsz > 0
               && elf.programHeaders[l].vaddr <= a <= elf.programHeaders[l].vaddr + elf.programHeaders[l].memsz;
      assert ContainsEnd(elf.programHeaders[l], a);
    }
  }

  lemma AddressCarried(elf: ElfImage, delta: int, a: int)
    requires LayoutFits(elf, delta)
    ensures RebaseAddress(elf, a, delta).Ok? && Carried(elf, delta, a, RebaseAddress(elf, a, delta).value)
    ensures RebaseNonzero(elf, a, delta).Ok? && CarriedIfSet(elf, delta, a, RebaseNonzero(elf, a, delta).value)
    ensures RebaseRangeEnd(elf, a, delta).Ok? ==> EndCarriedIfSet(elf, delta, a, RebaseRangeEnd(elf, a, delta).value)
  {
    hide LayoutFits, InLoaded, AtLoadedEnd, InsideLoad, TouchesLoad;
    AddressesAlwaysRebase(elf, a, delta);
    LoadsAre(elf, a);
  }

  lemma NidsAreCarried(elf: ElfImage, delta: int, nids: seq<NidEntry>)
    requires LayoutFits(elf, delta)
    ensures RebaseNids(elf, nids, delta).Ok? && NidsCarried(elf, delta, nids, RebaseNids(elf, nids, delta).value)
  {
    hide LayoutFits, RebaseNids, RebaseNonzero, CarriedIfSet;
    NidsAlwaysRebase(elf, nids, delta);
    forall i | 0 <= i < |nids|
      ensures var r := RebaseNids(elf, nids, delta).value[i];
              CarriedIfSet(elf, delta, nids[i].address, r.address) && CarriedIfSet(elf, delta, nids[i].nidAddress, r.nidAddress)
    {
      AddressCarried(elf, delta, nids[i].address);
      AddressCarried(elf, delta, nids[i].nidAddress);
    }
  }

  lemma LibrariesAreCarried(elf: ElfImage, delta: int, libs: seq<Library>)
    requires LayoutFits(elf, delta)
    ensures RebaseLibraries(elf, libs, delta).Ok?
            && LibrariesCarried(elf, delta, libs, RebaseLibraries(elf, libs, delta).value)
  {
    hide LayoutFits, RebaseNids, RebaseLibraries, RebaseAddress, NidsCarried, Carried;
    LibrariesAlwaysRebase(elf, libs, delta);
    forall i | 0 <= i < |libs|
      ensures var r := RebaseLibraries(elf, libs, delta).value[i];
              && Carried(elf, delta, libs[i].address, r.address)
              && NidsCarried(elf, delta, libs[i].functions, r.functions)
              && NidsCarried(elf, delta, libs[i].variables, r.variables)
    {
      AddressCarried(elf, delta, libs[i].address);
      NidsAreCarried(elf, delta, libs[i].functions);
      NidsAreCarried(elf, delta, libs[i].variables);
    }
  }

  lemma InfoIsCarried(elf: ElfImage, delta: int, info: ModuleInfo)
    requires LayoutFits(elf, delta) && RebaseModuleInfo(elf, info, delta).Ok?
    ensures InfoCarried(elf, delta, info, RebaseModuleInfo(elf, info, delta).value)
  {
    hide LayoutFits, RebaseNonzero, RebaseRangeEnd, RebaseAddress, CarriedIfSet, EndCarriedIfSet, Carried;
    AddressCarried(elf, delta, info.gpValue);
    AddressCarried(elf, delta, info.exportsStart);
    AddressCarried(elf, delta, info.exportsEnd);
    AddressCarried(elf, delta, info.importsStart);
    AddressCarried(elf, delta, info.importsEnd);
    AddressCarried(elf, delta, info.address);
  }

  /** Every address of the view's metadata and its entry point are the originals carried along by the load
      they lie in; a table end goes with the load it closes. */
  lemma ViewMetadata(data: Bytes, elf: ElfImage, model: Model, loadAddress: int)
    requires BuildView(data, elf, model, loadAddress).Ok?
    ensures var view := BuildView(data, elf, model, loadAddress).value;
            var m, m' := model.metadata, view.model.metadata;
            && (m'.moduleInfo.Some? <==> m.moduleInfo.Some?)
            && (m.moduleInfo.Some? ==> InfoCarried(elf, view.addressDelta, m.moduleInfo.value, m'.moduleInfo.value))
            && LibrariesCarried(elf, view.addressDelta, m.imports, m'.imports)
            && LibrariesCarried(elf, view.addressDelta, m.exports, m'.exports)
            && Carried(elf, view.addressDelta, elf.header.entry, view.elf.header.entry)
            && view.elf.header == elf.header.(entry := view.elf.header.entry)
  {
    hide Patched, SegmentBases, InLoaded, LayoutFits, LibrariesCarried, RebaseLibraries, RebaseModuleInfo, InfoCarried,
      InsideLoad, ShiftHeaders, ShiftSections;
    var delta := BuildView(data, elf, model, loadAddress).value.addressDelta;
    if model.metadata.moduleInfo.Some? {
      InfoIsCarried(elf, delta, model.metadata.moduleInfo.value);
    }
    LibrariesAreCarried(elf, delta, model.metadata.imports);
    LibrariesAreCarried(elf, delta, model.metadata.exports);
    LoadsAre(elf, elf.header.entry);
  }

  /** Every allocated section moves with the loads, its address alone. */
  lemma ViewSections(data: Bytes, elf: ElfImage, model: Model, loadAddress: int)
    requires BuildView(data, elf, model, loadAddress).Ok?
    ensures var view := BuildView(data, elf, model, loadAddress).value;
            && |view.elf.sections| == |elf.sections|
            && forall i :: 0 <= i < |elf.sections| ==>
                 var s := elf.sections[i];
                 view.elf.sections[i]
                 == if s.flags / 2 % 2 == 1 && s.size > 0 then s.(addr := s.addr + view.addressDelta) else s
  {
    hide Patched, SegmentBases, InLoaded, LayoutFits, RebaseMetadata, ShiftHeaders;
  }

  // ---- Which refusal ----

  /** Why relocation `k` is refused: the first of its checks that fails, with `s` and `d` its segments. */
  ghost predicate Complains(elf: ElfImage, size: nat, relocs: seq<Relocation>, k: nat, s: int, d: int, e: LoadError)
    requires k < |relocs|
  {
    var r, n := relocs[k], |elf.programHeaders|;
    if !(0 <= d < n) then e == BadSegmentIndex
    else if elf.programHeaders[d].ptype != 1 then e == NotALoadSegment
    else if !(0 <= s < n) then e == BadSegmentIndex
    else if elf.programHeaders[s].ptype != 1 then e == NotALoadSegment
    else if r.offset < 0 || r.offset + 4 > elf.programHeaders[s].filesz then e == OffsetNotFileBacked
    else if elf.programHeaders[s].offset + r.offset < 0 || elf.programHeaders[s].offset + r.offset + 4 > size then
      e == WordBeyondInput
    else if CompanionRefused(elf, size, relocs, k, s, OffsetNotFileBacked) then e == OffsetNotFileBacked
    else if CompanionRefused(elf, size, relocs, k, s, CompanionBeyondInput) then e == CompanionBeyondInput
    else if elf.programHeaders[d].memsz <= 0 then e == NoSegmentBase
    else e == BadWord(if r.rtype == 5 then UnresolvedLowHalf else UnsupportedType)
  }

  /** The companion of a Type-A HI16 without an addend lies outside the source's extent or the file. */
  ghost predicate CompanionRefused(elf: ElfImage, size: nat, relocs: seq<Relocation>, k: nat, s: int, e: LoadError)
    requires k < |relocs| && 0 <= s < |elf.programHeaders|
  {
    && TypeAHi16(relocs[k])
    && exists j: nat :: CompanionOf(relocs, k, j)
         && var o, p := relocs[j].offset, elf.programHeaders[s];
            if o < 0 || o + 4 > p.filesz then e == OffsetNotFileBacked
            else (p.offset + o < 0 || p.offset + o + 4 > size) && e == CompanionBeyondInput
  }

  lemma CompanionRefusal(data: Bytes, elf: ElfImage, relocs: seq<Relocation>, k: nat, s: int)
    requires k < |relocs| && s == SourceIndex(relocs[k]) && Segment(elf, s).Ok?
    ensures var low := LowHalfFor(data, elf, relocs, k);
            && (low.Err? ==> CompanionRefused(elf, |data|, relocs, k, s, low.error)
                             && low.error in {OffsetNotFileBacked, CompanionBeyondInput})
            && (forall e :: low.Ok? ==> !CompanionRefused(elf, |data|, relocs, k, s, e))
    ensures forall e, e' :: CompanionRefused(elf, |data|, relocs, k, s, e) && CompanionRefused(elf, |data|, relocs, k, s, e') ==>
              e == e'
  {
    forall j: nat ensures CompanionOf(relocs, k, j) <==> FirstCompanion(relocs, relocs[k], k + 1) == Some(j) {
      CompanionIff(relocs, k, j);
    }
    hide FirstCompanion, CompanionOf, SignedLowHalf, WordAt;
  }

  lemma WordRefusal(data: Bytes, elf: ElfImage, bases: map<int, int>, relocs: seq<Relocation>, k: nat, word: int)
    requires k < |relocs| && LowHalfFor(data, elf, relocs, k).Ok? && TargetIndex(relocs[k]) in bases
    requires NewWord(data, elf, bases, relocs, k, word).Err?
    ensures NewWord(data, elf, bases, relocs, k, word)
         == Err(BadWord(if relocs[k].rtype == 5 then UnresolvedLowHalf else UnsupportedType))
  {
    hide LowHalfFor, HighWord, LowWord, JumpField, JumpOpcode;
  }

  lemma StepRefusal(data: Bytes, elf: ElfImage, bases: map<int, int>, relocs: seq<Relocation>, k: nat, image: Bytes, e: LoadError)
    requires k < |relocs| && Patched(data, elf, bases, relocs, k) == Ok(image)
    requires Patched(data, elf, bases, relocs, k + 1) == Err(e)
    requires forall d :: d in bases <==> 0 <= d < |elf.programHeaders| && elf.programHeaders[d].Loaded()
    ensures Complains(elf, |data|, relocs, k, SourceIndex(relocs[k]), TargetIndex(relocs[k]), e)
  {
    PatchedStep(data, elf, bases, relocs, k, image);
    hide Patched, NewWord, LowHalfFor, CompanionRefused, WordAt;
    var site, s := Site(elf, |data|, relocs[k]), SourceIndex(relocs[k]);
    if site.Ok? {
      var word := WordAt(image, site.value);
      CompanionRefusal(data, elf, relocs, k, s);
      WordOrder(data, elf, bases, relocs, k, word);
      if LowHalfFor(data, elf, relocs, k).Ok? && TargetIndex(relocs[k]) in bases {
        WordRefusal(data, elf, bases, relocs, k, word);
      }
    }
  }

  lemma WordOrder(data: Bytes, elf: ElfImage, bases: map<int, int>, relocs: seq<Relocation>, k: nat, word: int)
    requires k < |relocs|
    ensures var low, new' := LowHalfFor(data, elf, relocs, k), NewWord(data, elf, bases, relocs, k, word);
            && (low.Err? ==> new' == Err(low.error))
            && (low.Ok? && TargetIndex(relocs[k]) !in bases ==> new' == Err(NoSegmentBase))
  {
    hide LowHalfFor, ApplyWord;
  }

  lemma {:induction false} FirstRefusal(
    data: Bytes, elf: ElfImage, bases: map<int, int>, relocs: seq<Relocation>, n: nat) returns (k: nat)
    requires n <= |relocs| && Patched(data, elf, bases, relocs, n).Err?
    ensures k < n && Patched(data, elf, bases, relocs, k).Ok?
    ensures Patched(data, elf, bases, relocs, k + 1) == Err(Patched(data, elf, bases, relocs, n).error)
    decreases n
  {
    hide Site, NewWord;
    if Patched(data, elf, bases, relocs, n - 1).Ok? {
      k := n - 1;
    } else {
      k := FirstRefusal(data, elf, bases, relocs, n - 1);
    }
  }

  /** Every relocation before `k` is in order, and `k` is refused with `e`. */
  ghost predicate RefusedAt(elf: ElfImage, size: nat, relocs: seq<Relocation>, k: nat, e: LoadError) {
    && k < |relocs| && (forall i: nat :: i < k ==> FieldsRelocatable(elf, size, relocs, i))
    && exists s, d ::
         && Names(relocs[k].sourceSegment, relocs[k].info, 0x100, s)
         && Names(relocs[k].targetSegment, relocs[k].info, 0x1_0000, d)
         && Complains(elf, size, relocs, k, s, d, e)
  }

  lemma PatchRefusal(data: Bytes, elf: ElfImage, delta: int, relocs: seq<Relocation>)
    requires Numbered(elf.programHeaders)
    ensures var bases := SegmentBases(LoadedSegments(elf.programHeaders), delta);
            match Patched(data, elf, bases, relocs, |relocs|)
            case Ok(_) => forall k: nat :: k < |relocs| ==> FieldsRelocatable(elf, |data|, relocs, k)
            case Err(e) => exists k: nat :: RefusedAt(elf, |data|, relocs, k, e)
  {
    hide *;
    var bases := SegmentBases(LoadedSegments(elf.programHeaders), delta);
    BasesAre(elf, delta);
    if Patched(data, elf, bases, relocs, |relocs|).Ok? {
      AllRelocatable(data, elf, delta, relocs, |relocs|);
    } else {
      var k := FirstRefusal(data, elf, bases, relocs, |relocs|);
      AllRelocatable(data, elf, delta, relocs, k);
      var e := Patched(data, elf, bases, relocs, |relocs|).error;
      StepRefusal(data, elf, bases, relocs, k, Patched(data, elf, bases, relocs, k).value, e);
      RefusedHere(elf, |data|, relocs, k, e);
    }
  }

  lemma RefusedHere(elf: ElfImage, size: nat, relocs: seq<Relocation>, k: nat, e: LoadError)
    requires k < |relocs| && (forall i: nat :: i < k ==> FieldsRelocatable(elf, size, relocs, i))
    requires Complains(elf, size, relocs, k, SourceIndex(relocs[k]), TargetIndex(relocs[k]), e)
    ensures RefusedAt(elf, size, relocs, k, e)
  {
    hide FieldsRelocatable, Complains;
    assert Names(relocs[k].sourceSegment, relocs[k].info, 0x100, SourceIndex(relocs[k]));
    assert Names(relocs[k].targetSegment, relocs[k].info, 0x1_0000, TargetIndex(relocs[k]));
  }

  lemma BasesAre(elf: ElfImage, delta: int)
    requires Numbered(elf.programHeaders)
    ensures forall d :: d in SegmentBases(LoadedSegments(elf.programHeaders), delta)
                   <==> 0 <= d < |elf.programHeaders| && elf.programHeaders[d].Loaded()
  {
    hide SegmentBases, LoadedSegments;
    forall d ensures d in SegmentBases(LoadedSegments(elf.programHeaders), delta)
                <==> 0 <= d < |elf.programHeaders| && elf.programHeaders[d].Loaded()
    {
      BasesExact(elf, delta, d);
    }
  }

  lemma AllRelocatable(data: Bytes, elf: ElfImage, delta: int, relocs: seq<Relocation>, n: nat)
    requires Numbered(elf.programHeaders) && n <= |relocs|
    requires Patched(data, elf, SegmentBases(LoadedSegments(elf.programHeaders), delta), relocs, n).Ok?
    ensures forall k: nat :: k < n ==> FieldsRelocatable(elf, |data|, relocs, k)
  {
    hide Patched, SegmentBases, LoadedSegments, FieldsRelocatable, Site, LowHalfAtHand, SupportedType;
    var bases := SegmentBases(LoadedSegments(elf.programHeaders), delta);
    PatchSucceedsIff(data, elf, bases, relocs, n);
    forall k: nat | k < n ensures FieldsRelocatable(elf, |data|, relocs, k) {
      assert Applies(elf, |data|, bases, relocs, k);
      BasesExact(elf, delta, TargetIndex(relocs[k]));
      RelocatableIff(elf, |data|, relocs, k);
    }
  }

  lemma NoLoads(headers: seq<ProgramHeader>)
    ensures LoadedSegments(headers) == []
       <==> forall l :: 0 <= l < |headers| ==> !(headers[l].ptype == 1 && headers[l].memsz > 0)
  {
    var loads := LoadedSegments(headers);
    if loads != [] {
      assert loads[0] in loads;
    }
    forall l | 0 <= l < |headers| && headers[l].Loaded() ensures loads != [] {
      assert headers[l] in loads;
    }
  }

  /** A view is refused for the first check that fails: byte order, load address, loads, delta, layout, then the
      relocations in order, then a table end. */
  lemma ViewRefusal(data: Bytes, elf: ElfImage, model: Model, loadAddress: int)
    requires Numbered(elf.programHeaders) && BuildView(data, elf, model, loadAddress).Err?
    ensures var e := BuildView(data, elf, model, loadAddress).error;
            if !elf.littleEndian then e == BigEndian
            else if !(0 <= loadAddress < 0x1_0000_0000) then e == BadLoadAddress
            else if LoadedSegments(elf.programHeaders) == [] then
              && e == NoLoadedSegment
              && forall l :: 0 <= l < |elf.programHeaders| ==>
                   !(elf.programHeaders[l].ptype == 1 && elf.programHeaders[l].memsz > 0)
            else
              var delta := loadAddress - LowestVaddr(LoadedSegments(elf.programHeaders));
              if !(-0x1_0000_0000 < delta < 0x1_0000_0000) then e == DeltaOutOfRange
              else if !Fits32(RebaseElf(elf, data, delta)) then e == LayoutOutside32Bit
              else || (exists k: nat :: RefusedAt(elf, |data|, model.relocations, k, e))
                   || ((forall k: nat :: k < |model.relocations| ==> FieldsRelocatable(elf, |data|, model.relocations, k))
                       && e == AddressOutside32Bit)
  {
    hide Patched, RebaseMetadata, LayoutFits, SegmentBases, LoadedSegments, LowestVaddr, Fits32, RebaseElf, RefusedAt,
      FieldsRelocatable, Numbered, TableEndRefused;
    NoLoads(elf.programHeaders);
    var loads := LoadedSegments(elf.programHeaders);
    if loads != [] {
      var delta := loadAddress - LowestVaddr(loads);
      LayoutFitsIff(elf, data, delta);
      PatchRefusal(data, elf, delta, model.relocations);
      if LayoutFits(elf, delta) {
        MetadataRefusedIff(elf, model.metadata, delta);
      }
    }
  }
}
