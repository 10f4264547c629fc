/** The flat project image said with the section headers of the file. */
module FlatMeaning {
  import opened Prelude
  import opened ByteStrings
  import opened ElfModel
  import opened Sorting
  import opened Painter

  /** Allocated (SHF_ALLOC is 0x2) and not empty. */
  ghost predicate Occupies(elf: ElfImage, s: Section) {
    s in elf.sections && s.flags / 2 % 2 == 1 && s.size > 0
  }

  /** An allocated section with file bytes (not SHT_NOBITS, 8) that covers the address. */
  ghost predicate Paints(elf: ElfImage, s: Section, a: int) {
    Occupies(elf, s) && s.stype != 8 && s.addr <= a < s.addr + s.size
  }

  ghost predicate Later(s: Section, t: Section) {
    t.addr < s.addr || (t.addr == s.addr && t.index < s.index)
  }

  lemma FilesAre(elf: ElfImage)
    ensures forall s :: s in AllocatedSections(elf) <==> Occupies(elf, s)
    ensures forall s :: s in FileSections(AllocatedSections(elf)) <==> Occupies(elf, s) && s.stype != 8
    ensures Sorted(AddressOrder, FileSections(AllocatedSections(elf)))
  {
    AllocatedWellOrdered(elf);
    hide AllocatedSections, Sorted;
  }

  /** Where the image lies: from the lowest allocated section to the highest end of one with file bytes, at most
      128 MiB, all its file bytes inside the file. */
  lemma FlatExtent(elf: ElfImage, flat: FlatImage)
    requires Flattened(elf, Ok(flat))
    ensures exists s :: Occupies(elf, s) && s.addr == flat.base
    ensures forall s :: Occupies(elf, s) ==> flat.base <= s.addr
    ensures exists s :: Occupies(elf, s) && s.stype != 8 && s.addr + s.size == flat.base + |flat.image|
    ensures forall s :: Occupies(elf, s) && s.stype != 8 ==>
              s.addr + s.size <= flat.base + |flat.image| && 0 <= s.offset && s.offset + s.size <= |elf.rawData|
    ensures 0 < |flat.image| <= 0x800_0000
    ensures forall s :: s in flat.sections <==> Occupies(elf, s)
  {
    FilesAre(elf);
    hide AllocatedSections, FileSections, Occupies, Painted;
    var sections, files := AllocatedSections(elf), FileSections(AllocatedSections(elf));
    var low :| low in sections && Lowest(sections) == low.addr;
    var high :| high in files && HighestEnd(files) == high.addr + high.size;
    forall s | Occupies(elf, s) && s.stype != 8 ensures 0 <= s.offset && s.offset + s.size <= |elf.rawData| {
      var i :| 0 <= i < |files| && files[i] == s;
      assert InFile(files[i], elf.rawData);
    }
  }

  lemma {:induction false} LastCover(files: seq<Section>, a: int) returns (k: nat)
    requires exists i :: 0 <= i < |files| && Covers(files[i], a)
    ensures k < |files| && Covers(files[k], a) && forall j :: k < j < |files| ==> !Covers(files[j], a)
    decreases |files|
  {
    if Covers(files[|files| - 1], a) {
      k := |files| - 1;
    } else {
      var i :| 0 <= i < |files| && Covers(files[i], a);
      assert files[..|files| - 1][i] == files[i];
      k := LastCover(files[..|files| - 1], a);
    }
  }

  /** Each byte of the image comes from the section that covers it last in address and index order, from the
      place in the file that matches the address. */
  lemma FlatByte(elf: ElfImage, flat: FlatImage, a: int, s: Section)
    requires Flattened(elf, Ok(flat)) && flat.base <= a < flat.base + |flat.image| && Paints(elf, s, a)
    requires forall t :: Paints(elf, t, a) ==> t == s || Later(s, t)
    ensures 0 <= s.offset + (a - s.addr) < |elf.rawData|
    ensures flat.image[a - flat.base] == elf.rawData[s.offset + (a - s.addr)]
  {
    hide *;
    var files := FileSections(AllocatedSections(elf));
    FilesAre(elf);
    PaintedByte(elf, flat, files, a);
    var k := ChosenCover(elf, files, a, s);
    InFileAt(files, elf.rawData, k, a);
    LastCoverWins(files, elf.rawData, a, k);
  }

  lemma InFileAt(files: seq<Section>, data: Bytes, k: nat, a: int)
    requires AllInFile(files, data) && k < |files| && Covers(files[k], a)
    ensures 0 <= files[k].offset + (a - files[k].addr) < |data|
  {
    assert InFile(files[k], data);
  }

  lemma ChosenCover(elf: ElfImage, files: seq<Section>, a: int, s: Section) returns (k: nat)
    requires Sorted(AddressOrder, files) && forall t :: t in files <==> Occupies(elf, t) && t.stype != 8
    requires Paints(elf, s, a) && forall t :: Paints(elf, t, a) ==> t == s || Later(s, t)
    ensures k < |files| && files[k] == s && Covers(files[k], a) && forall j :: k < j < |files| ==> !Covers(files[j], a)
  {
    hide Sorted, AddressOrder, Occupies, Later;
    var m :| 0 <= m < |files| && files[m] == s;
    assert Covers(files[m], a);
    k := LastCover(files, a);
    assert files[k] in files && Paints(elf, files[k], a);
    OrderedLast(files, m, k);
  }

  lemma PaintedByte(elf: ElfImage, flat: FlatImage, files: seq<Section>, a: int)
    requires Flattened(elf, Ok(flat)) && flat.base <= a < flat.base + |flat.image|
    requires files == FileSections(AllocatedSections(elf))
    ensures AllInFile(files, elf.rawData) && flat.image[a - flat.base] == ByteAt(files, elf.rawData, a)
  {
    hide AllocatedSections, FileSections, Lowest, HighestEnd, ByteAt, AllInFile;
  }

  lemma OrderedLast(files: seq<Section>, m: nat, k: nat)
    requires Sorted(AddressOrder, files) && m <= k < |files|
    ensures !Later(files[m], files[k])
  {
  }

  lemma FlatZero(elf: ElfImage, flat: FlatImage, a: int)
    requires Flattened(elf, Ok(flat)) && flat.base <= a < flat.base + |flat.image|
    requires forall t :: !Paints(elf, t, a)
    ensures flat.image[a - flat.base] == 0
  {
    var files := FileSections(AllocatedSections(elf));
    FilesAre(elf);
    PaintedByte(elf, flat, files, a);
    hide AllocatedSections, FileSections, Flattened, Occupies, ByteAt, AllInFile;
    forall j | 0 <= j < |files| ensures !Covers(files[j], a) {
      assert files[j] in files && !Paints(elf, files[j], a);
    }
    UncoveredIsZero(files, elf.rawData, a);
  }

  /** What flattening refuses: no allocated file bytes, a span of no or over 128 MiB, or a section that leaves
      the file. */
  lemma FlatRefused(elf: ElfImage, r: Result<FlatImage, FlattenError>)
    requires Flattened(elf, r)
    ensures r == Err(NoFileSections) <==> forall s :: Occupies(elf, s) ==> s.stype == 8
    ensures r.Err? && r.error.SizeRefused? ==> r.error.size <= 0 || r.error.size > 0x800_0000
    ensures r.Err? && r.error.BeyondFile? ==>
              exists s :: Occupies(elf, s) && s.stype != 8 && s.index == r.error.index
                          && (s.offset < 0 || s.offset + s.size > |elf.rawData|)
  {
    var files := FileSections(AllocatedSections(elf));
    FilesAre(elf);
    hide AllocatedSections, FileSections, Lowest, HighestEnd, Painted;
    if files != [] {
      assert files[0] in files;
    }
    if r.Err? && r.error.BeyondFile? && FirstBeyond(files, elf.rawData, r.error.index) {
      var k :| 0 <= k < |files| && !InFile(files[k], elf.rawData) && files[k].index == r.error.index;
      assert files[k] in files;
    }
  }

  /** Names decide the type of a part before its kind does; sections without file bytes are small or plain BSS. */
  lemma PartTypes(s: Section)
    ensures var t, known := SegmentTypeOf(s), s.name in {Ascii(".text"), Ascii(".data"), Ascii(".rodata"), Ascii(".sdata"),
                              Ascii(".sbss"), Ascii(".bss"), Ascii(".gcc_except_table"), Ascii(".eh_frame")};
            if s.stype == 8 then t == (if s.name == Ascii(".sbss") then Sbss else BssType)
            else && (t == Asm <==> s.name == Ascii(".text") || (!known && s.kind == Executable))
                 && (t == Data <==> s.name == Ascii(".data") || (!known && s.kind == Writable))
                 && (t == Rodata <==> s.name == Ascii(".rodata") || (!known && s.kind != Executable && s.kind != Writable))
                 && (t == Sdata <==> s.name == Ascii(".sdata")) && (t == Sbss <==> s.name == Ascii(".sbss"))
                 && (t == BssType <==> s.name == Ascii(".bss"))
                 && (t == GccExceptTable <==> s.name == Ascii(".gcc_except_table"))
                 && (t == EhFrame <==> s.name == Ascii(".eh_frame"))
  {
    DifferentNames();
    hide Ascii;
  }

  lemma DifferentNames()
    ensures |Ascii(".text")| == 5 && |Ascii(".data")| == 5 && |Ascii(".rodata")| == 7 && |Ascii(".sdata")| == 6
    ensures |Ascii(".sbss")| == 5 && |Ascii(".bss")| == 4 && |Ascii(".gcc_except_table")| == 17 && |Ascii(".eh_frame")| == 9
    ensures Ascii(".text") != Ascii(".data") && Ascii(".text") != Ascii(".sbss") && Ascii(".data") != Ascii(".sbss")
  {
    assert Ascii(".text")[1] == 't' as int && Ascii(".data")[1] == 'd' as int && Ascii(".sbss")[1] == 's' as int;
  }

  // ---- Sections without file bytes ----

  function TotalSize(sections: seq<Section>): int {
    if sections == [] then 0 else sections[0].size + TotalSize(sections[1..])
  }

  lemma {:induction false} TotalSizeSnoc(sections: seq<Section>, s: Section)
    ensures TotalSize(sections + [s]) == TotalSize(sections) + s.size
    decreases |sections|
  {
    if sections == [] {
      assert sections + [s] == [s];
    } else {
      TotalSizeSnoc(sections[1..], s);
      assert (sections + [s])[1..] == sections[1..] + [s];
    }
  }

  lemma NoSize()
    ensures TotalSize([]) == 0
  {
  }

  /** After the image come the sections without file bytes in order, each at its own address, with their sizes
      added up. */
  lemma {:induction false} BssListed(sections: seq<Section>)
    ensures var bss := Select((s: Section) => s.stype == 8, sections);
            && |NoBitsOf(sections)| == |bss| && NoBitsSize(sections) == TotalSize(bss)
            && forall i :: 0 <= i < |bss| ==> NoBitsOf(sections)[i] == NoBits(SegmentTypeOf(bss[i]), bss[i].addr)
    decreases |sections|
  {
    hide SegmentTypeOf, Select, TotalSize;
    var keep := (s: Section) => s.stype == 8;
    if sections == [] {
      SelectNothing(keep);
      NoSize();
    } else {
      var front, last := sections[..|sections| - 1], sections[|sections| - 1];
      BssListed(front);
      assert sections == front + [last];
      SelectSnoc(keep, front, last);
      TotalSizeSnoc(Select(keep, front), last);
      assert Select(keep, front) + [] == Select(keep, front);
    }
  }
}
