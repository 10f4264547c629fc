/** `project.py`: flattening allocated sections into one image and tiling the image into subsegments. */
module Painter {
  import opened Prelude
  import opened ByteStrings
  import opened ElfModel
  import opened Sorting

  datatype FlattenError = NoFileSections | SizeRefused(size: int) | BeyondFile(index: int)

  datatype FlatImage = FlatImage(base: int, image: Bytes, sections: seq<Section>)

  predicate IsAllocated(s: Section) {
    s.Allocated()
  }

  predicate HasFileBytes(s: Section) {
    s.stype != 8
  }

  predicate HasNoBits(s: Section) {
    s.stype == 8
  }

  function AllocatedSections(elf: ElfImage): seq<Section> {
    Sort(AddressOrder, Select(IsAllocated, elf.sections))
  }

  function FileSections(sections: seq<Section>): (r: seq<Section>)
    ensures forall s :: s in r <==> s in sections && HasFileBytes(s)
  {
    Select(HasFileBytes, sections)
  }

  /** Sorted by address and index, and no section is empty. */
  ghost predicate WellOrdered(sections: seq<Section>) {
    && Sorted(AddressOrder, sections)
    && forall i :: 0 <= i < |sections| ==> sections[i].size > 0
  }

  lemma AllocatedWellOrdered(elf: ElfImage)
    ensures WellOrdered(AllocatedSections(elf)) && WellOrdered(FileSections(AllocatedSections(elf)))
    ensures forall s :: s in AllocatedSections(elf) <==> s in elf.sections && s.Allocated()
  {
    var chosen := Select(IsAllocated, elf.sections);
    assert TotalPreorder(AddressOrder);
    SortSorts(AddressOrder, chosen);
    SameElements(AllocatedSections(elf), chosen);
    SelectSorted(AddressOrder, HasFileBytes, AllocatedSections(elf));
    hide Sort, Select, Sorted;
    var sections, files := AllocatedSections(elf), FileSections(AllocatedSections(elf));
    forall i | 0 <= i < |sections| ensures sections[i].size > 0 {
      assert sections[i] in sections && IsAllocated(sections[i]);
    }
    forall i | 0 <= i < |files| ensures files[i].size > 0 {
      assert files[i] in files && files[i] in sections && IsAllocated(files[i]);
    }
  }

  // ---- Painting ----

  function Lowest(sections: seq<Section>): (r: int)
    requires sections != []
    ensures forall s :: s in sections ==> r <= s.addr
    ensures exists s :: s in sections && r == s.addr
  {
    if |sections| == 1 then
      assert sections[0] in sections;
      sections[0].addr
    else
      assert sections == [sections[0]] + sections[1..];
      Min(sections[0].addr, Lowest(sections[1..]))
  }

  function HighestEnd(sections: seq<Section>): (r: int)
    requires sections != []
    ensures forall s :: s in sections ==> s.addr + s.size <= r
    ensures exists s :: s in sections && r == s.addr + s.size
  {
    if |sections| == 1 then
      assert sections[0] in sections;
      sections[0].addr + sections[0].size
    else
      assert sections == [sections[0]] + sections[1..];
      Max(sections[0].addr + sections[0].size, HighestEnd(sections[1..]))
  }

  predicate Covers(s: Section, a: int) {
    s.addr <= a < s.addr + s.size
  }

  predicate InFile(s: Section, data: Bytes) {
    s.offset >= 0 && s.size >= 0 && s.offset + s.size <= |data|
  }

  ghost predicate AllInFile(files: seq<Section>, data: Bytes) {
    forall i :: 0 <= i < |files| ==> InFile(files[i], data)
  }

  /** What the painter leaves at an address: the byte of the last section that covers it, else zero. */
  ghost function ByteAt(files: seq<Section>, data: Bytes, a: int): Byte
    requires AllInFile(files, data)
  {
    if files == [] then 0
    else
      var last := files[|files| - 1];
      if Covers(last, a) then data[last.offset + (a - last.addr)]
      else ByteAt(files[..|files| - 1], data, a)
  }

  /** `ByteAt` is decided by the last covering section in painting order. */
  lemma {:induction false} LastCoverWins(files: seq<Section>, data: Bytes, a: int, k: nat)
    requires AllInFile(files, data) && k < |files| && Covers(files[k], a)
    requires forall j :: k < j < |files| ==> !Covers(files[j], a)
    ensures ByteAt(files, data, a) == data[files[k].offset + (a - files[k].addr)]
    decreases |files|
  {
    if k < |files| - 1 {
      LastCoverWins(files[..|files| - 1], data, a, k);
    }
  }

  lemma {:induction false} UncoveredIsZero(files: seq<Section>, data: Bytes, a: int)
    requires AllInFile(files, data) && forall j :: 0 <= j < |files| ==> !Covers(files[j], a)
    ensures ByteAt(files, data, a) == 0
    decreases |files|
  {
    if files != [] {
      UncoveredIsZero(files[..|files| - 1], data, a);
    }
  }

  ghost predicate Painted(files: seq<Section>, data: Bytes, base: int, image: Bytes)
    requires AllInFile(files, data)
  {
    forall i :: 0 <= i < |image| ==> image[i] == ByteAt(files, data, base + i)
  }

  /** Offsets and sizes as any parsed image has them. */
  ghost predicate PlainOffsets(elf: ElfImage) {
    forall s :: s in elf.sections ==> s.offset >= 0
  }

  ghost predicate Flattened(elf: ElfImage, r: Result<FlatImage, FlattenError>) {
    var sections := AllocatedSections(elf);
    var files := FileSections(sections);
    if files == [] then r == Err(NoFileSections)
    else
      var base := Lowest(sections);
      var size := HighestEnd(files) - base;
      if size <= 0 || size > 0x800_0000 then r == Err(SizeRefused(size))
      else
        match r
        case Ok(flat) =>
          && AllInFile(files, elf.rawData) && flat.base == base && flat.sections == sections
          && |flat.image| == size && Painted(files, elf.rawData, base, flat.image)
        case Err(BeyondFile(index)) => FirstBeyond(files, elf.rawData, index)
        case _ => false
  }

  /** `image[dest:dest + len(part)] = part`. */
  method Blit(image: array<Byte>, dest: nat, part: Bytes)
    requires dest + |part| <= image.Length
    modifies image
    ensures forall i :: 0 <= i < image.Length ==>
              image[i] == if dest <= i < dest + |part| then part[i - dest] else old(image[i])
  {
    forall i | 0 <= i < |part| {
      image[dest + i] := part[i];
    }
  }

  /** Paints the sections in order, stopping at the first that leaves the file. */
  method PaintAll(files: seq<Section>, data: Bytes, base: int, size: nat) returns (r: Result<Bytes, FlattenError>)
    requires forall s :: s in files ==> s.offset >= 0 && s.size > 0 && base <= s.addr && s.addr + s.size <= base + size
    ensures r.Ok? ==> AllInFile(files, data) && |r.value| == size && Painted(files, data, base, r.value)
    ensures r.Err? ==> r.error.BeyondFile? && FirstBeyond(files, data, r.error.index)
  {
    hide ByteAt, Painted, FirstBeyond;
    var image := new Byte[size](_ => 0);
    BlankPainted(files, data, base, image[..]);
    for k := 0 to |files|
      invariant AllInFile(files[..k], data) && Painted(files[..k], data, base, image[..])
    {
      var section := files[k];
      assert section in files;
      var sourceEnd := section.offset + section.size;
      if sourceEnd > |data| {
        StopsHere(files, data, k);
        return Err(BeyondFile(section.index));
      }
      ghost var before := image[..];
      Blit(image, section.addr - base, data[section.offset..sourceEnd]);
      PaintOne(files, data, base, k, before, image[..]);
    }
    assert files[..|files|] == files;
    return Ok(image[..]);
  }

  ghost predicate FirstBeyond(files: seq<Section>, data: Bytes, index: int) {
    exists k :: 0 <= k < |files| && !InFile(files[k], data) && files[k].index == index
                && forall j :: 0 <= j < k ==> InFile(files[j], data)
  }

  lemma StopsHere(files: seq<Section>, data: Bytes, k: nat)
    requires k < |files| && AllInFile(files[..k], data) && !InFile(files[k], data)
    ensures FirstBeyond(files, data, files[k].index)
  {
    forall j | 0 <= j < k ensures InFile(files[j], data) {
      assert files[..k][j] == files[j];
    }
  }

  lemma BlankPainted(files: seq<Section>, data: Bytes, base: int, image: Bytes)
    requires forall i :: 0 <= i < |image| ==> image[i] == 0
    ensures AllInFile(files[..0], data) && Painted(files[..0], data, base, image)
  {
  }

  method FlattenElf(elf: ElfImage) returns (r: Result<FlatImage, FlattenError>)
    requires PlainOffsets(elf)
    ensures Flattened(elf, r)
  {
    hide Sort, Select, Sorted, AllInFile, Painted, FirstBeyond;
    AllocatedWellOrdered(elf);
    var sections := AllocatedSections(elf);
    var files := FileSections(sections);
    if files == [] {
      return Err(NoFileSections);
    }
    assert files[0] in files && files[0] in sections;
    var base := Lowest(sections);
    var size := HighestEnd(files) - base;
    if size <= 0 || size > 0x800_0000 {
      return Err(SizeRefused(size));
    }
    assert forall s :: s in files ==> s.offset >= 0 && s.size > 0 && base <= s.addr && s.addr + s.size <= base + size;
    var image :- PaintAll(files, elf.rawData, base, size);
    return Ok(FlatImage(base, image, sections));
  }

  lemma PaintOne(
    files: seq<Section>, data: Bytes, base: int, k: nat, before: Bytes, after: Bytes)
    requires k < |files| && AllInFile(files[..k], data) && Painted(files[..k], data, base, before)
    requires InFile(files[k], data) && |after| == |before|
    requires forall i :: 0 <= i < |after| ==>
               after[i] == if Covers(files[k], base + i) then data[files[k].offset + (base + i - files[k].addr)]
                           else before[i]
    ensures AllInFile(files[..k + 1], data) && Painted(files[..k + 1], data, base, after)
  {
    assert files[..k + 1][..k] == files[..k];
  }

  // ---- Segment types ----

  datatype SegmentType = Asm | Data | Rodata | Sdata | Sbss | BssType | GccExceptTable | EhFrame

  function SegmentTypeOf(s: Section): SegmentType {
    if s.stype == 8 then (if s.name == Ascii(".sbss") then Sbss else BssType)
    else if s.name == Ascii(".text") then Asm
    else if s.name == Ascii(".data") then Data
    else if s.name == Ascii(".rodata") then Rodata
    else if s.name == Ascii(".sdata") then Sdata
    else if s.name == Ascii(".sbss") then Sbss
    else if s.name == Ascii(".bss") then BssType
    else if s.name == Ascii(".gcc_except_table") then GccExceptTable
    else if s.name == Ascii(".eh_frame") then EhFrame
    else if s.kind == Executable then Asm
    else if s.kind == Writable then Data
    else Rodata
  }

  // ---- Tiling ----

  /** An image subsegment: padding, or the bytes of one section. */
  datatype Tile = Bin(start: int) | Part(start: int, kind: SegmentType)

  datatype NoBits = NoBits(kind: SegmentType, vram: int)

  predicate CoveredBy(files: seq<Section>, base: int, x: int) {
    exists k :: 0 <= k < |files| && Covers(files[k], base + x)
  }

  function PartsOf(files: seq<Section>, base: int): seq<Tile> {
    if files == [] then []
    else
      var last := files[|files| - 1];
      PartsOf(files[..|files| - 1], base) + [Part(last.addr - base, SegmentTypeOf(last))]
  }

  function PartTiles(tiles: seq<Tile>): seq<Tile> {
    if tiles == [] then []
    else
      var last := tiles[|tiles| - 1];
      PartTiles(tiles[..|tiles| - 1]) + if last.Part? then [last] else []
  }

  /** Where the tile at `k` ends: the next start, or the end of the image. */
  function TileEnd(tiles: seq<Tile>, k: nat, size: int): int
    requires k < |tiles|
  {
    if k + 1 < |tiles| then tiles[k + 1].start else size
  }

  /** The half-open stretch is a maximal gap between sections inside the image. */
  ghost predicate MaximalGap(files: seq<Section>, base: int, size: int, from: int, to: int) {
    && 0 <= from < to
    && (forall x :: from <= x < to ==> !CoveredBy(files, base, x))
    && (from == 0 || CoveredBy(files, base, from - 1))
    && (to == size || CoveredBy(files, base, to))
  }

  /** One part per file section in order, starts that never decrease, and padding that is exactly the
      maximal gaps. */
  ghost predicate Tiled(files: seq<Section>, base: int, size: int, tiles: seq<Tile>) {
    && PartTiles(tiles) == PartsOf(files, base)
    && (forall i, j :: 0 <= i < j < |tiles| ==> tiles[i].start <= tiles[j].start)
    && (forall k :: 0 <= k < |tiles| && tiles[k].Bin? ==>
          MaximalGap(files, base, size, tiles[k].start, TileEnd(tiles, k, size)))
    && (forall x :: 0 <= x < size ==> CoveredBy(files, base, x) || InPadding(tiles, size, x))
  }

  ghost predicate InPadding(tiles: seq<Tile>, size: int, x: int) {
    exists k :: 0 <= k < |tiles| && tiles[k].Bin? && tiles[k].start <= x < TileEnd(tiles, k, size)
  }

  /** The state before section `n`: no tile so far starts after it, no padding is open, and everything
      below the cursor is accounted for. */
  ghost predicate TiledTo(files: seq<Section>, base: int, size: int, n: nat, cursor: int, tiles: seq<Tile>)
    requires n <= |files|
  {
    && PartTiles(tiles) == PartsOf(files[..n], base)
    && (forall i, j :: 0 <= i < j < |tiles| ==> tiles[i].start <= tiles[j].start)
    && (tiles != [] ==> tiles[|tiles| - 1].Part? && n > 0 && tiles[|tiles| - 1].start == files[n - 1].addr - base)
    && (forall k :: 0 <= k < |tiles| && tiles[k].Bin? ==>
          MaximalGap(files, base, size, tiles[k].start, TileEnd(tiles, k, size)))
    && (forall x :: 0 <= x < cursor ==> CoveredBy(files, base, x) || InPadding(tiles, size, x))
  }

  /** The cursor is the end of the furthest section so far. */
  ghost predicate Frontier(files: seq<Section>, base: int, n: nat, cursor: int)
    requires n <= |files|
  {
    && cursor >= 0 && (forall k :: 0 <= k < n ==> files[k].addr + files[k].size - base <= cursor)
    && (cursor == 0 || exists k :: 0 <= k < n && files[k].addr + files[k].size - base == cursor)
  }

  method TileSections(base: int, size: int, files: seq<Section>) returns (tiles: seq<Tile>)
    ensures WellOrdered(files) ==> Tiled(files, base, size, tiles)
  {
    hide *;
    tiles := [];
    var cursor := 0;
    NothingTiled(files, base, size);
    for n := 0 to |files|
      invariant WellOrdered(files) ==> TiledTo(files, base, size, n, cursor, tiles) && Frontier(files, base, n, cursor)
    {
      var section := files[n];
      var start := section.addr - base;
      if WellOrdered(files) {
        TileOne(files, base, size, n, cursor, tiles);
      }
      if start > cursor {
        tiles := tiles + [Bin(cursor)];
      }
      tiles := tiles + [Part(start, SegmentTypeOf(section))];
      cursor := Larger(cursor, start + section.size);
    }
    if WellOrdered(files) {
      TileRest(files, base, size, cursor, tiles);
    }
    if cursor < size {
      tiles := tiles + [Bin(cursor)];
    }
  }

  function Larger(a: int, b: int): (r: int)
    ensures r == if a < b then b else a
  {
    Max(a, b)
  }

  lemma NothingTiled(files: seq<Section>, base: int, size: int)
    ensures TiledTo(files, base, size, 0, 0, []) && Frontier(files, base, 0, 0)
  {
  }

  /** Between the cursor and the next section nothing is covered. */
  lemma GapAhead(files: seq<Section>, base: int, size: int, n: nat, cursor: int)
    requires WellOrdered(files) && n < |files| && Frontier(files, base, n, cursor)
    requires files[n].addr - base > cursor
    ensures MaximalGap(files, base, size, cursor, files[n].addr - base)
  {
    forall x | cursor <= x < files[n].addr - base ensures !CoveredBy(files, base, x) {
      forall k | 0 <= k < |files| ensures !Covers(files[k], base + x) {
        if k > n {
          assert AddressOrder(files[n], files[k]);
        }
      }
    }
    if cursor > 0 {
      var k :| 0 <= k < n && files[k].addr + files[k].size - base == cursor;
      assert Covers(files[k], base + (cursor - 1));
    }
    assert Covers(files[n], base + (files[n].addr - base));
  }

  lemma FrontierMoves(files: seq<Section>, base: int, n: nat, cursor: int)
    requires WellOrdered(files) && n < |files| && Frontier(files, base, n, cursor)
    ensures Frontier(files, base, n + 1, Larger(cursor, files[n].addr - base + files[n].size))
  {
    var next := Larger(cursor, files[n].addr - base + files[n].size);
    if next == cursor && cursor > 0 {
      var k :| 0 <= k < n && files[k].addr + files[k].size - base == cursor;
      assert files[k].addr + files[k].size - base == next;
    } else if next != cursor {
      assert files[n].addr + files[n].size - base == next;
    }
  }

  /** Appending tiles that start no earlier than every tile so far keeps what was settled. */
  lemma PaddingStays(tiles: seq<Tile>, more: seq<Tile>, size: int, k: nat)
    requires k + 1 < |tiles|
    ensures TileEnd(tiles + more, k, size) == TileEnd(tiles, k, size) && (tiles + more)[k] == tiles[k]
  {
  }

  lemma {:induction false} PartTilesAppend(tiles: seq<Tile>, t: Tile)
    ensures PartTiles(tiles + [t]) == PartTiles(tiles) + if t.Part? then [t] else []
  {
    assert (tiles + [t])[..|tiles|] == tiles;
  }

  lemma {:induction false} PartsAppend(files: seq<Section>, base: int, n: nat)
    requires n < |files|
    ensures PartsOf(files[..n + 1], base)
         == PartsOf(files[..n], base) + [Part(files[n].addr - base, SegmentTypeOf(files[n]))]
  {
    assert files[..n + 1][..n] == files[..n];
  }

  ghost predicate OrderedStarts(tiles: seq<Tile>) {
    forall i, j :: 0 <= i < j < |tiles| ==> tiles[i].start <= tiles[j].start
  }

  ghost predicate EndsInPart(tiles: seq<Tile>) {
    tiles != [] ==> tiles[|tiles| - 1].Part?
  }

  lemma StartsAppend(tiles: seq<Tile>, t: Tile)
    requires OrderedStarts(tiles) && (tiles != [] ==> tiles[|tiles| - 1].start <= t.start)
    ensures OrderedStarts(tiles + [t])
  {
  }

  ghost predicate BinsAreGaps(files: seq<Section>, base: int, size: int, tiles: seq<Tile>) {
    forall k :: 0 <= k < |tiles| && tiles[k].Bin? ==>
      MaximalGap(files, base, size, tiles[k].start, TileEnd(tiles, k, size))
  }

  lemma BinsAppend(files: seq<Section>, base: int, size: int, tiles: seq<Tile>, more: seq<Tile>)
    requires BinsAreGaps(files, base, size, tiles) && EndsInPart(tiles)
    requires more == [] || more[0].Part? || MaximalGap(files, base, size, more[0].start, TileEnd(more, 0, size))
    requires forall k :: 1 <= k < |more| ==> more[k].Part?
    ensures BinsAreGaps(files, base, size, tiles + more)
  {
    hide MaximalGap;
    var all := tiles + more;
    forall k | 0 <= k < |all| && all[k].Bin? ensures MaximalGap(files, base, size, all[k].start, TileEnd(all, k, size)) {
      if k < |tiles| {
        PaddingStays(tiles, more, size, k);
      }
    }
  }

  lemma PaddingAppend(tiles: seq<Tile>, more: seq<Tile>, size: int, x: int)
    requires EndsInPart(tiles) && InPadding(tiles, size, x)
    ensures InPadding(tiles + more, size, x)
  {
    var k :| 0 <= k < |tiles| && tiles[k].Bin? && tiles[k].start <= x < TileEnd(tiles, k, size);
    PaddingStays(tiles, more, size, k);
  }

  ghost predicate AllBelow(files: seq<Section>, base: int, size: int, tiles: seq<Tile>, cursor: int) {
    forall x :: 0 <= x < cursor ==> CoveredBy(files, base, x) || InPadding(tiles, size, x)
  }

  function TilesFor(section: Section, base: int, cursor: int): (r: seq<Tile>)
    ensures r != [] && r[|r| - 1] == Part(section.addr - base, SegmentTypeOf(section))
  {
    if section.addr - base > cursor
    then [Bin(cursor), Part(section.addr - base, SegmentTypeOf(section))]
    else [Part(section.addr - base, SegmentTypeOf(section))]
  }

  lemma BelowGrows(
    files: seq<Section>, base: int, size: int, n: nat, cursor: int, tiles: seq<Tile>)
    requires n < |files| && files[n].size > 0 && EndsInPart(tiles) && cursor >= 0
    requires AllBelow(files, base, size, tiles, cursor)
    ensures AllBelow(files, base, size, tiles + TilesFor(files[n], base, cursor),
                     Larger(cursor, files[n].addr - base + files[n].size))
  {
    hide SegmentTypeOf;
    var start, more := files[n].addr - base, TilesFor(files[n], base, cursor);
    var all := tiles + more;
    forall x | 0 <= x < Larger(cursor, start + files[n].size)
      ensures CoveredBy(files, base, x) || InPadding(all, size, x)
    {
      if x < cursor {
        if !CoveredBy(files, base, x) {
          PaddingAppend(tiles, more, size, x);
        }
      } else if x < start {
        assert all[|tiles|] == Bin(cursor) && TileEnd(all, |tiles|, size) == start;
      } else {
        assert Covers(files[n], base + x);
      }
    }
  }

  lemma TilesStep(
    files: seq<Section>, base: int, size: int, n: nat, cursor: int, tiles: seq<Tile>)
    requires WellOrdered(files) && n < |files|
    requires TiledTo(files, base, size, n, cursor, tiles) && Frontier(files, base, n, cursor)
    ensures TiledTo(files, base, size, n + 1, Larger(cursor, files[n].addr - base + files[n].size),
                    tiles + TilesFor(files[n], base, cursor))
  {
    hide MaximalGap, CoveredBy, InPadding, SegmentTypeOf, PartsOf, PartTiles, Larger;
    var start, more := files[n].addr - base, TilesFor(files[n], base, cursor);
    PartsAppend(files, base, n);
    assert OrderedStarts(tiles) && EndsInPart(tiles) && BinsAreGaps(files, base, size, tiles);
    assert AllBelow(files, base, size, tiles, cursor);
    if n > 0 {
      assert AddressOrder(files[n - 1], files[n]);
    }
    var part := Part(start, SegmentTypeOf(files[n]));
    if start > cursor {
      GapAhead(files, base, size, n, cursor);
      StartsAppend(tiles, Bin(cursor));
      StartsAppend(tiles + [Bin(cursor)], part);
      PartTilesAppend(tiles, Bin(cursor));
      PartTilesAppend(tiles + [Bin(cursor)], part);
      assert tiles + more == tiles + [Bin(cursor)] + [part];
    } else {
      StartsAppend(tiles, part);
      PartTilesAppend(tiles, part);
    }
    BinsAppend(files, base, size, tiles, more);
    BelowGrows(files, base, size, n, cursor, tiles);
  }

  lemma TileOne(
    files: seq<Section>, base: int, size: int, n: nat, cursor: int, tiles: seq<Tile>)
    requires WellOrdered(files) && n < |files|
    requires TiledTo(files, base, size, n, cursor, tiles) && Frontier(files, base, n, cursor)
    ensures var start := files[n].addr - base;
            var padded := if start > cursor then tiles + [Bin(cursor)] else tiles;
            var next := Larger(cursor, start + files[n].size);
            && TiledTo(files, base, size, n + 1, next, padded + [Part(start, SegmentTypeOf(files[n]))])
            && Frontier(files, base, n + 1, next)
  {
    hide WellOrdered, TiledTo, Frontier, SegmentTypeOf, Larger;
    TilesStep(files, base, size, n, cursor, tiles);
    FrontierMoves(files, base, n, cursor);
    var start := files[n].addr - base;
    var padded := if start > cursor then tiles + [Bin(cursor)] else tiles;
    assert padded + [Part(start, SegmentTypeOf(files[n]))] == tiles + TilesFor(files[n], base, cursor);
  }

  lemma TileRest(files: seq<Section>, base: int, size: int, cursor: int, tiles: seq<Tile>)
    requires WellOrdered(files)
    requires TiledTo(files, base, size, |files|, cursor, tiles) && Frontier(files, base, |files|, cursor)
    ensures Tiled(files, base, size, if cursor < size then tiles + [Bin(cursor)] else tiles)
  {
    hide InPadding, SegmentTypeOf, PartsOf, PartTiles;
    assert files[..|files|] == files;
    assert OrderedStarts(tiles) && EndsInPart(tiles) && BinsAreGaps(files, base, size, tiles);
    if cursor < size {
      LastGap(files, base, size, cursor);
      hide MaximalGap, CoveredBy;
      var all := tiles + [Bin(cursor)];
      StartsAppend(tiles, Bin(cursor));
      PartTilesAppend(tiles, Bin(cursor));
      BinsAppend(files, base, size, tiles, [Bin(cursor)]);
      forall x | 0 <= x < size ensures CoveredBy(files, base, x) || InPadding(all, size, x) {
        if x < cursor {
          if !CoveredBy(files, base, x) {
            PaddingAppend(tiles, [Bin(cursor)], size, x);
          }
        } else {
          LastPadding(tiles, cursor, size, x);
        }
      }
    }
  }

  lemma LastPadding(tiles: seq<Tile>, cursor: int, size: int, x: int)
    requires cursor <= x < size
    ensures InPadding(tiles + [Bin(cursor)], size, x)
  {
    var all := tiles + [Bin(cursor)];
    assert all[|tiles|] == Bin(cursor) && TileEnd(all, |tiles|, size) == size;
  }

  lemma LastGap(files: seq<Section>, base: int, size: int, cursor: int)
    requires WellOrdered(files) && Frontier(files, base, |files|, cursor) && cursor < size
    ensures MaximalGap(files, base, size, cursor, size)
  {
    if cursor > 0 {
      var k :| 0 <= k < |files| && files[k].addr + files[k].size - base == cursor;
      assert Covers(files[k], base + (cursor - 1));
    }
  }

  // ---- The whole list ----

  function NoBitsOf(sections: seq<Section>): seq<NoBits> {
    if sections == [] then []
    else
      var last := sections[|sections| - 1];
      NoBitsOf(sections[..|sections| - 1]) + if HasNoBits(last) then [NoBits(SegmentTypeOf(last), last.addr)] else []
  }

  function NoBitsSize(sections: seq<Section>): int {
    if sections == [] then 0
    else
      var last := sections[|sections| - 1];
      NoBitsSize(sections[..|sections| - 1]) + if HasNoBits(last) then last.size else 0
  }

  method BuildSubsegments(base: int, size: int, sections: seq<Section>)
    returns (tiles: seq<Tile>, bss: seq<NoBits>, bssSize: int)
    ensures WellOrdered(FileSections(sections)) ==> Tiled(FileSections(sections), base, size, tiles)
    ensures bss == NoBitsOf(sections) && bssSize == NoBitsSize(sections)
  {
    hide WellOrdered, Tiled, SegmentTypeOf;
    tiles := TileSections(base, size, FileSections(sections));
    bss, bssSize := [], 0;
    for k := 0 to |sections|
      invariant bss == NoBitsOf(sections[..k]) && bssSize == NoBitsSize(sections[..k])
    {
      var section := sections[k];
      assert sections[..k + 1][..k] == sections[..k];
      if HasNoBits(section) {
        bss := bss + [NoBits(SegmentTypeOf(section), section.addr)];
        bssSize := bssSize + section.size;
      }
    }
    assert sections[..|sections|] == sections;
  }

  // ---- Image and tiling together ----

  /** Every byte the tiling calls padding is zero in the flattened image. */
  lemma PaddingIsZero(elf: ElfImage, flat: FlatImage, tiles: seq<Tile>, k: nat, x: int)
    requires Flattened(elf, Ok(flat)) && Tiled(FileSections(flat.sections), flat.base, |flat.image|, tiles)
    requires k < |tiles| && tiles[k].Bin? && tiles[k].start <= x < TileEnd(tiles, k, |flat.image|)
    requires x < |flat.image|
    ensures 0 <= x && flat.image[x] == 0
  {
    hide AllocatedSections, FileSections, Lowest, HighestEnd, PartTiles, PartsOf;
    var files := FileSections(flat.sections);
    assert MaximalGap(files, flat.base, |flat.image|, tiles[k].start, TileEnd(tiles, k, |flat.image|));
    assert !CoveredBy(files, flat.base, x);
    UncoveredIsZero(files, elf.rawData, flat.base + x);
  }

  /** A flattened image ends where its last section ends, so its tiling never ends in padding. */
  lemma NoTrailingPadding(elf: ElfImage, flat: FlatImage, tiles: seq<Tile>)
    requires Flattened(elf, Ok(flat)) && Tiled(FileSections(flat.sections), flat.base, |flat.image|, tiles)
    ensures tiles != [] ==> tiles[|tiles| - 1].Part?
  {
    hide Tiled;
    LastByteCovered(elf, flat);
    CoveredEndNoPadding(FileSections(flat.sections), flat.base, |flat.image|, tiles);
  }

  lemma LastByteCovered(elf: ElfImage, flat: FlatImage)
    requires Flattened(elf, Ok(flat))
    ensures CoveredBy(FileSections(flat.sections), flat.base, |flat.image| - 1)
  {
    AllocatedWellOrdered(elf);
    hide AllocatedSections, FileSections, Lowest, HighestEnd, ByteAt;
    var files := FileSections(flat.sections);
    var s :| s in files && HighestEnd(files) == s.addr + s.size;
    var i :| 0 <= i < |files| && files[i] == s;
    assert Covers(files[i], flat.base + (|flat.image| - 1));
  }

  lemma CoveredEndNoPadding(files: seq<Section>, base: int, size: int, tiles: seq<Tile>)
    requires Tiled(files, base, size, tiles) && CoveredBy(files, base, size - 1)
    ensures tiles != [] ==> tiles[|tiles| - 1].Part?
  {
    hide CoveredBy, PartTiles, PartsOf;
  }
}
