/** What the blocks of a CISO file mean, and a writer whose files the reader gives back. */
module CsoArchive {
  import opened Prelude
  import opened Bits
  import opened ByteStrings
  import opened CsoImage
  import opened CsoReader

  // ---- One stored block ----

  /** Cutting `pad` bytes off the end leaves a block that LZ4 may be given. */
  predicate Trims(shift: nat, stored: Bytes, pad: nat) {
    pad < Pow2(shift) && (pad == 0 || pad < |stored|)
  }

  predicate ExactLz4(codec: Codec, stored: Bytes, pad: nat, expected: nat) {
    pad <= |stored|
    && var r := codec.lz4(stored[..|stored| - pad], expected);
       r.Some? && |r.value| == expected
  }

  /** The least trimming after which LZ4 gives a block of the expected size, and that block. */
  ghost predicate LeastTrim(codec: Codec, shift: nat, stored: Bytes, expected: nat, block: Bytes) {
    exists pad: nat :: Trims(shift, stored, pad) && ExactLz4(codec, stored, pad, expected)
      && codec.lz4(stored[..|stored| - pad], expected) == Some(block)
      && forall q: nat :: q < pad ==> !ExactLz4(codec, stored, q, expected)
  }

  /** What the bytes stored for a block unpack to, by version and flag. */
  ghost predicate Unpacks(codec: Codec, version: nat, blockSize: nat, shift: nat, flagged: bool,
                          stored: Bytes, expected: nat, r: Result<Bytes, CsoError>)
    requires expected <= blockSize
  {
    if version <= 1 && flagged then
      r == if |stored| < expected then Err(ShortSpan) else Ok(stored[..expected])
    else if version == 2 && |stored| >= blockSize then
      r == Ok(stored[..expected])
    else if version == 2 && flagged then
      if !codec.lz4Installed then r == Err(NoLz4Engine)
      else match r
           case Ok(block) => LeastTrim(codec, shift, stored, expected, block)
           case Err(e) => e == BadLz4
                          && forall pad: nat :: Trims(shift, stored, pad) ==> !ExactLz4(codec, stored, pad, expected)
    else
      match codec.inflate(stored)
      case None => r == Err(BadInflate)
      case Some(block) => r == if |block| == expected then Ok(block) else Err(WrongLength)
  }

  lemma {:induction false} Lz4FromIs(codec: Codec, stored: Bytes, expected: nat, padding: nat, limit: nat)
    requires padding <= limit + 1 && limit <= |stored|
    ensures var r := Lz4From(codec, stored, expected, padding, limit);
            match r
            case Some(block) => exists pad: nat :: padding <= pad <= limit && ExactLz4(codec, stored, pad, expected)
                                  && codec.lz4(stored[..|stored| - pad], expected) == Some(block)
                                  && forall q: nat :: padding <= q < pad ==> !ExactLz4(codec, stored, q, expected)
            case None => forall pad: nat :: padding <= pad <= limit ==> !ExactLz4(codec, stored, pad, expected)
    decreases limit + 1 - padding
  {
    if padding <= limit && !ExactLz4(codec, stored, padding, expected) {
      Lz4FromIs(codec, stored, expected, padding + 1, limit);
    }
  }

  lemma TrimsIff(shift: nat, stored: Bytes, pad: nat)
    ensures Trims(shift, stored, pad) <==> pad <= MaxPadding(shift, |stored|)
    ensures MaxPadding(shift, |stored|) <= |stored|
  {
  }

  lemma Lz4BlockIs(codec: Codec, stored: Bytes, expected: nat, shift: nat)
    requires codec.lz4Installed
    ensures var r := Lz4Block(codec, stored, expected, shift);
            match r
            case Ok(block) => LeastTrim(codec, shift, stored, expected, block)
            case Err(e) => e == BadLz4
                           && forall pad: nat :: Trims(shift, stored, pad) ==> !ExactLz4(codec, stored, pad, expected)
  {
    forall pad: nat ensures Trims(shift, stored, pad) <==> pad <= MaxPadding(shift, |stored|) {
      TrimsIff(shift, stored, pad);
    }
    TrimsIff(shift, stored, 0);
    hide Trims, MaxPadding;
    Lz4FromIs(codec, stored, expected, 0, MaxPadding(shift, |stored|));
    hide Lz4From, ExactLz4;
  }

  /** The span of block `i`: the file bytes between its index entry and the next. */
  function Span(image: Image, i: nat): Bytes
    requires image.Valid() && i < image.BlockCount()
  {
    SpanInFile(image, i);
    image.file[image.indexes[i] % 0x8000_0000 * Pow2(image.shift)
               ..image.indexes[i + 1] % 0x8000_0000 * Pow2(image.shift)]
  }

  lemma SpanInFile(image: Image, i: nat)
    requires image.Valid() && i < image.BlockCount()
    ensures image.Offset(i) == image.indexes[i] % 0x8000_0000 * Pow2(image.shift)
    ensures image.Offset(i + 1) == image.indexes[i + 1] % 0x8000_0000 * Pow2(image.shift)
    ensures 0 <= image.Offset(i) <= image.Offset(i + 1) <= |image.file|
  {
    hide Shl, Pow2;
    ShlIsTimes(image.indexes[i] % 0x8000_0000, image.shift);
    ShlIsTimes(image.indexes[i + 1] % 0x8000_0000, image.shift);
    assert image.Offset(i) <= image.Offset(i + 1) <= |image.file|;
  }

  /** Every block of an opened image is its own span unpacked, refusals included. */
  lemma BlockUnpacks(image: Image, codec: Codec, i: nat)
    requires image.Valid() && i < image.BlockCount()
    ensures 0 < image.ExpectedSize(i) <= image.blockSize
    ensures image.ExpectedSize(i) == Min(image.blockSize, image.total - i * image.blockSize)
    ensures Unpacks(codec, image.version, image.blockSize, image.shift, image.indexes[i] >= 0x8000_0000,
                    Span(image, i), image.ExpectedSize(i), DecodeBlock(image, codec, i))
  {
    hide *;
    BlockPiece(image, i);
    SizeIs(image, i);
    FlagIs(image, i);
    var stored := Span(image, i);
    SpanRead(image, i, image.ExpectedSize(i));
    BlockOfSpan(image, codec, i, stored);
    CheckedUnpacks(codec, image.version, image.blockSize, image.shift, image.Flagged(i), stored, image.ExpectedSize(i));
  }

  lemma SizeIs(image: Image, i: nat)
    ensures image.ExpectedSize(i) == Min(image.blockSize, image.total - i * image.blockSize)
  {
  }

  lemma FlagIs(image: Image, i: nat)
    requires image.Valid() && i < image.BlockCount()
    ensures i + 1 < |image.indexes| && (image.Flagged(i) <==> image.indexes[i] >= 0x8000_0000)
    ensures image.version <= 2
  {
    hide Image.Offset;
  }

  /** The branches of a block over its span. */
  function UnpackedSpan(codec: Codec, version: nat, blockSize: nat, shift: nat, flagged: bool, stored: Bytes, expected: nat)
    : Result<Bytes, CsoError>
    requires expected <= blockSize
  {
    if version <= 1 then
      if flagged then if |stored| < expected then Err(ShortSpan) else Ok(stored[..expected])
      else Inflate(codec, stored)
    else if |stored| >= blockSize then Ok(stored[..expected])
    else if flagged then Lz4Block(codec, stored, expected, shift)
    else Inflate(codec, stored)
  }

  function Checked(r: Result<Bytes, CsoError>, expected: nat): Result<Bytes, CsoError> {
    if r.Ok? && |r.value| != expected then Err(WrongLength) else r
  }

  lemma BlockOfSpan(image: Image, codec: Codec, i: nat, stored: Bytes)
    requires i + 1 < |image.indexes| && 0 <= image.ExpectedSize(i) <= image.blockSize
    requires |stored| == image.Offset(i + 1) - image.Offset(i)
    requires FileRead(image.file, image.Offset(i), |stored|) == stored
    requires image.ExpectedSize(i) <= |stored| ==>
               FileRead(image.file, image.Offset(i), image.ExpectedSize(i)) == stored[..image.ExpectedSize(i)]
    ensures DecodeBlock(image, codec, i)
         == Checked(UnpackedSpan(codec, image.version, image.blockSize, image.shift, image.Flagged(i), stored,
                                 image.ExpectedSize(i)), image.ExpectedSize(i))
  {
    hide Image.Offset, Image.ExpectedSize, FileRead, Lz4Block, Inflate, Image.Flagged;
  }

  lemma CheckedUnpacks(codec: Codec, version: nat, blockSize: nat, shift: nat, flagged: bool, stored: Bytes, expected: nat)
    requires expected <= blockSize && version <= 2
    ensures Unpacks(codec, version, blockSize, shift, flagged, stored, expected,
                    Checked(UnpackedSpan(codec, version, blockSize, shift, flagged, stored, expected), expected))
  {
    hide Lz4Block, LeastTrim, Trims, ExactLz4;
    if codec.lz4Installed {
      Lz4BlockIs(codec, stored, expected, shift);
      Lz4Size(codec, shift, stored, expected);
    } else {
      NoLz4(codec, stored, expected, shift);
    }
  }

  lemma NoLz4(codec: Codec, stored: Bytes, expected: nat, shift: nat)
    requires !codec.lz4Installed
    ensures Lz4Block(codec, stored, expected, shift) == Err(NoLz4Engine)
  {
  }

  lemma Lz4Size(codec: Codec, shift: nat, stored: Bytes, expected: nat)
    ensures forall block :: LeastTrim(codec, shift, stored, expected, block) ==> |block| == expected
  {
  }

  lemma SpanRead(image: Image, i: nat, n: nat)
    requires image.Valid() && i < image.BlockCount()
    ensures var stored := Span(image, i);
            && |stored| == image.Offset(i + 1) - image.Offset(i)
            && FileRead(image.file, image.Offset(i), |stored|) == stored
            && (n <= |stored| ==> FileRead(image.file, image.Offset(i), n) == stored[..n])
  {
    hide Shl, Pow2, Image.Valid, Image.Offset, FileRead;
    SpanInFile(image, i);
    var stored := Span(image, i);
    ReadInside(image.file, image.Offset(i), |stored|);
    if n <= |stored| {
      ReadInside(image.file, image.Offset(i), n);
      SliceOfSlice(image.file, image.Offset(i), image.Offset(i + 1), image.Offset(i), image.Offset(i) + n);
    }
  }

  lemma ReadInside(file: Bytes, offset: nat, n: nat)
    requires offset + n <= |file|
    ensures FileRead(file, offset, n) == file[offset..offset + n]
  {
  }

  /** A span unpacks in one way only. */
  lemma UnpacksOnce(codec: Codec, version: nat, blockSize: nat, shift: nat, flagged: bool, stored: Bytes, expected: nat,
                    r: Result<Bytes, CsoError>, s: Result<Bytes, CsoError>)
    requires expected <= blockSize
    requires Unpacks(codec, version, blockSize, shift, flagged, stored, expected, r)
    requires Unpacks(codec, version, blockSize, shift, flagged, stored, expected, s)
    ensures r == s
  {
    hide Trims, ExactLz4, LeastTrim;
    forall a, b | LeastTrim(codec, shift, stored, expected, a) && LeastTrim(codec, shift, stored, expected, b)
      ensures a == b
      ensures exists pad: nat :: Trims(shift, stored, pad) && ExactLz4(codec, stored, pad, expected)
    {
      OneLeastTrim(codec, shift, stored, expected, a, b);
    }
  }

  lemma OneLeastTrim(codec: Codec, shift: nat, stored: Bytes, expected: nat, a: Bytes, b: Bytes)
    requires LeastTrim(codec, shift, stored, expected, a) && LeastTrim(codec, shift, stored, expected, b)
    ensures a == b
    ensures exists pad: nat :: Trims(shift, stored, pad) && ExactLz4(codec, stored, pad, expected)
  {
    hide ExactLz4;
    var x: nat :| Trims(shift, stored, x) && ExactLz4(codec, stored, x, expected)
      && codec.lz4(stored[..|stored| - x], expected) == Some(a)
      && forall q: nat :: q < x ==> !ExactLz4(codec, stored, q, expected);
    var y: nat :| Trims(shift, stored, y) && ExactLz4(codec, stored, y, expected)
      && codec.lz4(stored[..|stored| - y], expected) == Some(b)
      && forall q: nat :: q < y ==> !ExactLz4(codec, stored, q, expected);
    assert x == y;
  }

  // ---- The writer ----

  /** The bytes stored for one block, alignment padding included, and its index flag. */
  datatype Area = Area(bytes: Bytes, flagged: bool)

  /** A CISO file in parts: header fields, `lead` bytes before the first block, the blocks back to back,
      and whatever follows them. */
  datatype Archive = Archive(
    version: Byte, blockSize: nat, total: nat, shift: Byte, headerSize: nat, reserved: (Byte, Byte),
    lead: Bytes, areas: seq<Area>, lastFlagged: bool, tail: Bytes)
  {
    /** Where block `i` starts; the last index entry is the end of the last block. */
    function Start(i: nat): (p: nat)
      requires i <= |areas|
      ensures p >= 24 + 4 * (|areas| + 1)
    {
      if i == 0 then 24 + 4 * (|areas| + 1) + |lead| else Start(i - 1) + |areas[i - 1].bytes|
    }

    function Flag(i: nat): bool
      requires i <= |areas|
    {
      if i < |areas| then areas[i].flagged else lastFlagged
    }

    /** The top bit is the flag, the rest the start in units of `2^shift` bytes. */
    function Entry(i: nat): nat
      requires i <= |areas|
    {
      QuotientIsNat(Start(i), Pow2(shift));
      Start(i) / Pow2(shift) + if Flag(i) then 0x8000_0000 else 0
    }

    ghost predicate Fits() {
      && version <= 2 && 0 < blockSize < 0x1_0000_0000 && 0 < total < 0x1_0000_0000_0000_0000
      && shift <= 31 && headerSize < 0x1_0000_0000
      && (version == 2 ==> headerSize == 24 && reserved == (0, 0) && !lastFlagged)
      && |areas| >= 1 && (|areas| - 1) * blockSize < total <= |areas| * blockSize
      && forall i :: 0 <= i <= |areas| ==> StartFits(i)
    }

    /** Block `i` starts at a multiple of `2^shift` that 31 bits of units can count. */
    ghost predicate StartFits(i: nat)
      requires i <= |areas|
    {
      Start(i) % Pow2(shift) == 0 && Start(i) / Pow2(shift) < 0x8000_0000
    }

    function Header(): Bytes {
      [0x43, 0x49, 0x53, 0x4F] + LEBytes(headerSize, 4) + LEBytes(total, 8) + LEBytes(blockSize, 4)
      + [version, shift, reserved.0, reserved.1]
    }

    function Table(n: nat): (s: Bytes)
      requires n <= |areas| + 1
      ensures |s| == 4 * n
    {
      if n == 0 then [] else Table(n - 1) + LEBytes(Entry(n - 1), 4)
    }

    function Blocks(n: nat): (s: Bytes)
      requires n <= |areas|
      ensures |s| == Start(n) - Start(0)
    {
      if n == 0 then [] else Blocks(n - 1) + areas[n - 1].bytes
    }

    function File(): Bytes {
      Header() + (Table(|areas| + 1) + (lead + (Blocks(|areas|) + tail)))
    }

    /** The piece of the content that block `i` holds. */
    function Piece(content: Bytes, i: nat): Bytes
      requires Fits() && |content| == total && i < |areas|
    {
      PieceFits(this, i);
      content[i * blockSize..Min((i + 1) * blockSize, total)]
    }

    /** Every block was packed from its own piece of the content. */
    ghost predicate Packs(codec: Codec, content: Bytes) {
      && Fits() && |content| == total
      && forall i :: 0 <= i < |areas| ==>
           |Piece(content, i)| <= blockSize
           && Unpacks(codec, version, blockSize, shift, areas[i].flagged, areas[i].bytes, |Piece(content, i)|,
                      Ok(Piece(content, i)))
    }
  }

  lemma QuotientIsNat(x: nat, y: nat)
    requires y > 0
    ensures x / y >= 0
  {
  }

  lemma PieceFits(a: Archive, i: nat)
    requires a.Fits() && i < |a.areas|
    ensures 0 <= i * a.blockSize < Min((i + 1) * a.blockSize, a.total) <= a.total
    ensures Min((i + 1) * a.blockSize, a.total) - i * a.blockSize == Min(a.blockSize, a.total - i * a.blockSize) <= a.blockSize
  {
    Below(i, |a.areas| - 1, a.blockSize);
    assert i * a.blockSize <= (|a.areas| - 1) * a.blockSize;
    assert (i + 1) * a.blockSize == i * a.blockSize + a.blockSize;
  }

  // ---- Opening a written file ----

  lemma FileStands(a: Archive)
    ensures StandsAt(a.File(), 0, a.Header()) && |a.Header()| == 24
    ensures StandsAt(a.File(), 24, a.Table(|a.areas| + 1))
    ensures StandsAt(a.File(), a.Start(0), a.Blocks(|a.areas|))
  {
    hide StandsAt, LEBytes, Archive.Table, Archive.Blocks;
    var file, table, blocks := a.File(), a.Table(|a.areas| + 1), a.Blocks(|a.areas|);
    WholeStands(file);
    PartsStand(file, 0, a.Header(), table + (a.lead + (blocks + a.tail)));
    PartsStand(file, 24, table, a.lead + (blocks + a.tail));
    PartsStand(file, 24 + |table|, a.lead, blocks + a.tail);
    PartsStand(file, a.Start(0), blocks, a.tail);
  }

  lemma {:induction false} EntriesStand(a: Archive, n: nat, file: Bytes)
    requires n <= |a.areas| + 1 && StandsAt(file, 24, a.Table(n))
    ensures forall i: nat :: i < n ==> StandsAt(file, 24 + 4 * i, LEBytes(a.Entry(i), 4))
    decreases n
  {
    hide StandsAt, LEBytes, Archive.Entry;
    if n > 0 {
      PartsStand(file, 24, a.Table(n - 1), LEBytes(a.Entry(n - 1), 4));
      EntriesStand(a, n - 1, file);
    }
  }

  lemma {:induction false} BlocksStand(a: Archive, n: nat, file: Bytes)
    requires n <= |a.areas| && StandsAt(file, a.Start(0), a.Blocks(n))
    ensures forall i: nat :: i < n ==> StandsAt(file, a.Start(i), a.areas[i].bytes)
    decreases n
  {
    hide StandsAt, Archive.Start, Archive.Blocks;
    if n > 0 {
      BlocksStep(a, n);
      PartsStand(file, a.Start(0), a.Blocks(n - 1), a.areas[n - 1].bytes);
      BlocksStand(a, n - 1, file);
    }
  }

  lemma BlocksStep(a: Archive, n: nat)
    requires 0 < n <= |a.areas|
    ensures a.Blocks(n) == a.Blocks(n - 1) + a.areas[n - 1].bytes
    ensures a.Start(0) + |a.Blocks(n - 1)| == a.Start(n - 1)
  {
  }

  lemma {:induction false} StartsAscend(a: Archive, i: nat, j: nat)
    requires i <= j <= |a.areas|
    ensures a.Start(i) <= a.Start(j)
    decreases j
  {
    if i < j {
      StartsAscend(a, i, j - 1);
    }
  }

  /** The image a written file opens as. */
  function Opened(a: Archive): Image {
    Image(a.File(), a.version, a.blockSize, a.total, a.shift,
          seq(|a.areas| + 1, i requires 0 <= i < |a.areas| + 1 => a.Entry(i)))
  }

  lemma EntryReads(a: Archive, i: nat)
    requires a.Fits() && i <= |a.areas|
    ensures a.Entry(i) < 0x1_0000_0000 && (a.Entry(i) >= 0x8000_0000 <==> a.Flag(i))
    ensures a.Entry(i) % 0x8000_0000 * Pow2(a.shift) == a.Start(i)
  {
    hide Archive.Start, Pow2;
    assert a.StartFits(i);
    var q := a.Start(i) / Pow2(a.shift);
    assert a.Entry(i) % 0x8000_0000 == q;
    assert a.Start(i) == Pow2(a.shift) * q;
  }

  lemma OpenedOffsets(a: Archive)
    requires a.Fits()
    ensures forall i :: 0 <= i <= |a.areas| ==>
              Opened(a).Offset(i) == a.Start(i) <= |a.File()| && Opened(a).Flagged(i) == a.Flag(i)
  {
    hide Archive.Start, Pow2, Shl, Archive.Fits, StandsAt, Archive.File, Archive.Entry, Archive.Flag, Archive.Blocks;
    FileStands(a);
    BlocksInFile(a);
    forall i | 0 <= i <= |a.areas|
      ensures Opened(a).Offset(i) == a.Start(i) <= |a.File()| && Opened(a).Flagged(i) == a.Flag(i)
    {
      EntryReads(a, i);
      ShlIsTimes(a.Entry(i) % 0x8000_0000, a.shift);
      StartsAscend(a, i, |a.areas|);
    }
  }

  lemma BlocksInFile(a: Archive)
    requires StandsAt(a.File(), a.Start(0), a.Blocks(|a.areas|))
    ensures a.Start(|a.areas|) <= |a.File()|
  {
  }

  lemma HeaderReads(a: Archive)
    requires a.Fits()
    ensures var file := a.File();
            && |file| >= 24 && file[..4] == [0x43, 0x49, 0x53, 0x4F] && LE(file[4..8]) == a.headerSize
            && LE(file[8..16]) == a.total && LE(file[16..20]) == a.blockSize
            && file[20] == a.version && file[21] == a.shift && file[22..24] == [a.reserved.0, a.reserved.1]
  {
    HeaderFields(a);
    FileStands(a);
    var file, h := a.File(), a.Header();
    assert file[0..24] == h;
    hide LE, Archive.File, Archive.Header, StandsAt;
    SliceOfSlice(file, 0, 24, 0, 4);
    SliceOfSlice(file, 0, 24, 4, 8);
    SliceOfSlice(file, 0, 24, 8, 16);
    SliceOfSlice(file, 0, 24, 16, 20);
    SliceOfSlice(file, 0, 24, 22, 24);
    assert file[20] == h[20] && file[21] == h[21];
  }

  lemma HeaderFields(a: Archive)
    requires a.Fits()
    ensures var h := a.Header();
            && |h| == 24 && h[0..4] == [0x43, 0x49, 0x53, 0x4F] && LE(h[4..8]) == a.headerSize
            && LE(h[8..16]) == a.total && LE(h[16..20]) == a.blockSize
            && h[20] == a.version && h[21] == a.shift && h[22..24] == [a.reserved.0, a.reserved.1]
  {
    hide LE, LEBytes, Pow2;
    Pow2Words();
    LEBytesRoundTrip(a.headerSize, 4);
    LEBytesRoundTrip(a.total, 8);
    LEBytesRoundTrip(a.blockSize, 4);
    var h := a.Header();
    assert h[4..8] == LEBytes(a.headerSize, 4);
    assert h[8..16] == LEBytes(a.total, 8);
    assert h[16..20] == LEBytes(a.blockSize, 4);
  }

  lemma TableReads(a: Archive)
    requires a.Fits()
    ensures 24 + 4 * (|a.areas| + 1) <= |a.File()|
    ensures ReadIndexes(a.File(), |a.areas| + 1) == Opened(a).indexes
  {
    hide LE, LEBytes, Pow2, Archive.File, Archive.Entry, Archive.Fits, Archive.Table;
    FileStands(a);
    EntriesStand(a, |a.areas| + 1, a.File());
    Pow2Words();
    forall i: nat | i < |a.areas| + 1 ensures LE(a.File()[24 + 4 * i..28 + 4 * i]) == a.Entry(i) {
      EntryReads(a, i);
      LEBytesRoundTrip(a.Entry(i), 4);
      assert StandsAt(a.File(), 24 + 4 * i, LEBytes(a.Entry(i), 4));
    }
  }

  lemma CeilDivIs(total: nat, blockSize: nat, n: nat)
    requires blockSize > 0 && total > 0 && (n - 1) * blockSize < total <= n * blockSize
    ensures CeilDiv(total, blockSize) == n
  {
    CeilDivBounds(total, blockSize);
    var m := CeilDiv(total, blockSize);
    Below(m - 1, n, blockSize);
    Below(n - 1, m, blockSize);
  }

  /** A written file opens as the image it was written for. */
  lemma WrittenOpens(a: Archive)
    requires a.Fits()
    ensures OpenImage(a.File()) == Ok(Opened(a))
  {
    hide *;
    HeaderReads(a);
    TableReads(a);
    OpenedOffsets(a);
    StartsAscendAll(a);
    FitFields(a);
    CeilDivIs(a.total, a.blockSize, |a.areas|);
    OpenedFields(a);
    OpenAccepts(a.File(), a.headerSize, a.reserved, Opened(a));
  }

  lemma FitFields(a: Archive)
    requires a.Fits()
    ensures a.version <= 2 && a.blockSize > 0 && a.total > 0 && a.shift <= 31 && |a.areas| >= 1
    ensures a.version == 2 ==> a.headerSize == 24 && a.reserved == (0, 0) && !a.lastFlagged
    ensures (|a.areas| - 1) * a.blockSize < a.total <= |a.areas| * a.blockSize
  {
    hide Archive.StartFits;
  }

  lemma OpenedFields(a: Archive)
    ensures var image := Opened(a);
            && image.file == a.File() && image.version == a.version && image.blockSize == a.blockSize
            && image.total == a.total && image.shift == a.shift && |image.indexes| == |a.areas| + 1
            && a.Flag(|a.areas|) == a.lastFlagged && a.Start(0) >= 24 + 4 * (|a.areas| + 1)
  {
    hide Archive.File, Archive.Entry;
  }

  /** An image passes every check of opening. */
  lemma OpenAccepts(file: Bytes, headerSize: nat, reserved: (Byte, Byte), image: Image)
    requires |file| >= 24 && file[..4] == [0x43, 0x49, 0x53, 0x4F] && LE(file[4..8]) == headerSize
    requires LE(file[8..16]) == image.total && LE(file[16..20]) == image.blockSize
    requires file[20] == image.version && file[21] == image.shift && file[22..24] == [reserved.0, reserved.1]
    requires image.version <= 2 && image.blockSize > 0 && image.total > 0 && image.shift <= 31
    requires CeilDiv(image.total, image.blockSize) == |image.indexes| - 1
    requires 24 + 4 * |image.indexes| <= |file| && image.file == file
    requires ReadIndexes(file, |image.indexes|) == image.indexes
    requires 24 + 4 * |image.indexes| <= image.Offset(0)
    requires forall i :: 0 <= i < |image.indexes| - 1 ==> image.Offset(i) <= image.Offset(i + 1)
    requires forall i :: 0 <= i < |image.indexes| ==> image.Offset(i) <= |file|
    requires image.version == 2 ==> headerSize == 24 && reserved == (0, 0) && !image.Flagged(|image.indexes| - 1)
    ensures OpenImage(file) == Ok(image)
  {
    hide LE, Image.Offset, Image.Flagged, ReadIndexes, CeilDiv;
  }

  lemma StartsAscendAll(a: Archive)
    ensures forall i :: 0 <= i < |a.areas| ==> a.Start(i) <= a.Start(i + 1)
  {
    forall i | 0 <= i < |a.areas| ensures a.Start(i) <= a.Start(i + 1) {
      StartsAscend(a, i, i + 1);
    }
  }

  // ---- Reading a written file back ----

  lemma BlockStored(a: Archive, i: nat)
    requires a.Fits() && i < |a.areas| && Opened(a).Valid() && i < Opened(a).BlockCount()
    ensures Span(Opened(a), i) == a.areas[i].bytes
    ensures Opened(a).indexes[i] >= 0x8000_0000 <==> a.areas[i].flagged
  {
    hide StandsAt, Pow2, Shl, Archive.File, Archive.Entry, Archive.Blocks, Archive.Fits, Image.Valid, Archive.Start;
    SpanInFile(Opened(a), i);
    OpenedOffsets(a);
    FileStands(a);
    BlocksStand(a, |a.areas|, a.File());
    NextStart(a, i);
    Stood(a.File(), a.Start(i), a.areas[i].bytes);
  }

  lemma NextStart(a: Archive, i: nat)
    requires i < |a.areas|
    ensures a.Start(i + 1) == a.Start(i) + |a.areas[i].bytes|
  {
  }

  lemma WrittenValid(a: Archive)
    requires a.Fits()
    ensures Opened(a).Valid() && Opened(a).BlockCount() == |a.areas|
  {
    hide Archive.File, Archive.Entry, Archive.Fits, Image.Valid, OpenImage;
    WrittenOpens(a);
    OpenedIsValid(a.File());
  }

  /** Each block of a written file decodes to the piece it was packed from. */
  lemma WrittenBlock(a: Archive, codec: Codec, content: Bytes, i: nat)
    requires a.Packs(codec, content) && i < |a.areas|
    ensures Opened(a).Valid() && i < Opened(a).BlockCount() && Opened(a).ExpectedSize(i) >= 0
    ensures DecodeBlock(Opened(a), codec, i) == Ok(a.Piece(content, i))
  {
    WrittenValid(a);
    PieceFits(a, i);
    hide Archive.File, Archive.Entry, Image.Valid, DecodeBlock, Unpacks, Span;
    BlockUnpacks(Opened(a), codec, i);
    BlockStored(a, i);
    assert |a.Piece(content, i)| == Opened(a).ExpectedSize(i);
    UnpacksOnce(codec, a.version, a.blockSize, a.shift, a.areas[i].flagged, a.areas[i].bytes, Opened(a).ExpectedSize(i),
                DecodeBlock(Opened(a), codec, i), Ok(a.Piece(content, i)));
  }

  lemma WrittenByte(a: Archive, codec: Codec, content: Bytes, p: nat)
    requires a.Packs(codec, content) && p < |content|
    ensures Opened(a).Valid() && p < Opened(a).total && Readable(Opened(a), codec, p)
    ensures FlatByte(Opened(a), codec, p) == content[p]
  {
    WrittenValid(a);
    BlockInRange(Opened(a), p);
    var i := BlockOf(Opened(a), p);
    PieceFits(a, i);
    hide Archive.File, Archive.Entry, Image.Valid, DecodeBlock, Unpacks;
    WrittenBlock(a, codec, content, i);
  }

  /** The next bytes of a plain byte stream and the position after them; a negative size asks for the rest. */
  function PlainRead(content: Bytes, position: nat, size: int): (Bytes, nat) {
    if position >= |content| then ([], position)
    else
      var end := if size < 0 then |content| else Min(position + size, |content|);
      (content[position..end], end)
  }

  /** What a history of calls shows on a plain seekable byte stream. */
  function PlainHistory(content: Bytes, position: nat, ops: seq<Op>): (seq<Outcome>, nat)
    decreases |ops|
  {
    if ops == [] then ([], position)
    else
      var (outcome, next) :=
        match ops[0]
        case TellOp => (At(position), position)
        case ReadOp(size) =>
          (Got(PlainRead(content, position, size).0), PlainRead(content, position, size).1)
        case SeekOp(offset, whence) =>
          if whence !in {0, 1, 2} then (Failed(BadWhence), position)
          else
            var origin := if whence == 0 then 0 else if whence == 1 then position else |content|;
            if origin + offset < 0 then (Failed(NegativeSeek), position) else (At(origin + offset), origin + offset);
      var (rest, last) := PlainHistory(content, next, ops[1..]);
      ([outcome] + rest, last)
  }

  lemma WrittenFlat(a: Archive, codec: Codec, content: Bytes, p: nat, end: nat)
    requires a.Packs(codec, content) && p <= end <= |content|
    ensures Opened(a).Valid() && end <= Opened(a).total
    ensures FirstUnreadable(Opened(a), codec, p, end) == end
    ensures forall q :: p <= q < end ==> Readable(Opened(a), codec, q)
    ensures Flat(Opened(a), codec, p, end) == content[p..end]
  {
    hide *;
    WrittenTotal(a, codec, content);
    forall q: nat | q < |content|
      ensures Readable(Opened(a), codec, q) && FlatByte(Opened(a), codec, q) == content[q]
    {
      WrittenByte(a, codec, content, q);
    }
    FirstUnreadableIs(Opened(a), codec, p, end, end);
    FlatIs(Opened(a), codec, content, p, end);
  }

  lemma FlatIs(image: Image, codec: Codec, content: Bytes, p: nat, end: nat)
    requires image.Valid() && image.total == |content| && p <= end <= |content|
    requires forall q: nat :: q < |content| ==> Readable(image, codec, q) && FlatByte(image, codec, q) == content[q]
    ensures Flat(image, codec, p, end) == content[p..end]
  {
    hide Image.Valid, Readable, FlatByte;
  }

  lemma WrittenRead(a: Archive, codec: Codec, content: Bytes, position: nat, size: int)
    requires a.Packs(codec, content)
    ensures Opened(a).Valid()
    ensures var (bytes, next) := PlainRead(content, position, size);
            ReadSpec(Opened(a), codec, position, size) == (Ok(bytes), next)
  {
    hide *;
    WrittenTotal(a, codec, content);
    var image := Opened(a);
    OwedPlain(image, content, position, size);
    var n := Owed(image, position, size);
    if n == 0 {
      NothingOwed(image, codec, position, size);
    } else {
      ReadSpecIs(image, codec, position, size);
      WrittenFlat(a, codec, content, position, position + n);
      WholeRead(image, codec, position, position + n);
    }
  }

  lemma OwedPlain(image: Image, content: Bytes, position: nat, size: int)
    requires image.total == |content|
    ensures var n := Owed(image, position, size);
            if n == 0 then PlainRead(content, position, size) == ([], position)
            else position + n <= |content|
                 && PlainRead(content, position, size) == (content[position..position + n], position + n)
  {
    if position < |content| && size == 0 {
      assert content[position..position] == [];
    }
  }

  lemma WrittenTotal(a: Archive, codec: Codec, content: Bytes)
    requires a.Packs(codec, content)
    ensures Opened(a).Valid() && Opened(a).total == |content|
  {
    hide Image.Valid, Archive.File, Archive.Entry, Unpacks;
    WrittenValid(a);
  }

  lemma NothingOwed(image: Image, codec: Codec, position: nat, size: int)
    requires image.Valid() && Owed(image, position, size) == 0
    ensures ReadSpec(image, codec, position, size) == (Ok([]), position)
  {
  }

  lemma WholeRead(image: Image, codec: Codec, p: nat, end: nat)
    requires image.Valid() && p <= end <= image.total && FirstUnreadable(image, codec, p, end) == end
    requires forall q :: p <= q < end ==> Readable(image, codec, q)
    ensures OwedSpec(image, codec, p, end) == (Ok(Flat(image, codec, p, end)), end)
  {
    hide Image.Valid, Readable, FirstUnreadable, Flat;
  }

  /** Any history on a packed file shows what it shows on the plain content. */
  lemma {:induction false} WrittenHistory(a: Archive, codec: Codec, content: Bytes, position: nat, ops: seq<Op>)
    requires a.Packs(codec, content)
    ensures Opened(a).Valid()
    ensures HistorySpec(Opened(a), codec, position, ops) == PlainHistory(content, position, ops)
    decreases |ops|
  {
    WrittenValid(a);
    if ops != [] {
      hide Archive.File, Archive.Entry, Image.Valid, ReadSpec, PlainRead;
      if ops[0].ReadOp? {
        WrittenRead(a, codec, content, position, ops[0].size);
      }
      var next := OpSpec(Opened(a), codec, position, ops[0]).1;
      WrittenHistory(a, codec, content, next, ops[1..]);
    }
  }

  /** Opens a file and answers a history of calls through the cached reader. */
  method Serve(file: Bytes, codec: Codec, ops: seq<Op>) returns (r: Result<seq<Outcome>, CsoError>)
    ensures OpenImage(file).Err? ==> r == Err(OpenImage(file).error)
    ensures OpenImage(file).Ok? ==> OpenImage(file).value.Valid()
                                    && r == Ok(HistorySpec(OpenImage(file).value, codec, 0, ops).0)
  {
    hide OpenImage, Image.Valid, HistorySpec;
    var image := OpenImage(file);
    if image.Err? {
      return Err(image.error);
    }
    OpenedIsValid(file);
    var reader := new Reader(image.value, codec);
    var outcomes := Replay(reader, ops);
    r := Ok(outcomes);
  }

  /** Packing is undone: whatever the version, the block packing and the codec, the packed file serves every
      history of seeks, reads and tells exactly as the content it was packed from. */
  lemma PackedServesContent(a: Archive, codec: Codec, content: Bytes, ops: seq<Op>)
    requires a.Packs(codec, content)
    ensures OpenImage(a.File()) == Ok(Opened(a)) && Opened(a).Valid()
    ensures HistorySpec(Opened(a), codec, 0, ops) == PlainHistory(content, 0, ops)
  {
    hide Archive.File, Archive.Entry, Image.Valid, OpenImage;
    WrittenOpens(a);
    WrittenHistory(a, codec, content, 0, ops);
  }

  // ---- Every file that opens is a written one ----

  /** The table ends before the first block, and offsets never decrease or leave the file. */
  ghost predicate Laid(image: Image) {
    && |image.indexes| >= 2 && 24 + 4 * |image.indexes| <= image.Offset(0)
    && forall i, j :: 0 <= i <= j < |image.indexes| ==> image.Offset(i) <= image.Offset(j) <= |image.file|
  }

  lemma {:induction false} OffsetsAscend(image: Image, i: nat, j: nat)
    requires image.Valid() && i <= j < |image.indexes|
    ensures image.Offset(i) <= image.Offset(j) <= |image.file|
    decreases j
  {
    hide Shl;
    if i < j {
      OffsetsAscend(image, i, j - 1);
      assert image.Offset(j - 1) <= image.Offset(j - 1 + 1);
    }
  }

  /** What opening has checked. */
  lemma OpenFacts(file: Bytes)
    requires OpenImage(file).Ok?
    ensures var image := OpenImage(file).value;
            && image.Valid() && image.file == file && |file| >= 24 && Laid(image)
            && file[..4] == [0x43, 0x49, 0x53, 0x4F] && image.version == file[20] && image.shift == file[21] <= 31
            && image.total == LE(file[8..16]) && image.blockSize == LE(file[16..20])
            && (image.version == 2 ==> LE(file[4..8]) == 24 && file[22..24] == [0, 0]
                                       && !image.Flagged(|image.indexes| - 1))
            && image.indexes == ReadIndexes(file, |image.indexes|)
  {
    OpenedIsValid(file);
    var image := OpenImage(file).value;
    hide LE, CeilDiv, Shl;
    forall i, j | 0 <= i <= j < |image.indexes| ensures image.Offset(i) <= image.Offset(j) <= |image.file| {
      OffsetsAscend(image, i, j);
    }
    hide Image.Valid;
  }

  /** The parts of a file that opens. */
  ghost function PartsOf(image: Image): Archive
    requires |image.file| >= 24 && Laid(image)
  {
    var n, file := |image.indexes| - 1, image.file;
    Archive(file[20], image.blockSize, image.total, file[21], LE(file[4..8]), (file[22], file[23]),
            file[24 + 4 * (n + 1)..image.Offset(0)],
            seq(n, i requires 0 <= i < n => Area(file[image.Offset(i)..image.Offset(i + 1)], image.Flagged(i))),
            image.Flagged(n), file[image.Offset(n)..])
  }

  lemma PartAt(image: Image, i: nat)
    requires |image.file| >= 24 && Laid(image) && i <= |PartsOf(image).areas|
    ensures i < |image.indexes| == |PartsOf(image).areas| + 1 && image.Offset(i) <= |image.file|
    ensures PartsOf(image).Flag(i) == image.Flagged(i)
    ensures i < |PartsOf(image).areas| ==>
              && image.Offset(i) <= image.Offset(i + 1) <= |image.file|
              && PartsOf(image).areas[i].bytes == image.file[image.Offset(i)..image.Offset(i + 1)]
  {
    hide Image.Offset, LE, Image.Flagged;
  }

  lemma {:induction false} PartsStart(image: Image, i: nat)
    requires |image.file| >= 24 && Laid(image) && i <= |PartsOf(image).areas|
    ensures i < |image.indexes| && PartsOf(image).Start(i) == image.Offset(i)
    decreases i
  {
    hide Image.Offset, LE, Image.Flagged;
    if i > 0 {
      PartsStart(image, i - 1);
      PartAt(image, i - 1);
      NextStart(PartsOf(image), i - 1);
    }
  }

  lemma WordSplitsAtTop(x: nat)
    requires x < 0x1_0000_0000
    ensures x == x % 0x8000_0000 + if x >= 0x8000_0000 then 0x8000_0000 else 0
  {
  }

  lemma ShiftedBack(q: nat, k: nat)
    ensures Shl(q, k) % Pow2(k) == 0 && Shl(q, k) / Pow2(k) == q
  {
    hide Pow2, Shl;
    ShlIsTimes(q, k);
    var m := Pow2(k);
    ExactQuotient(q, m);
  }

  lemma ExactQuotient(q: nat, m: nat)
    requires m > 0
    ensures q * m % m == 0 && q * m / m == q
  {
    var x, r := q * m / m, q * m % m;
    assert q * m == m * x + r;
    Below(x - q, 1, m);
    Below(0 - (x - q), 1, m);
    assert (x - q) * m == 0 - r;
  }

  lemma IndexReads(file: Bytes, count: nat, i: nat)
    requires 24 + 4 * count <= |file| && i < count
    ensures ReadIndexes(file, count)[i] == LE(file[24 + 4 * i..28 + 4 * i]) < 0x1_0000_0000
  {
    Pow2Words();
    LERoundTrip(file[24 + 4 * i..28 + 4 * i]);
  }

  /** A table read from the file. */
  ghost predicate TableRead(image: Image) {
    && |image.file| >= 24 && Laid(image) && 24 + 4 * |image.indexes| <= |image.file| && image.shift == image.file[21]
    && image.indexes == ReadIndexes(image.file, |image.indexes|)
  }

  lemma PartsEntry(image: Image, i: nat)
    requires TableRead(image) && i < |image.indexes|
    ensures var a := PartsOf(image);
            && i <= |a.areas| && a.Start(i) % Pow2(image.shift) == 0
            && a.Start(i) / Pow2(image.shift) < 0x8000_0000
            && a.shift == image.shift && 28 + 4 * i <= |image.file|
            && a.Entry(i) == LE(image.file[24 + 4 * i..28 + 4 * i])
  {
    assert |PartsOf(image).areas| == |image.indexes| - 1 && PartsOf(image).shift == image.shift;
    IndexReads(image.file, |image.indexes|, i);
    hide ReadIndexes, PartsOf, Laid, LE, Pow2, Archive.Start, Shl;
    PartsStart(image, i);
    PartAt(image, i);
    ShiftedBack(image.indexes[i] % 0x8000_0000, image.shift);
    WordSplitsAtTop(image.indexes[i]);
  }

  lemma {:induction false} PartsTable(image: Image, n: nat)
    requires TableRead(image) && n <= |image.indexes|
    ensures |PartsOf(image).areas| == |image.indexes| - 1 && StandsAt(image.file, 24, PartsOf(image).Table(n))
    decreases n
  {
    hide *;
    TableBounds(image);
    if n == 0 {
      NoTable(PartsOf(image));
      NothingStands(image.file, 24);
    } else {
      PartsTable(image, n - 1);
      PartsEntry(image, n - 1);
      TableGrows(image.file, PartsOf(image).Table(n - 1), n - 1);
      TableStep(PartsOf(image), n);
    }
  }

  lemma TableBounds(image: Image)
    requires TableRead(image)
    ensures |image.file| >= 24 && Laid(image) && 24 + 4 * |image.indexes| <= |image.file|
    ensures |PartsOf(image).areas| == |image.indexes| - 1
  {
    hide Laid, Image.Offset, LE, Image.Flagged, ReadIndexes;
    PartAt(image, 0);
  }

  lemma NoTable(a: Archive)
    ensures a.Table(0) == []
  {
  }

  lemma TableStep(a: Archive, n: nat)
    requires 0 < n <= |a.areas| + 1
    ensures a.Table(n) == a.Table(n - 1) + LEBytes(a.Entry(n - 1), 4)
  {
    hide Archive.Entry, LEBytes;
  }

  lemma TableGrows(file: Bytes, table: Bytes, k: nat)
    requires StandsAt(file, 24, table) && |table| == 4 * k && 28 + 4 * k <= |file|
    ensures StandsAt(file, 24, table + LEBytes(LE(file[24 + 4 * k..28 + 4 * k]), 4))
  {
    hide StandsAt, LE, LEBytes;
    var word := file[24 + 4 * k..28 + 4 * k];
    LERoundTrip(word);
    SliceStands(file, 24 + 4 * k, 28 + 4 * k);
    PartsStand(file, 24, table, word);
  }

  lemma {:induction false} PartsBlocks(image: Image, n: nat)
    requires |image.file| >= 24 && Laid(image) && n <= |PartsOf(image).areas|
    ensures StandsAt(image.file, PartsOf(image).Start(0), PartsOf(image).Blocks(n))
    decreases n
  {
    hide Laid, Image.Offset, LE, StandsAt, Image.Flagged, PartsOf, Archive.Start, Archive.Blocks;
    PartsStart(image, 0);
    PartsStart(image, n);
    var a := PartsOf(image);
    if n == 0 {
      PartAt(image, 0);
      NothingStored(image.file, a);
    } else {
      PartsBlocks(image, n - 1);
      PartsStart(image, n - 1);
      PartAt(image, n - 1);
      SliceStands(image.file, image.Offset(n - 1), image.Offset(n));
      BlocksStep(a, n);
      PartsStand(image.file, a.Start(0), a.Blocks(n - 1), a.areas[n - 1].bytes);
    }
  }

  lemma NothingStored(file: Bytes, a: Archive)
    requires a.Start(0) <= |file|
    ensures StandsAt(file, a.Start(0), a.Blocks(0))
  {
  }

  lemma PartsHeader(file: Bytes)
    requires OpenImage(file).Ok?
    ensures |file| >= 24 && Laid(OpenImage(file).value) && OpenImage(file).value.file == file
    ensures file[0..24] == PartsOf(OpenImage(file).value).Header()
  {
    OpenFacts(file);
    hide OpenImage, Image.Valid, Laid, LE, LEBytes, Image.Flagged, ReadIndexes;
    LERoundTrip(file[4..8]);
    LERoundTrip(file[8..16]);
    LERoundTrip(file[16..20]);
    HeaderPieces(file);
  }

  lemma HeaderPieces(file: Bytes)
    requires |file| >= 24
    ensures file[0..24] == file[..4] + file[4..8] + file[8..16] + file[16..20] + [file[20], file[21], file[22], file[23]]
  {
  }

  /** Parts that stand where the file has them make up the file. */
  lemma PartsRejoin(image: Image)
    requires TableRead(image) && image.file[0..24] == PartsOf(image).Header()
    ensures PartsOf(image).File() == image.file
  {
    hide Laid, PartsOf, Image.Offset, LE, Archive.Header, Archive.Table, Archive.Blocks, Archive.Start, StandsAt,
      ReadIndexes, Image.Flagged;
    var n := |image.indexes| - 1;
    PartsEnds(image);
    PartsTable(image, n + 1);
    PartsBlocks(image, n);
    SliceStands(image.file, 0, 24);
    JoinParts(image.file, PartsOf(image));
  }

  lemma PartsEnds(image: Image)
    requires |image.file| >= 24 && Laid(image)
    ensures var a := PartsOf(image);
            && |a.areas| == |image.indexes| - 1 && |image.indexes| >= 1
            && StandsAt(image.file, 24 + 4 * (|a.areas| + 1), a.lead)
            && StandsAt(image.file, a.Start(|a.areas|), a.tail) && a.Start(|a.areas|) + |a.tail| == |image.file|
  {
    hide *;
    var n := |image.indexes| - 1;
    PartAt(image, 0);
    PartAt(image, n);
    PartsStart(image, n);
    EndParts(image);
    TableBefore(image);
    SliceStands(image.file, 24 + 4 * (n + 1), image.Offset(0));
    SliceStands(image.file, image.Offset(n), |image.file|);
  }

  lemma TableBefore(image: Image)
    requires Laid(image)
    ensures |image.indexes| >= 2 && 24 + 4 * |image.indexes| <= image.Offset(0) <= |image.file|
  {
    hide Image.Offset;
  }

  lemma EndParts(image: Image)
    requires |image.file| >= 24 && Laid(image)
    ensures var n := |image.indexes| - 1;
            && n >= 1 && 24 + 4 * (n + 1) <= image.Offset(0) <= |image.file| && image.Offset(n) <= |image.file|
            && PartsOf(image).lead == image.file[24 + 4 * (n + 1)..image.Offset(0)]
            && PartsOf(image).tail == image.file[image.Offset(n)..|image.file|]
  {
    hide Image.Offset, LE, Image.Flagged;
  }

  lemma JoinParts(file: Bytes, a: Archive)
    requires |a.Header()| == 24 && StandsAt(file, 0, a.Header()) && StandsAt(file, 24, a.Table(|a.areas| + 1))
    requires StandsAt(file, 24 + 4 * (|a.areas| + 1), a.lead) && StandsAt(file, a.Start(0), a.Blocks(|a.areas|))
    requires StandsAt(file, a.Start(|a.areas|), a.tail) && a.Start(|a.areas|) + |a.tail| == |file|
    ensures a.File() == file
  {
    hide *;
    var table, blocks := a.Table(|a.areas| + 1), a.Blocks(|a.areas|);
    FirstStart(a);
    FileIs(a);
    PartsStand(file, a.Start(0), blocks, a.tail);
    PartsStand(file, 24 + 4 * (|a.areas| + 1), a.lead, blocks + a.tail);
    PartsStand(file, 24, table, a.lead + (blocks + a.tail));
    PartsStand(file, 0, a.Header(), table + (a.lead + (blocks + a.tail)));
    AllStands(file, a.File());
  }

  lemma FirstStart(a: Archive)
    ensures a.Start(0) == 24 + 4 * (|a.areas| + 1) + |a.lead|
    ensures |a.Blocks(|a.areas|)| == a.Start(|a.areas|) - a.Start(0) && |a.Table(|a.areas| + 1)| == 4 * (|a.areas| + 1)
  {
    hide Archive.Blocks, Archive.Table;
  }

  lemma FileIs(a: Archive)
    ensures a.File() == a.Header() + (a.Table(|a.areas| + 1) + (a.lead + (a.Blocks(|a.areas|) + a.tail)))
  {
  }

  lemma AllStands(file: Bytes, s: Bytes)
    requires StandsAt(file, 0, s) && |s| == |file|
    ensures s == file
  {
  }

  lemma PartsFit(file: Bytes)
    requires OpenImage(file).Ok?
    ensures |file| >= 24 && Laid(OpenImage(file).value) && OpenImage(file).value.file == file
    ensures PartsOf(OpenImage(file).value).Fits()
  {
    hide *;
    OpenFacts(file);
    var image := OpenImage(file).value;
    OpenedTable(image);
    WordsFit(file);
    SizesFit(image);
    PartFields(image);
    StartsFit(image);
    FitsFrom(PartsOf(image));
  }

  lemma OpenedTable(image: Image)
    requires |image.file| >= 24 && Laid(image) && image.shift == image.file[21]
    requires 24 + 4 * |image.indexes| <= |image.file| ==>
               image.indexes == ReadIndexes(image.file, |image.indexes|)
    ensures TableRead(image)
  {
    hide Image.Offset, ReadIndexes;
  }

  lemma WordsFit(file: Bytes)
    requires |file| >= 24
    ensures LE(file[4..8]) < 0x1_0000_0000 && LE(file[16..20]) < 0x1_0000_0000
    ensures LE(file[8..16]) < 0x1_0000_0000_0000_0000
    ensures file[22..24] == [file[22], file[23]]
  {
    hide LE, Pow2;
    Pow2Words();
    LERoundTrip(file[4..8]);
    LERoundTrip(file[8..16]);
    LERoundTrip(file[16..20]);
  }

  lemma SizesFit(image: Image)
    requires image.Valid()
    ensures image.version <= 2 && image.blockSize > 0 && image.total > 0 && |image.indexes| >= 2
    ensures (|image.indexes| - 2) * image.blockSize < image.total <= (|image.indexes| - 1) * image.blockSize
  {
    hide Image.Offset;
  }

  lemma PartFields(image: Image)
    requires |image.file| >= 24 && Laid(image)
    ensures var a, file := PartsOf(image), image.file;
            && a.version == file[20] && a.blockSize == image.blockSize && a.total == image.total && a.shift == file[21]
            && a.headerSize == LE(file[4..8]) && a.reserved == (file[22], file[23])
            && |a.areas| == |image.indexes| - 1 && a.lastFlagged == image.Flagged(|image.indexes| - 1)
  {
    hide Image.Offset, LE, Image.Flagged;
  }

  lemma StartsFit(image: Image)
    requires TableRead(image) && |PartsOf(image).areas| == |image.indexes| - 1 && PartsOf(image).shift == image.shift
    ensures forall i :: 0 <= i <= |PartsOf(image).areas| ==> PartsOf(image).StartFits(i)
  {
    hide PartsOf, Laid, Image.Offset, ReadIndexes, Archive.Start, Archive.Entry, Pow2;
    forall i | 0 <= i <= |PartsOf(image).areas| ensures PartsOf(image).StartFits(i) {
      PartsEntry(image, i);
    }
  }

  lemma FitsFrom(a: Archive)
    requires a.version <= 2 && 0 < a.blockSize < 0x1_0000_0000 && 0 < a.total < 0x1_0000_0000_0000_0000
    requires a.shift <= 31 && a.headerSize < 0x1_0000_0000
    requires a.version == 2 ==> a.headerSize == 24 && a.reserved == (0, 0) && !a.lastFlagged
    requires |a.areas| >= 1 && (|a.areas| - 1) * a.blockSize < a.total <= |a.areas| * a.blockSize
    requires forall i :: 0 <= i <= |a.areas| ==> a.StartFits(i)
    ensures a.Fits()
  {
    hide Archive.StartFits;
  }

  /** A file opens exactly when it is a written one: the reader refuses everything else. */
  lemma OpensIffWritten(file: Bytes)
    ensures OpenImage(file).Ok? <==> exists a: Archive :: a.Fits() && a.File() == file
  {
    hide OpenImage, Archive.Fits, Archive.File;
    if a: Archive :| a.Fits() && a.File() == file {
      WrittenOpens(a);
    }
    if OpenImage(file).Ok? {
      OpenFacts(file);
      PartsHeader(file);
      PartsRejoin(OpenImage(file).value);
      PartsFit(file);
    }
  }

  // ---- Which refusal ----

  /** The file offset of index entry `i`. */
  function StoredOffset(file: Bytes, i: nat): nat
    requires 28 + 4 * i <= |file|
  {
    LE(file[24 + 4 * i..28 + 4 * i]) % 0x8000_0000 * Pow2(file[21])
  }

  /** The checks of an index table of `n + 1` entries. */
  ghost predicate TableRefused(file: Bytes, n: nat, e: CsoError)
    requires |file| >= 24 + 4 * (n + 1)
  {
    if StoredOffset(file, 0) < 24 + 4 * (n + 1) then e == FirstBlockOverlaps
    else if exists i :: 0 <= i < n && StoredOffset(file, i) > StoredOffset(file, i + 1) then e == NotMonotonic
    else if exists i :: 0 <= i <= n && StoredOffset(file, i) > |file| then e == IndexBeyondFile
    else file[20] == 2 && LE(file[24 + 4 * n..28 + 4 * n]) >= 0x8000_0000 && e == FinalFlagSet
  }

  ghost predicate HeaderAccepted(file: Bytes) {
    && |file| >= 24 && file[..4] == Ascii("CISO") && file[20] <= 2 && LE(file[16..20]) > 0 && LE(file[8..16]) > 0
    && file[21] <= 31 && (file[20] == 2 ==> LE(file[4..8]) == 24 && file[22] == 0 && file[23] == 0)
  }

  /** A bad header is refused for the first check that it fails. */
  lemma HeaderRefusal(file: Bytes)
    requires !HeaderAccepted(file)
    ensures OpenImage(file)
         == Err(if |file| < 24 then TruncatedHeader
                else if file[..4] != Ascii("CISO") then BadMagic
                else if file[20] > 2 then BadVersion
                else if LE(file[16..20]) == 0 then BadBlockSize
                else if LE(file[8..16]) == 0 then BadTotalSize
                else if file[21] > 31 then BadShift
                else BadV2Header)
  {
    assert Ascii("CISO") == [0x43, 0x49, 0x53, 0x4F];
    hide LE, Ascii, Image.Offset, Image.Flagged, ReadIndexes, CeilDiv;
    assert |file| >= 24 ==> (file[22..24] == [0, 0] <==> file[22] == 0 && file[23] == 0);
  }

  /** Behind a good header the table is refused for the first check that it fails, if any. */
  lemma TableRefusal(file: Bytes, n: nat)
    requires HeaderAccepted(file) && OpenImage(file).Err?
    requires (n - 1) * LE(file[16..20]) < LE(file[8..16]) <= n * LE(file[16..20])
    ensures var e := OpenImage(file).error;
            if 24 + 4 * (n + 1) > |file| then e == TruncatedIndex else TableRefused(file, n, e)
  {
    hide *;
    HeaderPasses(file);
    CeilDivIs(LE(file[8..16]), LE(file[16..20]), n);
    if 24 + 4 * (n + 1) <= |file| {
      IndexCount(file, n + 1);
      var image := Image(file, file[20], LE(file[16..20]), LE(file[8..16]), file[21], ReadIndexes(file, n + 1));
      StoredOffsets(file, image, n);
      TableRefusedIf(file, image, n, OpenImage(file).error);
      OpenTable(file, n, image);
    } else {
      OpenShort(file, n);
    }
  }

  /** The header checks as opening makes them. */
  ghost predicate HeaderPassed(file: Bytes) {
    && |file| >= 24 && file[..4] == [0x43, 0x49, 0x53, 0x4F] && file[20] <= 2 && LE(file[16..20]) > 0
    && LE(file[8..16]) > 0 && file[21] <= 31 && !(file[20] == 2 && (LE(file[4..8]) != 24 || file[22..24] != [0, 0]))
  }

  lemma HeaderPasses(file: Bytes)
    requires HeaderAccepted(file)
    ensures HeaderPassed(file) && |file| >= 24 && LE(file[16..20]) > 0 && LE(file[8..16]) > 0
  {
    assert Ascii("CISO") == [0x43, 0x49, 0x53, 0x4F];
    hide LE, Ascii;
    assert file[22..24] == [0, 0] <==> file[22] == 0 && file[23] == 0;
  }

  lemma OpenShort(file: Bytes, n: nat)
    requires HeaderPassed(file) && CeilDiv(LE(file[8..16]), LE(file[16..20])) == n && 24 + 4 * (n + 1) > |file|
    ensures OpenImage(file) == Err(TruncatedIndex)
  {
    hide LE, CeilDiv, Image.Offset, Image.Flagged, ReadIndexes;
  }

  lemma OpenTable(file: Bytes, n: nat, image: Image)
    requires HeaderPassed(file) && CeilDiv(LE(file[8..16]), LE(file[16..20])) == n && 24 + 4 * (n + 1) <= |file|
    requires image == Image(file, file[20], LE(file[16..20]), LE(file[8..16]), file[21], ReadIndexes(file, n + 1))
    requires |image.indexes| == n + 1
    ensures OpenImage(file)
         == if image.Offset(0) < 24 + 4 * (n + 1) then Err(FirstBlockOverlaps)
            else if exists i :: 0 <= i < n && image.Offset(i) > image.Offset(i + 1) then Err(NotMonotonic)
            else if exists i :: 0 <= i <= n && image.Offset(i) > |file| then Err(IndexBeyondFile)
            else if image.version == 2 && image.Flagged(n) then Err(FinalFlagSet)
            else Ok(image)
  {
    hide LE, CeilDiv, Image.Offset, Image.Flagged, ReadIndexes;
  }

  lemma IndexCount(file: Bytes, count: nat)
    requires 24 + 4 * count <= |file|
    ensures |ReadIndexes(file, count)| == count
  {
  }

  lemma StoredOffsets(file: Bytes, image: Image, n: nat)
    requires |file| >= 24 + 4 * (n + 1) && image.indexes == ReadIndexes(file, n + 1) && image.shift == file[21]
    ensures forall i :: 0 <= i <= n ==> image.Offset(i) == StoredOffset(file, i)
    ensures image.Flagged(n) <==> LE(file[24 + 4 * n..28 + 4 * n]) >= 0x8000_0000
  {
    hide Shl, Pow2, LE;
    forall i | 0 <= i <= n ensures image.Offset(i) == StoredOffset(file, i) {
      ShlIsTimes(image.indexes[i] % 0x8000_0000, image.shift);
    }
  }

  lemma TableRefusedIf(file: Bytes, image: Image, n: nat, e: CsoError)
    requires |file| >= 24 + 4 * (n + 1) && |image.indexes| == n + 1
    requires forall i :: 0 <= i <= n ==> image.Offset(i) == StoredOffset(file, i)
    requires image.Flagged(n) <==> LE(file[24 + 4 * n..28 + 4 * n]) >= 0x8000_0000
    ensures TableRefused(file, n, e)
       <==> if image.Offset(0) < 24 + 4 * (n + 1) then e == FirstBlockOverlaps
            else if exists i :: 0 <= i < n && image.Offset(i) > image.Offset(i + 1) then e == NotMonotonic
            else if exists i :: 0 <= i <= n && image.Offset(i) > |file| then e == IndexBeyondFile
            else file[20] == 2 && image.Flagged(n) && e == FinalFlagSet
  {
    hide Image.Offset, StoredOffset, Image.Flagged, LE;
  }
}
