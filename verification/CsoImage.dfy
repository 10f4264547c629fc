/** `disc_image.py`: the CISO header, its validated index table and what one block decodes to. */
module CsoImage {
  import opened Prelude
  import opened Bits
  import opened ByteStrings

  datatype CsoError =
    | TruncatedHeader | BadMagic | BadVersion | BadBlockSize | BadTotalSize | BadShift | BadV2Header
    | TruncatedIndex | FirstBlockOverlaps | NotMonotonic | IndexBeyondFile | FinalFlagSet
    | NegativeStored | ShortSpan | BadInflate | BadLz4 | NoLz4Engine | WrongLength | ShorterThanExpected
    | Closed | BadWhence | NegativeSeek

  /** The decompressors, left abstract: each maps stored bytes to a block or refuses them. */
  datatype Codec = Codec(inflate: Bytes -> Option<Bytes>, lz4: (Bytes, nat) -> Option<Bytes>, lz4Installed: bool)

  datatype Image = Image(file: Bytes, version: nat, blockSize: nat, total: nat, shift: nat, indexes: seq<nat>)
  {
    function BlockCount(): int {
      |indexes| - 1
    }

    /** `(index & 0x7FFFFFFF) << index_shift`. */
    function Offset(i: nat): nat
      requires i < |indexes|
    {
      Shl(indexes[i] % 0x8000_0000, shift)
    }

    predicate Flagged(i: nat)
      requires i < |indexes|
    {
      indexes[i] >= 0x8000_0000
    }

    function ExpectedSize(i: nat): int {
      Min(blockSize, total - i * blockSize)
    }

    ghost predicate Valid() {
      && version <= 2 && blockSize > 0 && total > 0 && BlockCount() >= 1
      && (BlockCount() - 1) * blockSize < total <= BlockCount() * blockSize
      && (forall i :: 0 <= i < |indexes| - 1 ==> Offset(i) <= Offset(i + 1))
      && (forall i :: 0 <= i < |indexes| ==> Offset(i) <= |file|)
    }
  }

  // ---- Header and index table ----

  function ReadIndexes(file: Bytes, count: nat): seq<nat>
    requires 24 + 4 * count <= |file|
  {
    seq(count, i requires 0 <= i < count => LE(file[24 + 4 * i..28 + 4 * i]))
  }

  /** `(total + blockSize - 1) // blockSize`. */
  function CeilDiv(total: nat, blockSize: nat): nat
    requires blockSize > 0
  {
    (total + blockSize - 1) / blockSize
  }

  function OpenImage(file: Bytes): (r: Result<Image, CsoError>) {
    if |file| < 24 then Err(TruncatedHeader)
    else
      var headerSize, total, blockSize := LE(file[4..8]), LE(file[8..16]), LE(file[16..20]);
      var version, shift := file[20], file[21];
      if file[..4] != [0x43, 0x49, 0x53, 0x4F] then Err(BadMagic)
      else if version > 2 then Err(BadVersion)
      else if blockSize <= 0 then Err(BadBlockSize)
      else if total <= 0 then Err(BadTotalSize)
      else if shift > 31 then Err(BadShift)
      else if version == 2 && (headerSize != 24 || file[22..24] != [0, 0]) then Err(BadV2Header)
      else
        var count := CeilDiv(total, blockSize) + 1;
        if 24 + 4 * count > |file| then Err(TruncatedIndex)
        else
          var image := Image(file, version, blockSize, total, shift, ReadIndexes(file, count));
          if image.Offset(0) < 24 + 4 * count then Err(FirstBlockOverlaps)
          else if exists i :: 0 <= i < count - 1 && image.Offset(i) > image.Offset(i + 1) then Err(NotMonotonic)
          else if exists i :: 0 <= i < count && image.Offset(i) > |file| then Err(IndexBeyondFile)
          else if version == 2 && image.Flagged(count - 1) then Err(FinalFlagSet)
          else Ok(image)
  }

  lemma CeilDivBounds(total: nat, blockSize: nat)
    requires blockSize > 0 && total > 0
    ensures var n := CeilDiv(total, blockSize);
            n >= 1 && (n - 1) * blockSize < total <= n * blockSize
  {
    var sum := total + blockSize - 1;
    var n := sum / blockSize;
    assert sum == blockSize * n + sum % blockSize;
    ProductSign(blockSize, n);
  }

  lemma ProductSign(b: int, n: int)
    requires b > 0
    ensures n <= 0 ==> b * n <= 0
  {
  }

  /** An opened image is consistent: its block count covers the total, and its offsets ascend within the file. */
  lemma {:induction false} OpenedIsValid(file: Bytes)
    requires OpenImage(file).Ok?
    ensures OpenImage(file).value.Valid()
    ensures OpenImage(file).value.file == file
  {
    hide LE, Shl;
    var image := OpenImage(file).value;
    CeilDivBounds(image.total, image.blockSize);
    forall i | 0 <= i < |image.indexes| - 1 ensures image.Offset(i) <= image.Offset(i + 1) {
    }
    forall i | 0 <= i < |image.indexes| ensures image.Offset(i) <= |file| {
    }
  }

  // ---- One block ----

  /** `seek(offset); read(n)`: short at the end of the file. */
  function FileRead(file: Bytes, offset: nat, n: nat): Bytes {
    if offset >= |file| then [] else file[offset..Min(offset + n, |file|)]
  }

  /** The first tail trimming, from none upward, whose LZ4 decode has the exact size. */
  function Lz4From(codec: Codec, stored: Bytes, expected: nat, padding: nat, limit: nat): Option<Bytes>
    requires limit <= |stored|
    decreases limit + 1 - padding
  {
    if padding > limit then None
    else
      match codec.lz4(stored[..|stored| - padding], expected)
      case Some(block) => if |block| == expected then Some(block) else Lz4From(codec, stored, expected, padding + 1, limit)
      case None => Lz4From(codec, stored, expected, padding + 1, limit)
  }

  function MaxPadding(shift: nat, stored: nat): nat {
    Min(Pow2(shift) - 1, Max(0, stored - 1))
  }

  method DecompressLz4(codec: Codec, stored: Bytes, expected: nat, shift: nat) returns (r: Result<Bytes, CsoError>)
    ensures r == Lz4Block(codec, stored, expected, shift)
    ensures r.Ok? ==> |r.value| == expected
  {
    if !codec.lz4Installed {
      return Err(NoLz4Engine);
    }
    var limit := MaxPadding(shift, |stored|);
    var padding := 0;
    while padding <= limit
      invariant padding <= limit + 1
      invariant Lz4From(codec, stored, expected, padding, limit) == Lz4From(codec, stored, expected, 0, limit)
    {
      var candidate := codec.lz4(stored[..|stored| - padding], expected);
      if candidate.Some? && |candidate.value| == expected {
        return Ok(candidate.value);
      }
      padding := padding + 1;
    }
    r := Err(BadLz4);
  }

  function Lz4Block(codec: Codec, stored: Bytes, expected: nat, shift: nat): Result<Bytes, CsoError> {
    if !codec.lz4Installed then Err(NoLz4Engine)
    else
      match Lz4From(codec, stored, expected, 0, MaxPadding(shift, |stored|))
      case Some(block) => Ok(block)
      case None => Err(BadLz4)
  }

  function Inflate(codec: Codec, stored: Bytes): Result<Bytes, CsoError> {
    match codec.inflate(stored)
    case Some(block) => Ok(block)
    case None => Err(BadInflate)
  }

  /** The bytes block `i` claims to hold, before its length is checked. */
  function RawBlock(image: Image, codec: Codec, i: nat): Result<Bytes, CsoError>
    requires i + 1 < |image.indexes| && image.ExpectedSize(i) >= 0
  {
    var offset := image.Offset(i);
    var stored := image.Offset(i + 1) - offset;
    var expected := image.ExpectedSize(i);
    if stored < 0 then Err(NegativeStored)
    else if image.version <= 1 then
      if image.Flagged(i) then
        if stored < expected then Err(ShortSpan) else Ok(FileRead(image.file, offset, expected))
      else Inflate(codec, FileRead(image.file, offset, stored))
    else if stored >= image.blockSize then Ok(FileRead(image.file, offset, expected))
    else if image.Flagged(i) then Lz4Block(codec, FileRead(image.file, offset, stored), expected, image.shift)
    else Inflate(codec, FileRead(image.file, offset, stored))
  }

  /** Block `i` decoded straight from the file, with no cache in between. */
  function DecodeBlock(image: Image, codec: Codec, i: nat): (r: Result<Bytes, CsoError>)
    requires i + 1 < |image.indexes| && image.ExpectedSize(i) >= 0
    ensures r.Ok? ==> |r.value| == image.ExpectedSize(i)
  {
    var block :- RawBlock(image, codec, i);
    if |block| != image.ExpectedSize(i) then Err(WrongLength) else Ok(block)
  }

  /** Every block of a validated image covers a non-empty piece of the total. */
  lemma {:induction false} BlockPiece(image: Image, i: nat)
    requires image.Valid() && i < image.BlockCount()
    ensures 0 < image.ExpectedSize(i) <= image.blockSize
    ensures i * image.blockSize + image.ExpectedSize(i) <= image.total
  {
    assert i * image.blockSize <= (image.BlockCount() - 1) * image.blockSize;
  }

  /** A validated image never reports a negative span, and its plain blocks always decode: to the
      file bytes at their offset.  A plain v0/v1 block fails only when its span is too short. */
  lemma {:induction false} PlainBlocks(image: Image, codec: Codec, i: nat)
    requires image.Valid() && i < image.BlockCount()
    ensures image.ExpectedSize(i) >= 0
    ensures var r := DecodeBlock(image, codec, i);
            var offset, stored := image.Offset(i), image.Offset(i + 1) - image.Offset(i);
            && r != Err(NegativeStored) && r != Err(ShorterThanExpected)
            && (image.version <= 1 && image.Flagged(i) ==>
                  (r == Err(ShortSpan) <==> stored < image.ExpectedSize(i))
                  && (r.Err? ==> r == Err(ShortSpan)))
            && (image.version == 2 && stored >= image.blockSize ==> r.Ok?)
            && (r.Ok? && (if image.version <= 1 then image.Flagged(i) else stored >= image.blockSize) ==>
                  offset + image.ExpectedSize(i) <= |image.file|
                  && r.value == image.file[offset..offset + image.ExpectedSize(i)])
  {
    hide Shl;
    BlockPiece(image, i);
    assert image.Offset(i) <= image.Offset(i + 1) <= |image.file|;
  }
}
