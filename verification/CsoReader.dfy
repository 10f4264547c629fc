/** `disc_image.py`: the seekable CISO reader with its eight-block LRU cache. */
module CsoReader {
  import opened Prelude
  import opened ByteStrings
  import opened CsoImage

  // ---- The flat stream behind an image ----

  function BlockOf(image: Image, p: nat): nat
    requires image.blockSize > 0
  {
    p / image.blockSize
  }

  lemma {:induction false} BlockInRange(image: Image, p: nat)
    requires image.Valid() && p < image.total
    ensures image.blockSize > 0 && BlockOf(image, p) == p / image.blockSize
    ensures BlockOf(image, p) < image.BlockCount()
    ensures 0 <= p % image.blockSize < image.ExpectedSize(BlockOf(image, p))
    ensures p == BlockOf(image, p) * image.blockSize + p % image.blockSize
  {
    var q, r := p / image.blockSize, p % image.blockSize;
    assert p == image.blockSize * q + r;
    Below(q, image.BlockCount(), image.blockSize);
  }

  lemma Below(q: int, n: int, b: int)
    requires b > 0
    ensures q >= n ==> q * b >= n * b
  {
    if q >= n {
      assert (q - n) * b >= 0;
    }
  }

  /** Positions inside one block share it and differ by their offsets in it. */
  lemma SameBlock(p: nat, k: nat, b: nat)
    requires b > 0 && p % b + k < b
    ensures (p + k) / b == p / b && (p + k) % b == p % b + k
  {
    var q, r := (p + k) / b, (p + k) % b;
    assert p + k == b * q + r && p == b * (p / b) + p % b;
    assert b * (q - p / b) == p % b + k - r;
    Below(q - p / b, 1, b);
    Below(0 - (q - p / b), 1, b);
  }

  /** Whether the block under `p` decodes. */
  predicate Readable(image: Image, codec: Codec, p: nat)
    requires image.Valid() && p < image.total
  {
    BlockInRange(image, p);
    DecodeBlock(image, codec, BlockOf(image, p)).Ok?
  }

  /** The uncompressed byte at `p`, defined wherever it is readable. */
  function FlatByte(image: Image, codec: Codec, p: nat): Byte
    requires image.Valid() && p < image.total && Readable(image, codec, p)
  {
    BlockInRange(image, p);
    DecodeBlock(image, codec, BlockOf(image, p)).value[p % image.blockSize]
  }

  /** The first unreadable position in `[p, end)`, or `end`. */
  function FirstUnreadable(image: Image, codec: Codec, p: nat, end: nat): (stop: nat)
    requires image.Valid() && p <= end <= image.total
    ensures p <= stop <= end
    ensures forall q :: p <= q < stop ==> Readable(image, codec, q)
    ensures stop < end ==> !Readable(image, codec, stop)
    decreases end - p
  {
    if p == end || !Readable(image, codec, p) then p else FirstUnreadable(image, codec, p + 1, end)
  }

  function Flat(image: Image, codec: Codec, p: nat, end: nat): (s: Bytes)
    requires image.Valid() && p <= end <= image.total
    requires forall q :: p <= q < end ==> Readable(image, codec, q)
    ensures |s| == end - p
    ensures forall i :: 0 <= i < |s| ==> s[i] == FlatByte(image, codec, p + i)
  {
    seq<Byte>(end - p, i requires 0 <= i < end - p => FlatByte(image, codec, p + i))
  }

  /** `bytes` is the readable stretch from `p` to `end`. */
  ghost predicate Covered(image: Image, codec: Codec, p: nat, end: nat, bytes: Bytes)
    requires image.Valid()
  {
    && p <= end <= image.total
    && (forall q :: p <= q < end ==> Readable(image, codec, q))
    && bytes == Flat(image, codec, p, end)
  }

  /** The number of bytes `read(size)` owes at `position`; a negative size asks for the rest. */
  function Owed(image: Image, position: nat, size: int): nat {
    if position >= image.total then 0
    else if size < 0 then image.total - position
    else Min(size, image.total - position)
  }

  /** What a read returns and where it leaves the position, by the flat stream alone. */
  function ReadSpec(image: Image, codec: Codec, position: nat, size: int): (Result<Bytes, CsoError>, nat)
    requires image.Valid()
  {
    var n := Owed(image, position, size);
    if n == 0 then (Ok([]), position) else OwedSpec(image, codec, position, position + n)
  }

  function OwedSpec(image: Image, codec: Codec, position: nat, end: nat): (Result<Bytes, CsoError>, nat)
    requires image.Valid() && position <= end <= image.total
  {
    var stop := FirstUnreadable(image, codec, position, end);
    if stop == end then (Ok(Flat(image, codec, position, stop)), stop)
    else (Err(ErrorAt(image, codec, stop)), stop)
  }

  function ErrorAt(image: Image, codec: Codec, p: nat): CsoError
    requires image.Valid() && p < image.total && !Readable(image, codec, p)
  {
    BlockInRange(image, p);
    DecodeBlock(image, codec, BlockOf(image, p)).error
  }

  function SeekSpec(image: Image, position: nat, offset: int, whence: int): (Result<nat, CsoError>, nat) {
    if whence !in {0, 1, 2} then (Err(BadWhence), position)
    else
      var target := if whence == 0 then offset else if whence == 1 then position + offset else image.total + offset;
      if target < 0 then (Err(NegativeSeek), position) else (Ok(target), target)
  }

  // ---- LRU order ----

  function Without(order: seq<int>, k: int): seq<int> {
    if order == [] then []
    else (if order[0] == k then [] else [order[0]]) + Without(order[1..], k)
  }

  /** `move_to_end`. */
  function Touched(order: seq<int>, k: int): seq<int> {
    Without(order, k) + [k]
  }

  function Evicted(order: seq<int>): seq<int> {
    if |order| <= 8 then order else order[|order| - 8..]
  }

  /** Every block ever touched, least recently touched first: the order of an unbounded cache. */
  function Recency(touches: seq<int>): seq<int> {
    if touches == [] then [] else Touched(Recency(touches[..|touches| - 1]), touches[|touches| - 1])
  }

  ghost predicate NoDuplicates(s: seq<int>) {
    forall i, j :: 0 <= i < j < |s| ==> s[i] != s[j]
  }

  lemma {:induction false} WithoutFacts(s: seq<int>, k: int)
    ensures forall x :: x in Without(s, k) <==> x in s && x != k
    ensures NoDuplicates(s) ==> NoDuplicates(Without(s, k))
    ensures k !in s ==> Without(s, k) == s
    ensures |Without(s, k)| <= |s|
    ensures NoDuplicates(s) && k in s ==> |Without(s, k)| == |s| - 1
  {
    if s != [] {
      WithoutFacts(s[1..], k);
      assert s == [s[0]] + s[1..];
      if NoDuplicates(s) {
        assert NoDuplicates(s[1..]);
        assert forall j :: 1 <= j < |s| ==> s[0] != s[j];
        assert s[0] !in s[1..];
      }
    }
  }

  lemma {:induction false} WithoutConcat(a: seq<int>, b: seq<int>, k: int)
    ensures Without(a + b, k) == Without(a, k) + Without(b, k)
  {
    if a == [] {
      assert a + b == b;
    } else {
      assert (a + b)[1..] == a[1..] + b;
      WithoutConcat(a[1..], b, k);
    }
  }

  lemma TouchedFacts(order: seq<int>, k: int)
    requires NoDuplicates(order)
    ensures NoDuplicates(Touched(order, k))
    ensures forall x :: x in Touched(order, k) <==> x in order || x == k
    ensures |Touched(order, k)| == if k in order then |order| else |order| + 1
  {
    WithoutFacts(order, k);
  }

  lemma {:induction false} RecencyDistinct(touches: seq<int>)
    ensures NoDuplicates(Recency(touches))
  {
    if touches != [] {
      RecencyDistinct(touches[..|touches| - 1]);
      TouchedFacts(Recency(touches[..|touches| - 1]), touches[|touches| - 1]);
    }
  }

  /** The bounded cache always holds the eight most recently touched blocks, in order: touching and
      evicting the bounded order is evicting the unbounded one. */
  lemma BoundedIsMostRecent(order: seq<int>, k: int)
    requires NoDuplicates(order)
    ensures Evicted(Touched(Evicted(order), k)) == Evicted(Touched(order, k))
  {
    hide Touched, NoDuplicates;
    if |order| > 8 {
      var older, recent := order[..|order| - 8], order[|order| - 8..];
      assert order == older + recent;
      assert Evicted(order) == recent;
      hide Evicted;
      TouchedSplit(older, recent, k);
    }
  }

  lemma TouchedSplit(older: seq<int>, recent: seq<int>, k: int)
    requires |recent| == 8 && NoDuplicates(older + recent)
    ensures Evicted(Touched(recent, k)) == Evicted(Touched(older + recent, k))
  {
    hide Without, NoDuplicates;
    WithoutConcat(older, recent, k);
    WithoutFacts(recent, k);
    SplitDistinct(older, recent);
    if k in recent {
      WithoutFacts(older, k);
      assert Touched(older + recent, k) == older + Touched(recent, k);
    } else {
      assert Touched(older + recent, k) == Without(older, k) + (recent + [k]);
    }
  }

  lemma SplitDistinct(a: seq<int>, b: seq<int>)
    requires NoDuplicates(a + b)
    ensures NoDuplicates(a) && NoDuplicates(b)
    ensures forall x :: x in a ==> x !in b
  {
    forall i, j | 0 <= i < |a| && 0 <= j < |b| ensures a[i] != b[j] {
      assert (a + b)[i] == a[i] && (a + b)[|a| + j] == b[j];
    }
    forall i, j | 0 <= i < j < |b| ensures b[i] != b[j] {
      assert (a + b)[|a| + i] == b[i] && (a + b)[|a| + j] == b[j];
    }
    forall i, j | 0 <= i < j < |a| ensures a[i] != a[j] {
      assert (a + b)[i] == a[i] && (a + b)[j] == a[j];
    }
  }

  /** One more touch moves the bounded order as the cache does. */
  lemma {:induction false} RecencyTouched(touches: seq<int>, k: int)
    ensures Evicted(Recency(touches + [k])) == Evicted(Touched(Evicted(Recency(touches)), k))
      {
    RecencyDistinct(touches);
    BoundedIsMostRecent(Recency(touches), k);
    assert (touches + [k])[..|touches|] == touches;
  }

  /** The cache holds the eight most recently touched blocks in recency order, each equal to its
      uncached decode. */
  ghost predicate CacheOk(image: Image, codec: Codec, order: seq<int>, blocks: map<int, Bytes>, touches: seq<int>) {
    && order == Evicted(Recency(touches)) && NoDuplicates(order)
    && (forall k :: k in blocks <==> k in order)
    && (forall k :: k in blocks ==>
          0 <= k < image.BlockCount() && image.ExpectedSize(k) >= 0
          && DecodeBlock(image, codec, k) == Ok(blocks[k]))
  }

  function Kept(blocks: map<int, Bytes>, order: seq<int>): map<int, Bytes> {
    map k | k in blocks && k in order :: blocks[k]
  }

  lemma {:induction false} CacheHit(image: Image, codec: Codec, order: seq<int>, blocks: map<int, Bytes>,
                                    touches: seq<int>, k: int)
    requires CacheOk(image, codec, order, blocks, touches)
    ensures k in blocks ==>
              && 0 <= k < image.BlockCount() && image.ExpectedSize(k) >= 0
              && DecodeBlock(image, codec, k) == Ok(blocks[k])
              && CacheOk(image, codec, Touched(order, k), blocks, touches + [k])
    ensures k !in blocks ==> NoDuplicates(Touched(order, k))
    ensures k !in blocks ==> forall x :: x in Touched(order, k) <==> x in blocks || x == k
  {
    hide DecodeBlock, Recency, Touched;
    RecencyTouched(touches, k);
    TouchedFacts(order, k);
  }

  lemma {:induction false} CacheInsert(image: Image, codec: Codec, order: seq<int>, blocks: map<int, Bytes>,
                                       touches: seq<int>, k: int, block: Bytes)
    requires CacheOk(image, codec, order, blocks, touches)
    requires 0 <= k < image.BlockCount() && image.ExpectedSize(k) >= 0 && DecodeBlock(image, codec, k) == Ok(block)
    ensures var next := Evicted(Touched(order, k));
            CacheOk(image, codec, next, Kept(blocks[k := block], next), touches + [k])
  {
    hide DecodeBlock, Recency, Touched, NoDuplicates, Evicted, Image.ExpectedSize, Image.BlockCount;
    RecencyTouched(touches, k);
    TouchedFacts(order, k);
    SuffixDistinct(Touched(order, k));
  }

  /** Eviction under way: the entries of `order`, a suffix of `order0`, are all that is left. */
  ghost predicate Evicting(order0: seq<int>, blocks0: map<int, Bytes>, order: seq<int>, blocks: map<int, Bytes>) {
    && Evicted(order) == Evicted(order0) && NoDuplicates(order)
    && (forall k :: k in blocks <==> k in order)
    && (forall k :: k in blocks ==> k in blocks0 && blocks[k] == blocks0[k])
  }

  lemma EvictionStarts(order: seq<int>, blocks: map<int, Bytes>)
    requires NoDuplicates(order) && forall k :: k in blocks <==> k in order
    ensures Evicting(order, blocks, order, blocks)
  {
  }

  lemma EvictOldest(
    order0: seq<int>, blocks0: map<int, Bytes>, order: seq<int>, blocks: map<int, Bytes>)
    requires Evicting(order0, blocks0, order, blocks) && |order| > 8
    ensures Evicting(order0, blocks0, order[1..], blocks - {order[0]})
  {
    hide NoDuplicates;
    DropOldest(order);
  }

  lemma DropOldest(order: seq<int>)
    requires NoDuplicates(order) && |order| > 8
    ensures NoDuplicates(order[1..]) && Evicted(order[1..]) == Evicted(order)
    ensures forall k :: k in order[1..] <==> k in order && k != order[0]
  {
    assert order == [order[0]] + order[1..];
    assert order[0] !in order[1..];
  }

  lemma EvictionEnds(
    order0: seq<int>, blocks0: map<int, Bytes>, order: seq<int>, blocks: map<int, Bytes>)
    requires Evicting(order0, blocks0, order, blocks) && |order| <= 8
    ensures order == Evicted(order0) && blocks == Kept(blocks0, order)
  {
    hide NoDuplicates;
    var kept := Kept(blocks0, order);
    assert forall k :: k in blocks ==> k in kept && blocks[k] == kept[k];
    assert forall k :: k in kept ==> k in blocks;
    assert blocks == kept;
  }

  lemma SuffixDistinct(s: seq<int>)
    requires NoDuplicates(s)
    ensures NoDuplicates(Evicted(s))
    ensures forall x :: x in Evicted(s) ==> x in s
  {
  }

  // ---- The reader ----

  class Reader {
    const image: Image
    const codec: Codec
    var position: nat
    var closed: bool
    var order: seq<int>
    var blocks: map<int, Bytes>
    /** Every successful block access so far. */
    ghost var touches: seq<int>

    ghost predicate Valid()
      reads this`order, this`blocks, this`touches
    {
      image.Valid() && CacheOk(image, codec, order, blocks, touches)
    }

    constructor (image: Image, codec: Codec)
      requires image.Valid()
      ensures Valid() && this.image == image && this.codec == codec
      ensures position == 0 && !closed && touches == []
    {
      this.image := image;
      this.codec := codec;
      position, closed, order, blocks, touches := 0, false, [], map[], [];
    }

    method Tell() returns (r: Result<nat, CsoError>)
      requires Valid()
      ensures r == if closed then Err(Closed) else Ok(position)
    {
      r := if closed then Err(Closed) else Ok(position);
    }

    method Seek(offset: int, whence: int) returns (r: Result<nat, CsoError>)
      requires Valid()
      modifies this`position
      ensures Valid()
      ensures old(closed) ==> r == Err(Closed) && position == old(position)
      ensures !old(closed) ==> (r, position) == SeekSpec(image, old(position), offset, whence)
    {
      if closed {
        return Err(Closed);
      }
      var target;
      if whence == 0 {
        target := offset;
      } else if whence == 1 {
        target := position + offset;
      } else if whence == 2 {
        target := image.total + offset;
      } else {
        return Err(BadWhence);
      }
      if target < 0 {
        return Err(NegativeSeek);
      }
      position := target;
      r := Ok(position);
    }

    method Close()
      requires Valid()
      modifies this`closed
      ensures Valid() && closed
    {
      closed := true;
    }

    /** A successful read returns exactly the flat bytes it owes; a failed one stops at the first
        unreadable position.  Neither outcome depends on what the cache holds. */
    method Read(size0: int) returns (r: Result<Bytes, CsoError>)
      requires Valid()
      modifies this
      ensures Valid() && closed == old(closed)
      ensures closed ==> r == Err(Closed) && position == old(position)
      ensures !closed ==> (r, position) == ReadSpec(image, codec, old(position), size0)
      ensures old(touches) <= touches
      ensures r != Err(ShorterThanExpected) && r != Err(NegativeStored)
    {
      if closed {
        return Err(Closed);
      }
      if position >= image.total {
        return Ok([]);
      }
      r := ReadWithin(size0);
    }

    /** `read` below the end of the image. */
    method ReadWithin(size0: int) returns (r: Result<Bytes, CsoError>)
      requires Valid() && image.Valid() && position < image.total
      modifies this`position, this`order, this`blocks, this`touches
      ensures Valid() && old(touches) <= touches
      ensures (r, position) == ReadSpec(image, codec, old(position), size0)
      ensures r != Err(ShorterThanExpected) && r != Err(NegativeStored)
    {
      var size := if size0 < 0 then image.total - position else Min(size0, image.total - position);
      if size == 0 {
        return Ok([]);
      }
      assert image.Valid() && size == Owed(image, position, size0);
      hide *;
      ReadSpecIs(image, codec, position, size0);
      r := ReadOwed(size);
    }

    /** The read loop, for a size that stays inside the image. */
    method ReadOwed(size0: nat) returns (r: Result<Bytes, CsoError>)
      requires Valid() && image.Valid() && position + size0 <= image.total
      modifies this`position, this`order, this`blocks, this`touches
      ensures Valid() && old(touches) <= touches
      ensures (r, position) == OwedSpec(image, codec, old(position), old(position) + size0)
      ensures r != Err(ShorterThanExpected) && r != Err(NegativeStored)
    {
      hide *;
      var size := size0;
      ghost var start, end := position, position + size0;
      var output: Bytes := [];
      CoveredStart(image, codec, start);
      while size > 0 && position < image.total
        invariant Valid() && old(touches) <= touches
        invariant 0 <= size && position + size == end
        invariant Covered(image, codec, start, position, output)
      {
        ghost var from := position;
        var piece := ReadPiece(size);
        if piece.Err? {
          OwedStops(image, codec, start, end, position, output);
          return Err(piece.error);
        }
        CoveredJoins(image, codec, start, from, position, output, piece.value);
        output := output + piece.value;
        size := size - |piece.value|;
      }
      OwedStops(image, codec, start, end, position, output);
      r := Ok(output);
    }

    /** One turn of the loop: what the block under the position still offers, up to `size`. */
    method ReadPiece(size: nat) returns (r: Result<Bytes, CsoError>)
      requires Valid() && image.Valid() && position < image.total && 0 < size <= image.total - position
      modifies this`position, this`order, this`blocks, this`touches
      ensures Valid() && old(touches) <= touches
      ensures r.Err? ==> position == old(position) && !Readable(image, codec, position)
                         && r == Err(ErrorAt(image, codec, position))
      ensures r.Ok? ==> 0 < |r.value| <= size && position == old(position) + |r.value|
                        && Covered(image, codec, old(position), position, r.value)
      ensures r != Err(ShorterThanExpected) && r != Err(NegativeStored)
    {
      hide *;
      BlockInRange(image, position);
      ReadableIs(image, codec, position);
      var index := position / image.blockSize;
      var offset := position % image.blockSize;
      r := ReadBlock(index);
      if r.Err? {
        return;
      }
      var block := r.value;
      var available := |block| - offset;
      if available <= 0 {
        assert false;
      }
      var take := if size < available then size else available;
      BlockExtends(image, codec, position, take, block);
      r := Ok(block[offset..offset + take]);
      position := position + take;
    }

    method ReadInto(buffer: array<Byte>) returns (r: Result<nat, CsoError>)
      requires Valid()
      modifies this, buffer
      ensures Valid() && closed == old(closed)
      ensures closed ==> r == Err(Closed) && buffer[..] == old(buffer[..])
      ensures !closed ==>
                var spec := ReadSpec(image, codec, old(position), buffer.Length);
                && position == spec.1
                && (spec.0.Err? ==> r == Err(spec.0.error) && buffer[..] == old(buffer[..]))
                && (spec.0.Ok? ==> r == Ok(|spec.0.value|) && |spec.0.value| <= buffer.Length
                                   && buffer[..] == spec.0.value + old(buffer[..])[|spec.0.value|..])
    {
      var data := Read(buffer.Length);
      if data.Err? {
        return Err(data.error);
      }
      forall i | 0 <= i < |data.value| {
        buffer[i] := data.value[i];
      }
      r := Ok(|data.value|);
    }

    /** A block through the cache equals its uncached decode; a block that fails is never cached.
        An index outside the image is the empty block and touches nothing. */
    method ReadBlock(index: int) returns (r: Result<Bytes, CsoError>)
      requires Valid()
      modifies this`order, this`blocks, this`touches
      ensures Valid() && old(touches) <= touches
      ensures r != Err(NegativeStored) && r != Err(ShorterThanExpected)
      ensures 0 <= index < image.BlockCount() ==>
                image.ExpectedSize(index) >= 0 && r == DecodeBlock(image, codec, index)
      ensures !(0 <= index < image.BlockCount()) ==> r == Ok([]) && touches == old(touches)
      ensures r.Ok? && 0 <= index < image.BlockCount() ==> touches == old(touches) + [index]
      ensures touches == old(touches) ==> order == old(order) && blocks == old(blocks)
      ensures r.Err? ==> touches == old(touches) && index !in blocks
    {
      if index !in blocks && !(0 <= index < image.BlockCount()) {
        return Ok([]);
      }
      assert image.Valid() && CacheOk(image, codec, order, blocks, touches);
      BlockPiece(image, index);
      PlainBlocks(image, codec, index);
      hide CacheOk, DecodeBlock, Recency, Touched, Evicted, Kept, Image.ExpectedSize, Image.Valid;
      CacheHit(image, codec, order, blocks, touches, index);
      if index in blocks {
        r := Ok(blocks[index]);
        order := Touched(order, index);
        touches := touches + [index];
        return;
      }
      r := DecodeUncached(image, codec, index);
      if r.Err? {
        return;
      }
      CacheInsert(image, codec, order, blocks, touches, index, r.value);
      blocks := blocks[index := r.value];
      order := Touched(order, index);
      touches := touches + [index];
      Evict();
    }

    /** `while len(cache) > 8: popitem(last=False)`. */
    method Evict()
      requires NoDuplicates(order) && (forall k :: k in blocks <==> k in order)
      modifies this`order, this`blocks
      ensures order == Evicted(old(order)) && blocks == Kept(old(blocks), order)
    {
      EvictionStarts(order, blocks);
      hide *;
      while |order| > 8
        invariant Evicting(old(order), old(blocks), order, blocks)
        decreases |order|
      {
        EvictOldest(old(order), old(blocks), order, blocks);
        blocks := blocks - {order[0]};
        order := order[1..];
      }
      EvictionEnds(old(order), old(blocks), order, blocks);
    }
  }

  method DecodeUncached(image: Image, codec: Codec, index: nat) returns (r: Result<Bytes, CsoError>)
    requires index + 1 < |image.indexes| && image.ExpectedSize(index) >= 0
    ensures r == DecodeBlock(image, codec, index)
  {
    var offset: int, next: int := image.Offset(index), image.Offset(index + 1);
    var stored: int := next - offset;
    var expected := image.ExpectedSize(index);
    if stored < 0 {
      return Err(NegativeStored);
    }
    var block: Bytes;
    if image.version <= 1 {
      if image.Flagged(index) {
        if stored < expected {
          return Err(ShortSpan);
        }
        block := FileRead(image.file, offset, expected);
      } else {
        var inflated := codec.inflate(FileRead(image.file, offset, stored));
        if inflated.None? {
          return Err(BadInflate);
        }
        block := inflated.value;
      }
    } else if stored >= image.blockSize {
      block := FileRead(image.file, offset, expected);
    } else if image.Flagged(index) {
      var unpacked := DecompressLz4(codec, FileRead(image.file, offset, stored), expected, image.shift);
      if unpacked.Err? {
        return Err(unpacked.error);
      }
      block := unpacked.value;
    } else {
      var inflated := codec.inflate(FileRead(image.file, offset, stored));
      if inflated.None? {
        return Err(BadInflate);
      }
      block := inflated.value;
    }
    r := if |block| != expected then Err(WrongLength) else Ok(block);
  }

  lemma {:induction false} FirstUnreadableIs(image: Image, codec: Codec, p: nat, end: nat, stop: nat)
    requires image.Valid() && p <= stop <= end <= image.total
    requires forall q :: p <= q < stop ==> Readable(image, codec, q)
    requires stop < end ==> !Readable(image, codec, stop)
    ensures FirstUnreadable(image, codec, p, end) == stop
  {
    hide Readable;
  }

  lemma {:induction false} OwedStops(image: Image, codec: Codec, p: nat, end: nat, stop: nat, bytes: Bytes)
    requires image.Valid() && stop <= end <= image.total && Covered(image, codec, p, stop, bytes)
    requires stop < end ==> !Readable(image, codec, stop)
    ensures OwedSpec(image, codec, p, end)
         == (if stop == end then Ok(bytes) else Err(ErrorAt(image, codec, stop)), stop)
  {
    hide Readable, ErrorAt, Flat;
    FirstUnreadableIs(image, codec, p, end, stop);
  }

  lemma {:induction false} ReadSpecIs(image: Image, codec: Codec, position: nat, size: int)
    requires image.Valid() && Owed(image, position, size) > 0
    ensures ReadSpec(image, codec, position, size)
         == OwedSpec(image, codec, position, position + Owed(image, position, size))
  {
  }

  lemma {:induction false} CoveredStart(image: Image, codec: Codec, p: nat)
    requires image.Valid() && p <= image.total
    ensures Covered(image, codec, p, p, [])
  {
  }

  lemma {:induction false} CoveredJoins(image: Image, codec: Codec, a: nat, b: nat, c: nat, x: Bytes, y: Bytes)
    requires image.Valid() && Covered(image, codec, a, b, x) && Covered(image, codec, b, c, y)
    ensures Covered(image, codec, a, c, x + y)
  {
    FlatJoins(image, codec, a, b, c);
  }

  lemma {:induction false} ReadableIs(image: Image, codec: Codec, p: nat)
    requires image.Valid() && p < image.total
    ensures BlockOf(image, p) < image.BlockCount() && image.ExpectedSize(BlockOf(image, p)) >= 0
    ensures var r := DecodeBlock(image, codec, BlockOf(image, p));
            (Readable(image, codec, p) <==> r.Ok?) && (r.Err? ==> r == Err(ErrorAt(image, codec, p)))
  {
    hide DecodeBlock;
    BlockInRange(image, p);
  }

  lemma {:induction false} FlatJoins(image: Image, codec: Codec, a: nat, b: nat, c: nat)
    requires image.Valid() && a <= b <= c <= image.total
    requires forall q :: a <= q < c ==> Readable(image, codec, q)
    ensures Flat(image, codec, a, b) + Flat(image, codec, b, c) == Flat(image, codec, a, c)
  {
    hide Readable, FlatByte;
  }

  /** A slice of one block is the flat stream at the position it starts. */
  lemma {:induction false} BlockExtends(image: Image, codec: Codec, p: nat, take: nat, block: Bytes)
    requires image.Valid() && p < image.total && take <= |block| - p % image.blockSize
    requires BlockOf(image, p) < image.BlockCount() && image.ExpectedSize(BlockOf(image, p)) >= 0
    requires DecodeBlock(image, codec, BlockOf(image, p)) == Ok(block)
    ensures image.blockSize > 0
    ensures Covered(image, codec, p, p + take, block[p % image.blockSize..p % image.blockSize + take])
  {
    hide DecodeBlock;
    BlockPiece(image, BlockOf(image, p));
    BlockInRange(image, p);
    forall q | p <= q < p + take
      ensures q < image.total && Readable(image, codec, q)
      ensures FlatByte(image, codec, q) == block[p % image.blockSize + (q - p)]
    {
      SameBlock(p, q - p, image.blockSize);
    }
  }

  // ---- Whole histories ----

  datatype Op = SeekOp(offset: int, whence: int) | ReadOp(size: int) | TellOp

  datatype Outcome = At(position: nat) | Got(data: Bytes) | Failed(error: CsoError)

  /** What a history of calls observes, by the flat stream and the position alone. */
  function HistorySpec(image: Image, codec: Codec, position: nat, ops: seq<Op>): (seq<Outcome>, nat)
    requires image.Valid()
    decreases |ops|
  {
    if ops == [] then ([], position)
    else
      var (outcome, next) := OpSpec(image, codec, position, ops[0]);
      var (rest, last) := HistorySpec(image, codec, next, ops[1..]);
      ([outcome] + rest, last)
  }

  function OpSpec(image: Image, codec: Codec, position: nat, op: Op): (Outcome, nat)
    requires image.Valid()
  {
    match op
    case TellOp => (At(position), position)
    case SeekOp(offset, whence) =>
      var (r, next) := SeekSpec(image, position, offset, whence);
      (if r.Ok? then At(r.value) else Failed(r.error), next)
    case ReadOp(size) =>
      var (r, next) := ReadSpec(image, codec, position, size);
      (if r.Ok? then Got(r.value) else Failed(r.error), next)
  }

  /** Over any history of seeks, reads and tells the cached reader shows what the flat stream shows. */
  method Replay(reader: Reader, ops: seq<Op>) returns (outcomes: seq<Outcome>)
    requires reader.Valid() && !reader.closed
    modifies reader
    ensures reader.Valid() && !reader.closed
    ensures (outcomes, reader.position) == HistorySpec(reader.image, reader.codec, old(reader.position), ops)
  {
    if ops == [] {
      return [];
    }
    var first;
    match ops[0] {
      case TellOp =>
        var r := reader.Tell();
        first := At(r.value);
      case SeekOp(offset, whence) =>
        var r := reader.Seek(offset, whence);
        first := if r.Ok? then At(r.value) else Failed(r.error);
      case ReadOp(size) =>
        var r := reader.Read(size);
        first := if r.Ok? then Got(r.value) else Failed(r.error);
    }
    var rest := Replay(reader, ops[1..]);
    outcomes := [first] + rest;
  }

  /** Cutting one read in two changes nothing: the pieces join to the whole and end where it ends. */
  lemma {:induction false} SplitRead(image: Image, codec: Codec, position: nat, a: nat, b: nat)
    requires image.Valid() && ReadSpec(image, codec, position, a + b).0.Ok?
    ensures var whole := ReadSpec(image, codec, position, a + b);
            var first := ReadSpec(image, codec, position, a);
            var second := ReadSpec(image, codec, first.1, b);
            && first.0.Ok? && second.0.Ok?
            && first.0.value + second.0.value == whole.0.value && second.1 == whole.1
  {
    hide Readable, FlatByte, Image.Valid, FirstUnreadable;
    var n, m := Owed(image, position, a + b), Owed(image, position, a);
    if n > 0 {
      var end := position + n;
      FlatJoins(image, codec, position, position + m, end);
      assert FirstUnreadable(image, codec, position, end) == end;
      if m > 0 {
        FirstUnreadableIs(image, codec, position, position + m, position + m);
      }
      if m < n {
        assert Owed(image, position + m, b) == n - m;
        FirstUnreadableIs(image, codec, position + m, end, end);
      }
    }
  }
}
