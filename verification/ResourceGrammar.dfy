/** What the walking detectors of `resource_formats.py` accept, as the files that a grammar writes. */
module ResourceGrammar {
  import opened Prelude
  import opened Bits
  import opened ByteStrings
  import opened ResourceFormats

  // ---- PNG: a signature, chunks, and an empty IEND chunk (section 3 of RFC 2083) ----

  datatype Chunk = Chunk(kind: Bytes, payload: Bytes, crc: Bytes) {
    predicate Fits() {
      |kind| == 4 && |crc| == 4 && |payload| < 0x1_0000_0000
    }
  }

  function ChunkBytes(c: Chunk): Bytes {
    BEBytes(|c.payload|, 4) + (c.kind + (c.payload + c.crc))
  }

  function ChunksBytes(chunks: seq<Chunk>): Bytes {
    if chunks == [] then [] else ChunkBytes(chunks[0]) + ChunksBytes(chunks[1..])
  }

  predicate PngBody(chunks: seq<Chunk>) {
    forall i :: 0 <= i < |chunks| ==> chunks[i].Fits() && chunks[i].kind != IEND
  }

  function PngTail(chunks: seq<Chunk>, crc: Bytes): Bytes {
    ChunksBytes(chunks) + ChunkBytes(Chunk(IEND, [], crc))
  }

  function PngFile(chunks: seq<Chunk>, crc: Bytes): Bytes {
    PNG_SIGNATURE + PngTail(chunks, crc)
  }

  /** The header of a chunk that stands in the data, and where the chunk ends. */
  lemma ChunkStands(data: Bytes, cursor: nat, c: Chunk)
    requires c.Fits() && StandsAt(data, cursor, ChunkBytes(c))
    ensures |ChunkBytes(c)| == 12 + |c.payload| && cursor + |ChunkBytes(c)| <= |data|
    ensures U32BE(data, cursor) == |c.payload| && data[cursor + 4..cursor + 8] == c.kind
  {
    hide BE, BEBytes, StandsAt;
    Pow2Words();
    BEBytesRoundTrip(|c.payload|, 4);
    PartsStand(data, cursor, BEBytes(|c.payload|, 4), c.kind + (c.payload + c.crc));
    PartsStand(data, cursor + 4, c.kind, c.payload + c.crc);
    Stood(data, cursor, ChunkBytes(c));
    Stood(data, cursor, BEBytes(|c.payload|, 4));
    Stood(data, cursor + 4, c.kind);
  }

  /** Written chunks are walked to their end, one count each. */
  lemma {:induction false} PngReads(data: Bytes, cursor: nat, n: nat, chunks: seq<Chunk>, crc: Bytes)
    requires PngBody(chunks) && |crc| == 4 && StandsAt(data, cursor, PngTail(chunks, crc))
    ensures PngWalk(data, cursor, n) == Some((cursor + |PngTail(chunks, crc)|, n + |chunks| + 1))
    decreases |chunks|
  {
    hide StandsAt, ChunkBytes, U32BE;
    if chunks == [] {
      assert PngTail(chunks, crc) == ChunkBytes(Chunk(IEND, [], crc));
      ChunkStands(data, cursor, Chunk(IEND, [], crc));
    } else {
      var c, rest := chunks[0], chunks[1..];
      assert c.Fits() && c.kind != IEND;
      assert PngTail(chunks, crc) == ChunkBytes(c) + PngTail(rest, crc);
      PartsStand(data, cursor, ChunkBytes(c), PngTail(rest, crc));
      ChunkStands(data, cursor, c);
      PngReads(data, cursor + |ChunkBytes(c)|, n + 1, rest, crc);
    }
  }

  /** The chunk that stands at a walked position. */
  function ChunkAt(data: Bytes, cursor: nat): (c: Chunk)
    requires cursor + 12 <= |data| && cursor + 12 + U32BE(data, cursor) <= |data|
  {
    var payloadEnd := cursor + 8 + U32BE(data, cursor);
    Chunk(data[cursor + 4..cursor + 8], data[cursor + 8..payloadEnd], data[payloadEnd..payloadEnd + 4])
  }

  lemma ChunkAtStands(data: Bytes, cursor: nat)
    requires cursor + 12 <= |data| && cursor + 12 + U32BE(data, cursor) <= |data|
    ensures ChunkAt(data, cursor).Fits() && |ChunkAt(data, cursor).payload| == U32BE(data, cursor)
    ensures StandsAt(data, cursor, ChunkBytes(ChunkAt(data, cursor)))
    ensures |ChunkBytes(ChunkAt(data, cursor))| == 12 + U32BE(data, cursor)
  {
    hide BE, BEBytes, StandsAt, Pow2;
    var c, length := ChunkAt(data, cursor), data[cursor..cursor + 4];
    var payloadEnd := cursor + 8 + U32BE(data, cursor);
    LengthBack(data, cursor);
    assert BEBytes(|c.payload|, 4) == length;
    SliceStands(data, cursor, cursor + 4);
    SliceStands(data, cursor + 4, cursor + 8);
    SliceStands(data, cursor + 8, payloadEnd);
    SliceStands(data, payloadEnd, payloadEnd + 4);
    hide U32BE, ChunkAt;
    PartsStand(data, cursor + 8, c.payload, c.crc);
    PartsStand(data, cursor + 4, c.kind, c.payload + c.crc);
    PartsStand(data, cursor, length, c.kind + (c.payload + c.crc));
  }

  lemma LengthBack(data: Bytes, at: nat)
    requires at + 4 <= |data|
    ensures BEBytes(U32BE(data, at), 4) == data[at..at + 4] && U32BE(data, at) < 0x1_0000_0000
  {
    hide BE, BEBytes;
    Pow2Words();
    BERoundTrip(data[at..at + 4]);
  }

  /** Whatever the walk accepts is a written chunk list. */
  lemma {:induction false} PngParses(data: Bytes, cursor: nat, n: nat) returns (chunks: seq<Chunk>, crc: Bytes)
    requires PngWalk(data, cursor, n).Some?
    ensures PngBody(chunks) && |crc| == 4 && StandsAt(data, cursor, PngTail(chunks, crc))
    decreases |data| - cursor
  {
    hide StandsAt, ChunkBytes, U32BE, ChunkAt;
    var c := ChunkAt(data, cursor);
    ChunkAtStands(data, cursor);
    var next := cursor + 12 + U32BE(data, cursor);
    KindAt(data, cursor);
    if data[cursor + 4..cursor + 8] == IEND {
      chunks, crc := [], c.crc;
      assert c == Chunk(IEND, [], crc);
      assert PngTail(chunks, crc) == ChunkBytes(c);
    } else {
      var rest;
      rest, crc := PngParses(data, next, n + 1);
      chunks := [c] + rest;
      assert chunks[1..] == rest;
      PartsStand(data, cursor, ChunkBytes(c), PngTail(rest, crc));
      assert PngTail(chunks, crc) == ChunkBytes(c) + PngTail(rest, crc);
    }
  }

  lemma KindAt(data: Bytes, cursor: nat)
    requires cursor + 12 <= |data| && cursor + 12 + U32BE(data, cursor) <= |data|
    ensures ChunkAt(data, cursor).kind == data[cursor + 4..cursor + 8]
  {
  }

  predicate PngMatch(data: Bytes, start: nat, m: Match, chunks: seq<Chunk>, crc: Bytes) {
    && PngBody(chunks) && |crc| == 4 && StandsAt(data, start, PngFile(chunks, crc))
    && m == Match(start, Png, Some(|PngFile(chunks, crc)|), 1.0, true, PngMeta(|chunks| + 1))
  }

  /** A PNG is reported exactly where a file of the grammar stands, with that file's length and
      number of chunks. */
  lemma {:induction false} PngDetectedIff(data: Bytes, start: nat, m: Match)
    ensures DetectPng(data, start) == Some(m) <==> exists chunks, crc :: PngMatch(data, start, m, chunks, crc)
  {
    hide StandsAt, PngWalk, ChunkBytes, ChunksBytes;
    if chunks, crc :| PngMatch(data, start, m, chunks, crc) {
      PartsStand(data, start, PNG_SIGNATURE, PngTail(chunks, crc));
      PngReads(data, start + 8, 0, chunks, crc);
      Stood(data, start, PNG_SIGNATURE);
    }
    if DetectPng(data, start) == Some(m) {
      var chunks, crc := PngParses(data, start + 8, 0);
      PngReads(data, start + 8, 0, chunks, crc);
      SignatureStands(data, start);
      PartsStand(data, start, PNG_SIGNATURE, PngTail(chunks, crc));
      assert PngMatch(data, start, m, chunks, crc);
    }
  }

  lemma SignatureStands(data: Bytes, start: nat)
    requires StartsWith(data, PNG_SIGNATURE, start)
    ensures StandsAt(data, start, PNG_SIGNATURE)
  {
  }

  // ---- RIFF/WAVE: chunks padded to even length, filling the declared size ----

  datatype RiffChunk = RiffChunk(kind: Bytes, payload: Bytes, pad: Bytes) {
    predicate Fits() {
      |kind| == 4 && |payload| < 0x1_0000_0000 && |pad| == |payload| % 2
    }
  }

  function RiffChunkBytes(c: RiffChunk): Bytes {
    c.kind + (LEBytes(|c.payload|, 4) + (c.payload + c.pad))
  }

  function RiffBody(chunks: seq<RiffChunk>): Bytes {
    if chunks == [] then [] else RiffChunkBytes(chunks[0]) + RiffBody(chunks[1..])
  }

  predicate RiffFits(chunks: seq<RiffChunk>) {
    forall i :: 0 <= i < |chunks| ==> chunks[i].Fits()
  }

  function RiffFile(chunks: seq<RiffChunk>): Bytes {
    RIFF + (LEBytes(4 + |RiffBody(chunks)|, 4) + (WAVE + RiffBody(chunks)))
  }

  /** The codec tag: the first two bytes of the last format chunk long enough to hold one. */
  function CodecOf(chunks: seq<RiffChunk>): Option<nat> {
    if chunks == [] then None
    else
      var last := chunks[|chunks| - 1];
      if last.kind == FMT && |last.payload| >= 2 then Some(LE(last.payload[..2]))
      else CodecOf(chunks[..|chunks| - 1])
  }

  /** The codec after more chunks, given the codec so far. */
  function CodecAfter(codec: Option<nat>, chunks: seq<RiffChunk>): Option<nat> {
    if CodecOf(chunks).Some? then CodecOf(chunks) else codec
  }

  function ChunkCodec(codec: Option<nat>, c: RiffChunk): Option<nat> {
    if c.kind == FMT && |c.payload| >= 2 then Some(LE(c.payload[..2])) else codec
  }

  lemma {:induction false} CodecStep(codec: Option<nat>, c: RiffChunk, rest: seq<RiffChunk>)
    ensures CodecAfter(codec, [c] + rest) == CodecAfter(ChunkCodec(codec, c), rest)
    decreases |rest|
  {
    hide LE;
    var all := [c] + rest;
    if rest == [] {
      assert all[..0] == [];
    } else {
      var front := rest[..|rest| - 1];
      CodecStep(codec, c, front);
      assert all[..|all| - 1] == [c] + front;
    }
  }

  lemma {:induction false} RiffChunkStands(data: Bytes, cursor: nat, c: RiffChunk)
    requires c.Fits() && StandsAt(data, cursor, RiffChunkBytes(c))
    ensures |RiffChunkBytes(c)| == 8 + |c.payload| + |c.payload| % 2 && cursor + |RiffChunkBytes(c)| <= |data|
    ensures U32LE(data, cursor + 4) == |c.payload| && data[cursor..cursor + 4] == c.kind
    ensures |c.payload| >= 2 ==> data[cursor + 8..cursor + 10] == c.payload[..2]
  {
    hide LE, LEBytes, StandsAt, Pow2;
    Pow2Words();
    LEBytesRoundTrip(|c.payload|, 4);
    PartsStand(data, cursor, c.kind, LEBytes(|c.payload|, 4) + (c.payload + c.pad));
    PartsStand(data, cursor + 4, LEBytes(|c.payload|, 4), c.payload + c.pad);
    PartsStand(data, cursor + 8, c.payload, c.pad);
    Stood(data, cursor, RiffChunkBytes(c));
    Stood(data, cursor, c.kind);
    Stood(data, cursor + 4, LEBytes(|c.payload|, 4));
    Stood(data, cursor + 8, c.payload);
    if |c.payload| >= 2 {
      assert data[cursor + 8..cursor + 10] == data[cursor + 8..cursor + 8 + |c.payload|][..2];
    }
  }

  /** One turn of the walk, over a chunk of known size. */
  lemma RiffTurn(data: Bytes, cursor: nat, end: nat, codec: Option<nat>, n: nat, c: RiffChunk)
    requires cursor + 8 + |c.payload| + |c.payload| % 2 <= end <= |data|
    requires U32LE(data, cursor + 4) == |c.payload| && data[cursor..cursor + 4] == c.kind
    requires |c.payload| >= 2 ==> data[cursor + 8..cursor + 10] == c.payload[..2]
    ensures RiffWalk(data, cursor, end, codec, n)
         == RiffWalk(data, cursor + 8 + |c.payload| + |c.payload| % 2, end, ChunkCodec(codec, c), n + 1)
  {
    hide LE, U32LE;
  }

  lemma {:induction false} RiffReads(
    data: Bytes, cursor: nat, end: nat, codec: Option<nat>, n: nat, chunks: seq<RiffChunk>)
    requires RiffFits(chunks) && StandsAt(data, cursor, RiffBody(chunks))
    requires cursor + |RiffBody(chunks)| == end <= |data|
    ensures RiffWalk(data, cursor, end, codec, n) == Some((CodecAfter(codec, chunks), n + |chunks|))
    decreases |chunks|
  {
    hide StandsAt, RiffChunkBytes, U32LE, ChunkCodec, CodecAfter;
    if chunks == [] {
      assert CodecAfter(codec, chunks) == codec by {
        NoChunksNoCodec(codec);
      }
    } else {
      var c, rest := chunks[0], chunks[1..];
      assert c.Fits() && chunks == [c] + rest;
      PartsStand(data, cursor, RiffChunkBytes(c), RiffBody(rest));
      RiffChunkStands(data, cursor, c);
      hide RiffWalk;
      RiffTurn(data, cursor, end, codec, n, c);
      RiffReads(data, cursor + |RiffChunkBytes(c)|, end, ChunkCodec(codec, c), n + 1, rest);
      CodecStep(codec, c, rest);
    }
  }

  lemma NoChunksNoCodec(codec: Option<nat>)
    ensures CodecAfter(codec, []) == codec
  {
  }

  function RiffChunkAt(data: Bytes, cursor: nat): RiffChunk
    requires cursor + 8 <= |data|
    requires var size := U32LE(data, cursor + 4); cursor + 8 + size + size % 2 <= |data|
  {
    var size := U32LE(data, cursor + 4);
    var at := cursor + 8;
    RiffChunk(data[cursor..cursor + 4], data[at..at + size], data[at + size..at + size + size % 2])
  }

  lemma {:induction false} RiffChunkAtStands(data: Bytes, cursor: nat)
    requires cursor + 8 <= |data|
    requires var size := U32LE(data, cursor + 4); cursor + 8 + size + size % 2 <= |data|
    ensures var c := RiffChunkAt(data, cursor);
            c.Fits() && |c.payload| == U32LE(data, cursor + 4) && StandsAt(data, cursor, RiffChunkBytes(c))
  {
    hide LE, LEBytes, StandsAt, Pow2;
    var size, at := U32LE(data, cursor + 4), cursor + 8;
    var c := RiffChunkAt(data, cursor);
    LengthBackLE(data, cursor + 4);
    SliceStands(data, cursor, cursor + 4);
    SliceStands(data, cursor + 4, at);
    SliceStands(data, at, at + size);
    SliceStands(data, at + size, at + size + size % 2);
    assert LEBytes(|c.payload|, 4) == data[cursor + 4..at];
    hide U32LE, RiffChunkAt;
    PartsStand(data, at, c.payload, c.pad);
    PartsStand(data, cursor + 4, LEBytes(|c.payload|, 4), c.payload + c.pad);
    PartsStand(data, cursor, c.kind, LEBytes(|c.payload|, 4) + (c.payload + c.pad));
  }

  lemma LengthBackLE(data: Bytes, at: nat)
    requires at + 4 <= |data|
    ensures LEBytes(U32LE(data, at), 4) == data[at..at + 4] && U32LE(data, at) < 0x1_0000_0000
  {
    hide LE, LEBytes;
    Pow2Words();
    LERoundTrip(data[at..at + 4]);
  }

  lemma {:induction false} RiffParses(data: Bytes, cursor: nat, end: nat, codec: Option<nat>, n: nat)
    returns (chunks: seq<RiffChunk>)
    requires cursor <= end <= |data| && RiffWalk(data, cursor, end, codec, n).Some?
    ensures RiffFits(chunks) && StandsAt(data, cursor, RiffBody(chunks)) && cursor + |RiffBody(chunks)| == end
    decreases end - cursor
  {
    hide StandsAt, RiffChunkBytes, U32LE, RiffChunkAt, LE;
    if cursor == end {
      chunks := [];
      NothingStands(data, cursor);
    } else {
      var size := U32LE(data, cursor + 4);
      var next := cursor + 8 + size + size % 2;
      var c := RiffChunkAt(data, cursor);
      RiffChunkAtStands(data, cursor);
      RiffChunkStands(data, cursor, c);
      RiffTurn(data, cursor, end, codec, n, c);
      hide RiffWalk;
      var rest := RiffParses(data, next, end, ChunkCodec(codec, c), n + 1);
      chunks := [c] + rest;
      assert chunks[1..] == rest;
      PartsStand(data, cursor, RiffChunkBytes(c), RiffBody(rest));
    }
  }

  predicate RiffMatches(data: Bytes, start: nat, m: Match, chunks: seq<RiffChunk>) {
    && RiffFits(chunks) && 4 + |RiffBody(chunks)| < 0x1_0000_0000 && StandsAt(data, start, RiffFile(chunks))
    && m == Match(start, if CodecOf(chunks) == Some(0x0270) || CodecOf(chunks) == Some(0x0271) then At3 else Wav,
                  Some(|RiffFile(chunks)|), 1.0, true, RiffMeta(|chunks|, CodecOf(chunks)))
  }

  /** A RIFF/WAVE resource is reported exactly where a file of the grammar stands, as ATRAC3 exactly
      when the codec tag of its last usable format chunk says so. */
  lemma {:induction false} RiffDetectedIff(data: Bytes, start: nat, m: Match)
    ensures DetectRiff(data, start) == Some(m) <==> exists chunks :: RiffMatches(data, start, m, chunks)
  {
    hide StandsAt, RiffWalk, RiffBody, LE, LEBytes;
    if chunks :| RiffMatches(data, start, m, chunks) {
      RiffForward(data, start, chunks);
    }
    if DetectRiff(data, start) == Some(m) {
      var end := start + U32LE(data, start + 4) + 8;
      var chunks := RiffParses(data, start + 12, end, None, 0);
      RiffHeaderStands(data, start, chunks);
      RiffForward(data, start, chunks);
      assert RiffMatches(data, start, m, chunks);
    }
  }

  lemma {:induction false} RiffHeaderStands(data: Bytes, start: nat, chunks: seq<RiffChunk>)
    requires start + 12 <= |data| && data[start..start + 4] == RIFF && data[start + 8..start + 12] == WAVE
    requires StandsAt(data, start + 12, RiffBody(chunks)) && U32LE(data, start + 4) == 4 + |RiffBody(chunks)|
    ensures StandsAt(data, start, RiffFile(chunks)) && 4 + |RiffBody(chunks)| < 0x1_0000_0000
  {
    hide StandsAt, RiffBody, U32LE, LEBytes;
    LengthBackLE(data, start + 4);
    SliceStands(data, start, start + 4);
    SliceStands(data, start + 4, start + 8);
    SliceStands(data, start + 8, start + 12);
    var size := LEBytes(4 + |RiffBody(chunks)|, 4);
    PartsStand(data, start + 8, WAVE, RiffBody(chunks));
    PartsStand(data, start + 4, size, WAVE + RiffBody(chunks));
    PartsStand(data, start, RIFF, size + (WAVE + RiffBody(chunks)));
  }

  lemma {:induction false} RiffForward(data: Bytes, start: nat, chunks: seq<RiffChunk>)
    requires RiffFits(chunks) && 4 + |RiffBody(chunks)| < 0x1_0000_0000 && StandsAt(data, start, RiffFile(chunks))
    ensures DetectRiff(data, start) == Some(RiffMatch(start, |RiffFile(chunks)|, CodecOf(chunks), |chunks|))
  {
    hide StandsAt, RiffBody, LE, LEBytes, RiffWalk, RiffMatch, CodecOf;
    var body := RiffBody(chunks);
    RiffHeaderReads(data, start, body);
    Stood(data, start + 12, body);
    RiffReads(data, start + 12, start + 12 + |body|, None, 0, chunks);
  }

  lemma {:induction false} RiffHeaderReads(data: Bytes, start: nat, body: Bytes)
    requires 4 + |body| < 0x1_0000_0000
    requires StandsAt(data, start, RIFF + (LEBytes(4 + |body|, 4) + (WAVE + body)))
    ensures start + 12 + |body| <= |data| && data[start..start + 4] == RIFF && data[start + 8..start + 12] == WAVE
    ensures U32LE(data, start + 4) == 4 + |body| && StandsAt(data, start + 12, body)
    ensures |RIFF + (LEBytes(4 + |body|, 4) + (WAVE + body))| == 12 + |body|
  {
    hide StandsAt, LE, LEBytes;
    Pow2Words();
    var size := LEBytes(4 + |body|, 4);
    LEBytesRoundTrip(4 + |body|, 4);
    PartsStand(data, start, RIFF, size + (WAVE + body));
    PartsStand(data, start + 4, size, WAVE + body);
    PartsStand(data, start + 8, WAVE, body);
    Stood(data, start, RIFF);
    Stood(data, start + 4, size);
    Stood(data, start + 8, WAVE);
    Stood(data, start + 12, body);
  }

  // ---- JPEG: marker segments with anything but markers between them ----

  /** A byte that is neither a stuffed zero nor fill, directly after 0xFF at or after the cursor. */
  predicate MarkerAt(data: Bytes, cursor: nat, p: int) {
    cursor < p < |data| && data[p - 1] == 0xFF && data[p] != 0 && data[p] != 0xFF
  }

  predicate FirstMarker(data: Bytes, cursor: nat, p: int) {
    MarkerAt(data, cursor, p) && forall q :: cursor < q < p ==> !MarkerAt(data, cursor, q)
  }

  lemma {:induction false} NextMarkerFirst(data: Bytes, cursor: nat)
    ensures match NextMarker(data, cursor)
            case None => forall p :: !MarkerAt(data, cursor, p)
            case Some((marker, after)) => FirstMarker(data, cursor, after - 1) && marker == data[after - 1]
    decreases |data| - cursor
  {
    hide SkipFill;
    if cursor < |data| {
      NextMarkerTurn(data, cursor);
      hide NextMarker;
      if data[cursor] != 0xFF {
        NextMarkerFirst(data, cursor + 1);
        LaterMarkers(data, cursor, cursor + 1);
      } else {
        var at := SkipFill(data, cursor + 1);
        if at < |data| && data[at] == 0 {
          NextMarkerFirst(data, at + 1);
          LaterMarkers(data, cursor, at + 1);
        }
      }
    }
  }

  /** When no marker begins before `next`, the markers from either position are the same. */
  lemma LaterMarkers(data: Bytes, cursor: nat, next: nat)
    requires cursor <= next && forall p :: cursor < p <= next ==> !MarkerAt(data, cursor, p)
    ensures forall p :: MarkerAt(data, cursor, p) <==> MarkerAt(data, next, p)
  {
  }

  /** The marker scan finds the first marker: `at` is its position. */
  lemma {:induction false} NextMarkerIff(data: Bytes, cursor: nat, at: nat)
    ensures (at < |data| && NextMarker(data, cursor) == Some((data[at], at + 1))) <==> FirstMarker(data, cursor, at)
  {
    NextMarkerFirst(data, cursor);
    hide NextMarker;
    if FirstMarker(data, cursor, at) && NextMarker(data, cursor).Some? {
      var found := NextMarker(data, cursor).value.1 - 1;
      assert found < at ==> !MarkerAt(data, cursor, found);
      assert at < found ==> !MarkerAt(data, cursor, at);
    }
  }

  /** What may stand before a marker byte: no earlier marker, and 0xFF at the end. */
  predicate GapFits(gap: Bytes) {
    && gap != [] && gap[|gap| - 1] == 0xFF
    && forall q :: 1 <= q < |gap| && gap[q - 1] == 0xFF ==> gap[q] == 0 || gap[q] == 0xFF
  }

  lemma {:induction false} GapMarker(data: Bytes, cursor: nat, gap: Bytes, marker: Byte)
    requires GapFits(gap) && marker != 0 && marker != 0xFF && StandsAt(data, cursor, gap + [marker])
    ensures cursor + |gap| < |data| && NextMarker(data, cursor) == Some((marker, cursor + |gap| + 1))
  {
    hide NextMarker;
    PartsStand(data, cursor, gap, [marker]);
    var at := cursor + |gap|;
    assert forall i :: 0 <= i < |gap| ==> data[cursor + i] == data[cursor..at][i] == gap[i];
    assert data[at] == data[at..at + 1][0] == marker;
    assert data[at - 1] == gap[|gap| - 1];
    forall q | cursor < q < at ensures !MarkerAt(data, cursor, q) {
      assert data[q] == gap[q - cursor] && data[q - 1] == gap[q - cursor - 1];
    }
    NextMarkerIff(data, cursor, at);
  }

  lemma GapOfMarker(data: Bytes, cursor: nat, at: nat)
    requires FirstMarker(data, cursor, at)
    ensures GapFits(data[cursor..at]) && StandsAt(data, cursor, data[cursor..at] + [data[at]])
  {
    var gap := data[cursor..at];
    forall q | 1 <= q < |gap| && gap[q - 1] == 0xFF ensures gap[q] == 0 || gap[q] == 0xFF {
      assert !MarkerAt(data, cursor, cursor + q);
    }
    assert data[cursor..at + 1] == gap + [data[at]];
  }

  /** RST0 to RST7 (0xD0..0xD7) and TEM (0x01) stand alone; other markers carry a length. */
  predicate HasLength(marker: Byte) {
    !(0xD0 <= marker <= 0xD7 || marker == 0x01)
  }

  datatype Segment = Segment(gap: Bytes, marker: Byte, payload: Bytes) {
    /** Neither start (0xD8) nor end of image (0xD9). */
    predicate Fits() {
      && GapFits(gap) && marker !in {0, 0xFF, 0xD8, 0xD9}
      && if HasLength(marker) then |payload| <= 0xFFFF - 2 else payload == []
    }
  }

  function LengthField(s: Segment): Bytes {
    if HasLength(s.marker) then BEBytes(|s.payload| + 2, 2) + s.payload else []
  }

  function SegmentBytes(s: Segment): Bytes {
    s.gap + [s.marker] + LengthField(s)
  }

  function SegmentsBytes(segments: seq<Segment>): Bytes {
    if segments == [] then [] else SegmentBytes(segments[0]) + SegmentsBytes(segments[1..])
  }

  predicate JpegBody(segments: seq<Segment>) {
    forall i :: 0 <= i < |segments| ==> segments[i].Fits()
  }

  function JpegTail(segments: seq<Segment>, gap: Bytes): Bytes {
    SegmentsBytes(segments) + (gap + [0xD9])
  }

  function JpegFile(segments: seq<Segment>, gap: Bytes): Bytes {
    [0xFF, 0xD8] + JpegTail(segments, gap)
  }

  /** One turn of the walk over a segment that stands at the cursor. */
  lemma SegmentTurn(data: Bytes, cursor: nat, s: Segment)
    requires s.Fits() && StandsAt(data, cursor, SegmentBytes(s))
    ensures cursor + |SegmentBytes(s)| <= |data|
    ensures JpegWalk(data, cursor) == JpegWalk(data, cursor + |SegmentBytes(s)|)
  {
    hide StandsAt, NextMarker, GapFits, BE, BEBytes, Pow2;
    PartsStand(data, cursor, s.gap + [s.marker], LengthField(s));
    GapMarker(data, cursor, s.gap, s.marker);
    var after := cursor + |s.gap| + 1;
    Stood(data, cursor, SegmentBytes(s));
    if HasLength(s.marker) {
      Pow2Words();
      BEBytesRoundTrip(|s.payload| + 2, 2);
      PartsStand(data, after, BEBytes(|s.payload| + 2, 2), s.payload);
      Stood(data, after, BEBytes(|s.payload| + 2, 2));
    }
  }

  lemma {:induction false} JpegReads(data: Bytes, cursor: nat, segments: seq<Segment>, gap: Bytes)
    requires JpegBody(segments) && GapFits(gap) && StandsAt(data, cursor, JpegTail(segments, gap))
    ensures JpegWalk(data, cursor) == Some(cursor + |JpegTail(segments, gap)|)
    decreases |segments|
  {
    hide StandsAt, NextMarker, GapFits, SegmentBytes;
    if segments == [] {
      assert JpegTail(segments, gap) == gap + [0xD9];
      GapMarker(data, cursor, gap, 0xD9);
    } else {
      var s, rest := segments[0], segments[1..];
      assert s.Fits();
      assert JpegTail(segments, gap) == SegmentBytes(s) + JpegTail(rest, gap);
      PartsStand(data, cursor, SegmentBytes(s), JpegTail(rest, gap));
      hide JpegWalk;
      SegmentTurn(data, cursor, s);
      JpegReads(data, cursor + |SegmentBytes(s)|, rest, gap);
    }
  }

  /** The segment whose marker is at `at`. */
  function SegmentAt(data: Bytes, cursor: nat, at: nat): Segment
    requires cursor <= at < |data|
    requires HasLength(data[at]) ==>
               at + 3 <= |data| && 2 <= BE(data[at + 1..at + 3]) && at + 1 + BE(data[at + 1..at + 3]) <= |data|
  {
    Segment(data[cursor..at], data[at],
            if HasLength(data[at]) then data[at + 3..at + 1 + BE(data[at + 1..at + 3])] else [])
  }

  lemma SegmentAtStands(data: Bytes, cursor: nat, at: nat)
    requires FirstMarker(data, cursor, at) && data[at] != 0xD8 && data[at] != 0xD9
    requires HasLength(data[at]) ==>
               at + 3 <= |data| && 2 <= BE(data[at + 1..at + 3]) && at + 1 + BE(data[at + 1..at + 3]) <= |data|
    ensures SegmentAt(data, cursor, at).Fits()
    ensures StandsAt(data, cursor, SegmentBytes(SegmentAt(data, cursor, at)))
    ensures cursor + |SegmentBytes(SegmentAt(data, cursor, at))|
         == if HasLength(data[at]) then at + 1 + BE(data[at + 1..at + 3]) else at + 1
  {
    hide StandsAt, GapFits, BE, BEBytes, Pow2;
    var s := SegmentAt(data, cursor, at);
    GapOfMarker(data, cursor, at);
    if HasLength(data[at]) {
      LengthStands(data, at);
    } else {
      NothingStands(data, at + 1);
    }
    PartsStand(data, cursor, s.gap + [s.marker], LengthField(s));
  }

  lemma LengthStands(data: Bytes, at: nat)
    requires at + 3 <= |data| && 2 <= BE(data[at + 1..at + 3]) && at + 1 + BE(data[at + 1..at + 3]) <= |data|
    ensures var length := BE(data[at + 1..at + 3]);
            var payload := data[at + 3..at + 1 + length];
            && |payload| == length - 2 <= 0xFFFF - 2 && |BEBytes(length, 2)| == 2
            && StandsAt(data, at + 1, BEBytes(length, 2) + payload)
  {
    hide StandsAt, BE, BEBytes, Pow2;
    var field := data[at + 1..at + 3];
    Pow2Words();
    BERoundTrip(field);
    SliceStands(data, at + 1, at + 3);
    SliceStands(data, at + 3, at + 1 + BE(field));
    PartsStand(data, at + 1, field, data[at + 3..at + 1 + BE(field)]);
  }

  lemma {:induction false} JpegParses(data: Bytes, cursor: nat) returns (segments: seq<Segment>, gap: Bytes)
    requires JpegWalk(data, cursor).Some?
    ensures JpegBody(segments) && GapFits(gap) && StandsAt(data, cursor, JpegTail(segments, gap))
    decreases |data| - cursor
  {
    hide StandsAt, NextMarker, GapFits, SegmentBytes, BE, SegmentAt;
    NextMarkerFirst(data, cursor);
    var at := NextMarker(data, cursor).value.1 - 1;
    GapOfMarker(data, cursor, at);
    if data[at] == 0xD9 {
      segments, gap := [], data[cursor..at];
      assert JpegTail(segments, gap) == gap + [0xD9];
    } else {
      var s := SegmentAt(data, cursor, at);
      SegmentAtStands(data, cursor, at);
      var rest;
      rest, gap := JpegParses(data, cursor + |SegmentBytes(s)|);
      segments := [s] + rest;
      assert segments[1..] == rest;
      PartsStand(data, cursor, SegmentBytes(s), JpegTail(rest, gap));
      assert JpegTail(segments, gap) == SegmentBytes(s) + JpegTail(rest, gap);
    }
  }

  predicate JpegMatch(data: Bytes, start: nat, m: Match, segments: seq<Segment>, gap: Bytes) {
    && JpegBody(segments) && GapFits(gap) && StandsAt(data, start, JpegFile(segments, gap))
    && m == Match(start, Jpeg, Some(|JpegFile(segments, gap)|), 1.0, true, NoMeta)
  }

  /** A JPEG is reported exactly where a file of the grammar stands, with that file's length. */
  lemma JpegDetectedIff(data: Bytes, start: nat, m: Match)
    ensures DetectJpeg(data, start) == Some(m) <==> exists segments, gap :: JpegMatch(data, start, m, segments, gap)
  {
    hide StandsAt, JpegWalk, SegmentsBytes, GapFits;
    if segments, gap :| JpegMatch(data, start, m, segments, gap) {
      PartsStand(data, start, [0xFF, 0xD8], JpegTail(segments, gap));
      JpegReads(data, start + 2, segments, gap);
      Stood(data, start, [0xFF, 0xD8]);
    }
    if DetectJpeg(data, start) == Some(m) {
      var segments, gap := JpegParses(data, start + 2);
      JpegReads(data, start + 2, segments, gap);
      SliceStands(data, start, start + 2);
      PartsStand(data, start, [0xFF, 0xD8], JpegTail(segments, gap));
      assert JpegMatch(data, start, m, segments, gap);
    }
  }

  // ---- Signatures, and the three formats with one fixed header ----

  lemma SignatureTexts()
    ensures PNG_SIGNATURE == [0x89] + Ascii("PNG") + [0x0D, 0x0A, 0x1A, 0x0A] && IEND == Ascii("IEND")
    ensures RIFF == Ascii("RIFF") && WAVE == Ascii("WAVE") && FMT == Ascii("fmt ")
    ensures VAGP == Ascii("VAGp") && GIM_SIGNATURE == Ascii("MIG.00.1PSP") && PSMF == Ascii("PSMF")
  {
    LongTexts();
    ShortTexts();
    hide Ascii;
  }

  lemma LongTexts()
    ensures PNG_SIGNATURE == [0x89] + Ascii("PNG") + [0x0D, 0x0A, 0x1A, 0x0A]
    ensures GIM_SIGNATURE == Ascii("MIG.00.1PSP")
  {
    assert Ascii("PNG") == [0x50, 0x4E, 0x47];
  }

  lemma ShortTexts()
    ensures IEND == Ascii("IEND") && RIFF == Ascii("RIFF") && WAVE == Ascii("WAVE") && FMT == Ascii("fmt ")
    ensures VAGP == Ascii("VAGp") && PSMF == Ascii("PSMF")
  {
  }

  /** A VAG file: version, payload length and sample rate in a header of 48 bytes, then the payload. */
  datatype VagFile = VagFile(version: nat, reserved: Bytes, rate: nat, rest: Bytes, payload: Bytes) {
    predicate Fits() {
      && 0 < version < 0x1_0000_0000 && |reserved| == 4 && 4000 <= rate <= 192_000 && |rest| == 28
      && 0 < |payload| < 0x1_0000_0000
    }

    function Written(): Bytes {
      Ascii("VAGp") + (BEBytes(version, 4) + (reserved + (BEBytes(|payload|, 4) + (BEBytes(rate, 4) + (rest + payload)))))
    }
  }

  predicate VagMatch(data: Bytes, start: nat, m: Match, v: VagFile) {
    && v.Fits() && StandsAt(data, start, v.Written())
    && m == Match(start, Vag, Some(0x30 + |v.payload|), 1.0, true, VagMeta(v.version, v.rate, |v.payload|))
  }

  lemma VagStands(data: Bytes, start: nat, v: VagFile)
    requires v.Fits()
    ensures StandsAt(data, start, v.Written())
       <==> && start + 0x30 + |v.payload| <= |data| && data[start..start + 4] == VAGP
            && U32BE(data, start + 4) == v.version && data[start + 8..start + 12] == v.reserved
            && U32BE(data, start + 12) == |v.payload| && U32BE(data, start + 16) == v.rate
            && data[start + 20..start + 48] == v.rest && data[start + 48..start + 48 + |v.payload|] == v.payload
  {
    SignatureTexts();
    hide StandsAt, BEBytes, BE, U32BE, Pow2, Ascii;
    var payload := BEBytes(|v.payload|, 4) + (BEBytes(v.rate, 4) + (v.rest + v.payload));
    PartsStand(data, start, VAGP, BEBytes(v.version, 4) + (v.reserved + payload));
    PartsStand(data, start + 4, BEBytes(v.version, 4), v.reserved + payload);
    PartsStand(data, start + 8, v.reserved, payload);
    PartsStand(data, start + 12, BEBytes(|v.payload|, 4), BEBytes(v.rate, 4) + (v.rest + v.payload));
    PartsStand(data, start + 16, BEBytes(v.rate, 4), v.rest + v.payload);
    PartsStand(data, start + 20, v.rest, v.payload);
    StandsIff(data, start, VAGP);
    WordStandsIff(data, start + 4, v.version);
    StandsIff(data, start + 8, v.reserved);
    WordStandsIff(data, start + 12, |v.payload|);
    WordStandsIff(data, start + 16, v.rate);
    StandsIff(data, start + 20, v.rest);
    StandsIff(data, start + 48, v.payload);
  }

  lemma StandsIff(data: Bytes, pos: nat, bytes: Bytes)
    ensures StandsAt(data, pos, bytes) <==> pos + |bytes| <= |data| && data[pos..pos + |bytes|] == bytes
  {
  }

  lemma WordStandsIff(data: Bytes, pos: nat, word: nat)
    requires word < 0x1_0000_0000
    ensures StandsAt(data, pos, BEBytes(word, 4)) <==> pos + 4 <= |data| && U32BE(data, pos) == word
  {
    hide BEBytes, BE;
    Pow2Words();
    BEBytesRoundTrip(word, 4);
    if pos + 4 <= |data| {
      LengthBack(data, pos);
    }
  }

  /** A VAG is reported exactly where such a file stands. */
  lemma VagDetectedIff(data: Bytes, start: nat, m: Match)
    ensures DetectVag(data, start) == Some(m) <==> exists v :: VagMatch(data, start, m, v)
  {
    hide StandsAt, U32BE, VagFile.Written;
    if v :| VagMatch(data, start, m, v) {
      VagStands(data, start, v);
    }
    if DetectVag(data, start) == Some(m) {
      LengthBack(data, start + 4);
      LengthBack(data, start + 12);
      LengthBack(data, start + 16);
      var n := U32BE(data, start + 12);
      var v := VagFile(U32BE(data, start + 4), data[start + 8..start + 12], U32BE(data, start + 16),
                       data[start + 20..start + 48], data[start + 48..start + 48 + n]);
      VagStands(data, start, v);
      assert VagMatch(data, start, m, v);
    }
  }

  /** A GIM is reported, without an extent, exactly where its signature stands with sixteen bytes to read. */
  lemma GimDetectedIff(data: Bytes, start: nat, m: Match)
    ensures DetectGim(data, start) == Some(m)
       <==> && StandsAt(data, start, Ascii("MIG.00.1PSP")) && start + 16 <= |data|
            && m == Match(start, Gim, None, 0.90, false, NoMeta)
  {
    SignatureTexts();
    hide Ascii;
  }

  /** A PSMF header names one of four versions and a non-empty stream at a sector. */
  datatype PsmfHeader = PsmfHeader(version: Bytes, offset: nat, size: nat) {
    predicate Fits() {
      && version in {Ascii("0012"), Ascii("0013"), Ascii("0014"), Ascii("0015")}
      && 0 < offset < 0x1_0000_0000 && offset % 2048 == 0 && 0 < size < 0x1_0000_0000
    }

    function Written(): Bytes {
      Ascii("PSMF") + (version + (BEBytes(offset, 4) + BEBytes(size, 4)))
    }
  }

  predicate PsmfMatch(data: Bytes, start: nat, m: Match, h: PsmfHeader) {
    && h.Fits() && StandsAt(data, start, h.Written())
    && var whole := start + h.offset + h.size <= |data|;
       m == Match(start, Pmf, if whole then Some(h.offset + h.size) else None, if whole then 1.0 else 0.95, whole,
                  PsmfMeta(h.version, h.offset, h.size))
  }

  lemma VersionTexts(version: Bytes)
    ensures PsmfVersion(version) <==> version in {Ascii("0012"), Ascii("0013"), Ascii("0014"), Ascii("0015")}
  {
    assert Ascii("0012") == [0x30, 0x30, 0x31, 0x32] && Ascii("0013") == [0x30, 0x30, 0x31, 0x33];
    assert Ascii("0014") == [0x30, 0x30, 0x31, 0x34] && Ascii("0015") == [0x30, 0x30, 0x31, 0x35];
    hide Ascii;
    if |version| == 4 {
      FourBytes(version);
    }
  }

  lemma FourBytes(s: Bytes)
    requires |s| == 4
    ensures forall a: Byte, b: Byte, c: Byte, d: Byte ::
              s == [a, b, c, d] <==> s[..3] == [a, b, c] && s[3] == d
  {
    forall a: Byte, b: Byte, c: Byte, d: Byte ensures s == [a, b, c, d] <==> s[..3] == [a, b, c] && s[3] == d {
      assert s == s[..3] + [s[3]];
    }
  }

  lemma PsmfStands(data: Bytes, start: nat, h: PsmfHeader)
    requires h.Fits()
    ensures StandsAt(data, start, h.Written())
       <==> && start + 16 <= |data| && data[start..start + 4] == PSMF && data[start + 4..start + 8] == h.version
            && U32BE(data, start + 8) == h.offset && U32BE(data, start + 12) == h.size
  {
    SignatureTexts();
    hide StandsAt, BEBytes, BE, U32BE, Pow2, Ascii;
    PartsStand(data, start, PSMF, h.version + (BEBytes(h.offset, 4) + BEBytes(h.size, 4)));
    PartsStand(data, start + 4, h.version, BEBytes(h.offset, 4) + BEBytes(h.size, 4));
    PartsStand(data, start + 8, BEBytes(h.offset, 4), BEBytes(h.size, 4));
    StandsIff(data, start, PSMF);
    StandsIff(data, start + 4, h.version);
    WordStandsIff(data, start + 8, h.offset);
    WordStandsIff(data, start + 12, h.size);
  }

  /** A PSMF is reported exactly where such a header stands, and can be cut out exactly when its stream lies in
      the data. */
  lemma PsmfDetectedIff(data: Bytes, start: nat, m: Match)
    ensures DetectPsmf(data, start) == Some(m) <==> exists h :: PsmfMatch(data, start, m, h)
  {
    hide StandsAt, U32BE, PsmfHeader.Written, PsmfVersion, Ascii;
    if h :| PsmfMatch(data, start, m, h) {
      PsmfStands(data, start, h);
      VersionTexts(h.version);
    }
    if DetectPsmf(data, start) == Some(m) {
      LengthBack(data, start + 8);
      LengthBack(data, start + 12);
      var h := PsmfHeader(data[start + 4..start + 8], U32BE(data, start + 8), U32BE(data, start + 12));
      VersionTexts(h.version);
      PsmfStands(data, start, h);
      assert PsmfMatch(data, start, m, h);
    }
  }
}
