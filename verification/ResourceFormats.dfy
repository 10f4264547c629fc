/** `resource_formats.py`: the six format detectors. */
module ResourceFormats {
  import opened Prelude
  import opened ByteStrings

  datatype Format = At3 | Gim | Jpeg | Pmf | Png | Vag | Wav

  datatype Meta =
    | NoMeta
    | PngMeta(chunkCount: nat)
    | RiffMeta(chunkCount: nat, codecTag: Option<nat>)
    | VagMeta(version: nat, sampleRate: nat, payloadSize: nat)
    | PsmfMeta(psmfVersion: Bytes, streamOffset: nat, streamSize: nat)

  datatype Match = Match(
    offset: nat, format: Format, size: Option<nat>, confidence: real, extractable: bool, meta: Meta)

  predicate StartsWith(data: Bytes, signature: Bytes, start: nat) {
    start + |signature| <= |data| && data[start..start + |signature|] == signature
  }

  function U32BE(data: Bytes, at: nat): nat
    requires at + 4 <= |data|
  {
    BE(data[at..at + 4])
  }

  function U32LE(data: Bytes, at: nat): nat
    requires at + 4 <= |data|
  {
    LE(data[at..at + 4])
  }

  const PNG_SIGNATURE: Bytes := [0x89, 0x50, 0x4E, 0x47, 0x0D, 0x0A, 0x1A, 0x0A]
  const IEND: Bytes := [0x49, 0x45, 0x4E, 0x44]
  const RIFF: Bytes := [0x52, 0x49, 0x46, 0x46]
  const WAVE: Bytes := [0x57, 0x41, 0x56, 0x45]
  const FMT: Bytes := [0x66, 0x6D, 0x74, 0x20]
  const VAGP: Bytes := [0x56, 0x41, 0x47, 0x70]
  const GIM_SIGNATURE: Bytes := [0x4D, 0x49, 0x47, 0x2E, 0x30, 0x30, 0x2E, 0x31, 0x50, 0x53, 0x50]
  const PSMF: Bytes := [0x50, 0x53, 0x4D, 0x46]

  // ---- PNG: chunks of length, type, data and CRC up to IEND ----

  /** The end of the IEND chunk and the number of chunks, walking from `cursor`. */
  function PngWalk(data: Bytes, cursor: nat, chunks: nat): (r: Option<(nat, nat)>)
    ensures r.Some? ==> cursor + 12 <= r.value.0 <= |data|
    decreases |data| - cursor
  {
    if cursor + 12 > |data| then None
    else
      var length := U32BE(data, cursor);
      var chunkEnd := cursor + 12 + length;
      if chunkEnd > |data| then None
      else if data[cursor + 4..cursor + 8] == IEND then
        if length != 0 then None else Some((chunkEnd, chunks + 1))
      else PngWalk(data, chunkEnd, chunks + 1)
  }

  function DetectPng(data: Bytes, start: nat): Option<Match> {
    if !StartsWith(data, PNG_SIGNATURE, start) then None
    else
      match PngWalk(data, start + 8, 0)
      case None => None
      case Some((end, chunks)) => Some(Match(start, Png, Some(end - start), 1.0, true, PngMeta(chunks)))
  }

  method ScanPng(data: Bytes, start: nat) returns (r: Option<Match>)
    ensures r == DetectPng(data, start)
  {
    if !StartsWith(data, PNG_SIGNATURE, start) {
      return None;
    }
    var cursor, chunks := start + 8, 0;
    while cursor + 12 <= |data|
      invariant PngWalk(data, start + 8, 0) == PngWalk(data, cursor, chunks)
      decreases |data| - cursor
    {
      var length := U32BE(data, cursor);
      var chunkEnd := cursor + 12 + length;
      if chunkEnd > |data| {
        return None;
      }
      chunks := chunks + 1;
      if data[cursor + 4..cursor + 8] == IEND {
        if length != 0 {
          return None;
        }
        return Some(Match(start, Png, Some(chunkEnd - start), 1.0, true, PngMeta(chunks)));
      }
      cursor := chunkEnd;
    }
    return None;
  }

  // ---- JPEG: markers and segments up to end-of-image ----

  function SkipFill(data: Bytes, cursor: nat): (next: nat)
    requires cursor <= |data|
    ensures cursor <= next <= |data|
    ensures next < |data| ==> data[next] != 0xFF
    ensures forall i :: cursor <= i < next ==> data[i] == 0xFF
    decreases |data| - cursor
  {
    if cursor < |data| && data[cursor] == 0xFF then SkipFill(data, cursor + 1) else cursor
  }

  /** The next marker byte after fill bytes, skipping stuffed zeros, and the position after it. */
  function NextMarker(data: Bytes, cursor: nat): (r: Option<(Byte, nat)>)
    ensures r.Some? ==> cursor + 2 <= r.value.1 <= |data|
    decreases |data| - cursor
  {
    if cursor >= |data| then None
    else if data[cursor] != 0xFF then NextMarker(data, cursor + 1)
    else
      var at := SkipFill(data, cursor + 1);
      if at >= |data| then None
      else if data[at] == 0 then NextMarker(data, at + 1)
      else Some((data[at], at + 1))
  }

  lemma NextMarkerTurn(data: Bytes, cursor: nat)
    requires cursor < |data|
    ensures data[cursor] != 0xFF ==> NextMarker(data, cursor) == NextMarker(data, cursor + 1)
    ensures data[cursor] == 0xFF ==>
              var at := SkipFill(data, cursor + 1);
              NextMarker(data, cursor)
              == if at >= |data| then None
                 else if data[at] == 0 then NextMarker(data, at + 1)
                 else Some((data[at], at + 1))
  {
    hide SkipFill;
  }

  /** The position after the end-of-image marker, walking segments from `cursor`. */
  function JpegWalk(data: Bytes, cursor: nat): (r: Option<nat>)
    ensures r.Some? ==> cursor < r.value <= |data|
    decreases |data| - cursor
  {
    match NextMarker(data, cursor)
    case None => None
    case Some((marker, after)) =>
      if marker == 0xD9 then Some(after)
      else if 0xD0 <= marker <= 0xD7 || marker == 0x01 then JpegWalk(data, after)
      else if marker == 0xD8 then None
      else if after + 2 > |data| then None
      else
        var length := BE(data[after..after + 2]);
        if length < 2 || after + length > |data| then None else JpegWalk(data, after + length)
  }

  function DetectJpeg(data: Bytes, start: nat): Option<Match> {
    if !StartsWith(data, [0xFF, 0xD8], start) then None
    else
      match JpegWalk(data, start + 2)
      case None => None
      case Some(end) => Some(Match(start, Jpeg, Some(end - start), 1.0, true, NoMeta))
  }

  method FindMarker(data: Bytes, cursor0: nat) returns (r: Option<(Byte, nat)>)
    ensures r == NextMarker(data, cursor0)
  {
    var cursor := cursor0;
    while cursor < |data|
      invariant NextMarker(data, cursor0) == NextMarker(data, cursor)
      decreases |data| - cursor
    {
      if data[cursor] != 0xFF {
        cursor := cursor + 1;
        continue;
      }
      ghost var fill := cursor;
      while cursor < |data| && data[cursor] == 0xFF
        invariant fill <= cursor <= |data|
        invariant cursor > fill ==> SkipFill(data, fill + 1) == SkipFill(data, cursor)
        decreases |data| - cursor
      {
        cursor := cursor + 1;
      }
      if cursor >= |data| {
        return None;
      }
      var marker := data[cursor];
      cursor := cursor + 1;
      if marker == 0 {
        continue;
      }
      return Some((marker, cursor));
    }
    return None;
  }

  method ScanJpeg(data: Bytes, start: nat) returns (r: Option<Match>)
    ensures r == DetectJpeg(data, start)
  {
    hide NextMarker, BE;
    if start + 2 > |data| || data[start..start + 2] != [0xFF, 0xD8] {
      return None;
    }
    var cursor := start + 2;
    while cursor < |data|
      invariant JpegWalk(data, start + 2) == JpegWalk(data, cursor)
      decreases |data| - cursor
    {
      var info := FindMarker(data, cursor);
      if info.None? {
        return None;
      }
      var (marker, after) := info.value;
      if marker == 0xD9 {
        return Some(Match(start, Jpeg, Some(after - start), 1.0, true, NoMeta));
      }
      if 0xD0 <= marker <= 0xD7 || marker == 0x01 {
        cursor := after;
        continue;
      }
      if marker == 0xD8 || after + 2 > |data| {
        return None;
      }
      var length := BE(data[after..after + 2]);
      if length < 2 || after + length > |data| {
        return None;
      }
      cursor := after + length;
    }
    return None;
  }

  // ---- RIFF/WAVE: padded chunks filling the declared size ----

  function RiffWalk(data: Bytes, cursor: nat, end: nat, codec: Option<nat>, chunks: nat): Option<(Option<nat>, nat)>
    requires end <= |data|
    decreases end - cursor
  {
    if cursor >= end then Some((codec, chunks))
    else if cursor + 8 > end then None
    else
      var size := U32LE(data, cursor + 4);
      var chunkEnd := cursor + 8 + size;
      if chunkEnd > end then None
      else
        var codec' := if data[cursor..cursor + 4] == FMT && size >= 2
                      then Some(LE(data[cursor + 8..cursor + 10])) else codec;
        if chunkEnd + size % 2 > end then None else RiffWalk(data, chunkEnd + size % 2, end, codec', chunks + 1)
  }

  function RiffMatch(start: nat, size: nat, codec: Option<nat>, chunks: nat): Match {
    Match(start, if codec == Some(0x0270) || codec == Some(0x0271) then At3 else Wav,
          Some(size), 1.0, true, RiffMeta(chunks, codec))
  }

  function DetectRiff(data: Bytes, start: nat): Option<Match> {
    if start + 12 > |data| || data[start..start + 4] != RIFF then None
    else
      var total := U32LE(data, start + 4) + 8;
      if total < 12 || start + total > |data| || data[start + 8..start + 12] != WAVE then None
      else
        match RiffWalk(data, start + 12, start + total, None, 0)
        case None => None
        case Some((codec, chunks)) => Some(RiffMatch(start, total, codec, chunks))
  }

  method ScanRiff(data: Bytes, start: nat) returns (r: Option<Match>)
    ensures r == DetectRiff(data, start)
  {
    hide LE, RiffMatch;
    if start + 12 > |data| || data[start..start + 4] != RIFF {
      return None;
    }
    var total := U32LE(data, start + 4) + 8;
    var end := start + total;
    if total < 12 || end > |data| {
      return None;
    }
    if data[start + 8..start + 12] != WAVE {
      return None;
    }
    var cursor, chunks := start + 12, 0;
    var codec: Option<nat> := None;
    while cursor < end
      invariant RiffWalk(data, start + 12, end, None, 0) == RiffWalk(data, cursor, end, codec, chunks)
      decreases end - cursor
    {
      if cursor + 8 > end {
        return None;
      }
      var size := U32LE(data, cursor + 4);
      var chunkStart := cursor + 8;
      var chunkEnd := chunkStart + size;
      if chunkEnd > end {
        return None;
      }
      chunks := chunks + 1;
      if data[cursor..cursor + 4] == FMT && size >= 2 {
        codec := Some(LE(data[chunkStart..chunkStart + 2]));
      }
      cursor := chunkEnd + size % 2;
      if cursor > end {
        return None;
      }
    }
    return Some(RiffMatch(start, total, codec, chunks));
  }

  // ---- VAG, GIM and PSMF headers ----

  function DetectVag(data: Bytes, start: nat): Option<Match> {
    if start + 0x30 > |data| || data[start..start + 4] != VAGP then None
    else
      var version, payload, rate := U32BE(data, start + 4), U32BE(data, start + 12), U32BE(data, start + 16);
      if version == 0 || payload == 0 || !(4000 <= rate <= 192000) || start + 0x30 + payload > |data| then None
      else Some(Match(start, Vag, Some(0x30 + payload), 1.0, true, VagMeta(version, rate, payload)))
  }

  function DetectGim(data: Bytes, start: nat): Option<Match> {
    if !StartsWith(data, GIM_SIGNATURE, start) || start + 16 > |data| then None
    else Some(Match(start, Gim, None, 0.90, false, NoMeta))
  }

  predicate PsmfVersion(version: Bytes) {
    |version| == 4 && version[..3] == [0x30, 0x30, 0x31] && 0x32 <= version[3] <= 0x35
  }

  function DetectPsmf(data: Bytes, start: nat): Option<Match> {
    if start + 16 > |data| || data[start..start + 4] != PSMF || !PsmfVersion(data[start + 4..start + 8]) then None
    else
      var offset, size := U32BE(data, start + 8), U32BE(data, start + 12);
      if offset == 0 || offset % 0x800 != 0 || size == 0 then None
      else
        var bounded := start + offset + size <= |data|;
        Some(Match(start, Pmf, if bounded then Some(offset + size) else None, if bounded then 1.0 else 0.95, bounded,
                   PsmfMeta(data[start + 4..start + 8], offset, size)))
  }

  // ---- A bounded match depends only on its own extent ----

  lemma {:induction false} PngWalkCarved(data: Bytes, start: nat, cursor: nat, chunks: nat)
    requires start <= cursor && PngWalk(data, cursor, chunks).Some?
    ensures var (end, total) := PngWalk(data, cursor, chunks).value;
            PngWalk(data[start..end], cursor - start, chunks) == Some((end - start, total))
    decreases |data| - cursor
  {
    var (end, total) := PngWalk(data, cursor, chunks).value;
    SliceOfSlice(data, start, end, cursor, cursor + 4);
    SliceOfSlice(data, start, end, cursor + 4, cursor + 8);
    var chunkEnd := cursor + 12 + U32BE(data, cursor);
    if data[cursor + 4..cursor + 8] != IEND {
      PngWalkCarved(data, start, chunkEnd, chunks + 1);
    }
  }

  lemma {:induction false} SkipFillCarved(data: Bytes, start: nat, end: nat, cursor: nat)
    requires start <= cursor <= end <= |data| && SkipFill(data, cursor) < end
    ensures SkipFill(data[start..end], cursor - start) == SkipFill(data, cursor) - start
    decreases |data| - cursor
  {
    if data[cursor] == 0xFF {
      SkipFillCarved(data, start, end, cursor + 1);
    }
  }

  lemma {:induction false} NextMarkerCarved(data: Bytes, start: nat, end: nat, cursor: nat)
    requires start <= cursor && end <= |data|
    requires NextMarker(data, cursor).Some? && NextMarker(data, cursor).value.1 <= end
    ensures var (marker, after) := NextMarker(data, cursor).value;
            NextMarker(data[start..end], cursor - start) == Some((marker, after - start))
    decreases |data| - cursor
  {
    hide SkipFill, NextMarker;
    var carved := data[start..end];
    assert carved[cursor - start] == data[cursor];
    NextMarkerTurn(data, cursor);
    NextMarkerTurn(carved, cursor - start);
    if data[cursor] != 0xFF {
      NextMarkerCarved(data, start, end, cursor + 1);
    } else {
      var at := SkipFill(data, cursor + 1);
      SkipFillCarved(data, start, end, cursor + 1);
      assert carved[at - start] == data[at];
      if data[at] == 0 {
        NextMarkerCarved(data, start, end, at + 1);
      }
    }
  }

  lemma {:induction false} JpegWalkCarved(data: Bytes, start: nat, cursor: nat)
    requires start <= cursor && JpegWalk(data, cursor).Some?
    ensures var end := JpegWalk(data, cursor).value;
            JpegWalk(data[start..end], cursor - start) == Some(end - start)
    decreases |data| - cursor
  {
    hide NextMarker, BE;
    var end := JpegWalk(data, cursor).value;
    var (marker, after) := NextMarker(data, cursor).value;
    NextMarkerCarved(data, start, end, cursor);
    if marker == 0xD9 {
    } else if 0xD0 <= marker <= 0xD7 || marker == 0x01 {
      JpegWalkCarved(data, start, after);
    } else {
      SliceOfSlice(data, start, end, after, after + 2);
      JpegWalkCarved(data, start, after + BE(data[after..after + 2]));
    }
  }

  lemma {:induction false} RiffWalkCarved(
    data: Bytes, start: nat, cursor: nat, end: nat, codec: Option<nat>, chunks: nat)
    requires start <= cursor && start <= end <= |data| && RiffWalk(data, cursor, end, codec, chunks).Some?
    ensures RiffWalk(data[start..end], cursor - start, end - start, codec, chunks)
         == RiffWalk(data, cursor, end, codec, chunks)
    decreases end - cursor
  {
    hide LE;
    if cursor < end {
      SliceOfSlice(data, start, end, cursor, cursor + 4);
      SliceOfSlice(data, start, end, cursor + 4, cursor + 8);
      var size := U32LE(data, cursor + 4);
      var chunkEnd := cursor + 8 + size;
      var codec' := if data[cursor..cursor + 4] == FMT && size >= 2
                    then Some(LE(data[cursor + 8..cursor + 10])) else codec;
      if size >= 2 {
        SliceOfSlice(data, start, end, cursor + 8, cursor + 10);
      }
      RiffWalkCarved(data, start, chunkEnd + size % 2, end, codec', chunks + 1);
    }
  }
}
