/** `resource_formats.py`: choosing a detector and the greedy left-to-right scan. */
module ResourceScan {
  import opened Prelude
  import opened ByteStrings
  import opened ResourceFormats
  import opened Sorting

  function Listed(m: Option<Match>): seq<Match> {
    if m.Some? then [m.value] else []
  }

  /** Every detector's verdict at one offset, in detector order. */
  function Candidates(data: Bytes, offset: nat): seq<Match> {
    Listed(DetectPng(data, offset)) + Listed(DetectJpeg(data, offset)) + Listed(DetectRiff(data, offset))
    + Listed(DetectVag(data, offset)) + Listed(DetectGim(data, offset)) + Listed(DetectPsmf(data, offset))
  }

  /** The first byte each detector insists on. */
  function FirstByte(f: Format): Byte {
    match f
    case Png => 0x89
    case Jpeg => 0xFF
    case At3 => 0x52
    case Wav => 0x52
    case Vag => 0x56
    case Gim => 0x4D
    case Pmf => 0x50
  }

  /** The sort key: confidence, then extractable with a size, then the format name's order. */
  predicate Preferred(a: Match, b: Match) {
    || a.confidence > b.confidence
    || (a.confidence == b.confidence
        && (Loose(a) < Loose(b) || (Loose(a) == Loose(b) && NameRank(a.format) <= NameRank(b.format))))
  }

  function Loose(m: Match): nat {
    if m.extractable && m.size.Some? && m.size.value > 0 then 0 else 1
  }

  function NameRank(f: Format): nat {
    match f
    case At3 => 0
    case Gim => 1
    case Jpeg => 2
    case Pmf => 3
    case Png => 4
    case Vag => 5
    case Wav => 6
  }

  function DetectAt(data: Bytes, offset: int): Option<Match> {
    if offset < 0 || offset >= |data| || Candidates(data, offset) == [] then None
    else Some(Candidates(data, offset)[0])
  }

  // ---- Signatures are mutually exclusive ----

  lemma SignatureBytes(data: Bytes, offset: nat)
    ensures forall m :: m in Candidates(data, offset) ==>
              m.offset == offset < |data| && data[offset] == FirstByte(m.format)
    ensures |Candidates(data, offset)| <= 1
  {
    hide DetectPng, DetectJpeg, DetectRiff, DetectVag, DetectGim, DetectPsmf;
    HeadByte(data, offset);
    FormatsNamed(data, offset);
  }

  /** Each detector reports its own format, at its own offset, with an extent inside the data. */
  lemma FormatsNamed(data: Bytes, offset: nat)
    ensures DetectPng(data, offset).Some? ==> Proper(data, offset, DetectPng(data, offset).value, {Png})
    ensures DetectJpeg(data, offset).Some? ==> Proper(data, offset, DetectJpeg(data, offset).value, {Jpeg})
    ensures DetectRiff(data, offset).Some? ==> Proper(data, offset, DetectRiff(data, offset).value, {At3, Wav})
    ensures DetectVag(data, offset).Some? ==> Proper(data, offset, DetectVag(data, offset).value, {Vag})
    ensures DetectGim(data, offset).Some? ==> Proper(data, offset, DetectGim(data, offset).value, {Gim})
    ensures DetectPsmf(data, offset).Some? ==> Proper(data, offset, DetectPsmf(data, offset).value, {Pmf})
  {
    hide PngWalk, JpegWalk, RiffWalk, BE, LE;
  }

  predicate Proper(data: Bytes, offset: nat, m: Match, formats: set<Format>) {
    && m.offset == offset && m.format in formats && m.confidence >= 0.90
    && (m.extractable <==> m.size.Some?)
    && (m.size.Some? ==> m.size.value >= 2 && offset + m.size.value <= |data|)
  }

  lemma HeadByte(data: Bytes, offset: nat)
    ensures DetectPng(data, offset).Some? ==> offset < |data| && data[offset] == 0x89
    ensures DetectJpeg(data, offset).Some? ==> offset < |data| && data[offset] == 0xFF
    ensures DetectRiff(data, offset).Some? ==> offset < |data| && data[offset] == 0x52
    ensures DetectVag(data, offset).Some? ==> offset < |data| && data[offset] == 0x56
    ensures DetectGim(data, offset).Some? ==> offset < |data| && data[offset] == 0x4D
    ensures DetectPsmf(data, offset).Some? ==> offset < |data| && data[offset] == 0x50
  {
    hide PngWalk, JpegWalk, RiffWalk;
    if StartsWith(data, PNG_SIGNATURE, offset) {
      assert data[offset..offset + |PNG_SIGNATURE|][0] == PNG_SIGNATURE[0];
    }
    if StartsWith(data, [0xFF, 0xD8], offset) {
      assert data[offset..offset + 2][0] == 0xFF;
    }
    if StartsWith(data, GIM_SIGNATURE, offset) {
      assert data[offset..offset + |GIM_SIGNATURE|][0] == GIM_SIGNATURE[0];
    }
    if offset + 4 <= |data| {
      assert data[offset..offset + 4][0] == data[offset];
    }
  }

  /** The detector list, the candidate sort and the choice.  At most one format ever matches, so the
      sort never decides between formats. */
  method DetectResourceAt(data: Bytes, offset: int) returns (r: Option<Match>)
    ensures r == DetectAt(data, offset)
    ensures r.Some? ==> 0 <= offset && Candidates(data, offset) == [r.value]
  {
    if offset < 0 || offset >= |data| {
      return None;
    }
    hide DetectPng, DetectJpeg, DetectRiff, DetectVag, DetectGim, DetectPsmf;
    var png := ScanPng(data, offset);
    var jpeg := ScanJpeg(data, offset);
    var riff := ScanRiff(data, offset);
    var candidates := Listed(png) + Listed(jpeg) + Listed(riff) + Listed(DetectVag(data, offset))
                      + Listed(DetectGim(data, offset)) + Listed(DetectPsmf(data, offset));
    assert candidates == Candidates(data, offset);
    SignatureBytes(data, offset);
    if candidates == [] {
      return None;
    }
    SortOfSorted(Preferred, candidates);
    r := Some(Sort(Preferred, candidates)[0]);
  }

  // ---- A bounded match depends only on its own extent ----

  /** The file a match cuts out. */
  function Carve(data: Bytes, m: Match): Bytes
    requires m.size.Some? && m.offset + m.size.value <= |data|
  {
    data[m.offset..m.offset + m.size.value]
  }

  lemma ExtentInRange(data: Bytes, offset: nat, m: Match)
    requires m in Candidates(data, offset)
    ensures m.offset == offset && m.confidence >= 0.90
    ensures m.extractable <==> m.size.Some?
    ensures m.extractable ==> m.size.value >= 2 && m.offset + m.size.value <= |data|
  {
    hide DetectPng, DetectJpeg, DetectRiff, DetectVag, DetectGim, DetectPsmf, Candidates;
    FormatsNamed(data, offset);
    CandidateIff(data, offset, m);
  }

  lemma PngCarved(data: Bytes, start: nat)
    requires DetectPng(data, start).Some?
    ensures var m := DetectPng(data, start).value;
            m.size.Some? && start + m.size.value <= |data|
            && DetectPng(data[start..start + m.size.value], 0) == Some(m.(offset := 0))
  {
    hide PngWalk;
    var end := PngWalk(data, start + 8, 0).value.0;
    PngWalkCarved(data, start, start + 8, 0);
    SliceOfSlice(data, start, end, start, start + |PNG_SIGNATURE|);
  }

  lemma JpegCarved(data: Bytes, start: nat)
    requires DetectJpeg(data, start).Some?
    ensures var m := DetectJpeg(data, start).value;
            m.size.Some? && start + m.size.value <= |data|
            && DetectJpeg(data[start..start + m.size.value], 0) == Some(m.(offset := 0))
  {
    hide JpegWalk;
    var end := JpegWalk(data, start + 2).value;
    JpegWalkCarved(data, start, start + 2);
    SliceOfSlice(data, start, end, start, start + 2);
  }

  lemma RiffCarved(data: Bytes, start: nat)
    requires DetectRiff(data, start).Some?
    ensures var m := DetectRiff(data, start).value;
            m.size.Some? && start + m.size.value <= |data|
            && DetectRiff(data[start..start + m.size.value], 0) == Some(m.(offset := 0))
  {
    hide RiffWalk, LE;
    var end := start + U32LE(data, start + 4) + 8;
    RiffWalkCarved(data, start, start + 12, end, None, 0);
    SliceOfSlice(data, start, end, start, start + 4);
    SliceOfSlice(data, start, end, start + 4, start + 8);
    SliceOfSlice(data, start, end, start + 8, start + 12);
  }

  lemma VagCarved(data: Bytes, start: nat)
    requires DetectVag(data, start).Some?
    ensures var m := DetectVag(data, start).value;
            m.size.Some? && start + m.size.value <= |data|
            && DetectVag(data[start..start + m.size.value], 0) == Some(m.(offset := 0))
  {
    hide BE;
    var end := start + 0x30 + U32BE(data, start + 12);
    SliceOfSlice(data, start, end, start, start + 4);
    SliceOfSlice(data, start, end, start + 4, start + 8);
    SliceOfSlice(data, start, end, start + 12, start + 16);
    SliceOfSlice(data, start, end, start + 16, start + 20);
  }

  lemma PsmfCarved(data: Bytes, start: nat)
    requires DetectPsmf(data, start).Some? && DetectPsmf(data, start).value.extractable
    ensures var m := DetectPsmf(data, start).value;
            m.size.Some? && start + m.size.value <= |data|
            && DetectPsmf(data[start..start + m.size.value], 0) == Some(m.(offset := 0))
  {
    hide BE;
    var end := start + U32BE(data, start + 8) + U32BE(data, start + 12);
    SliceOfSlice(data, start, end, start, start + 4);
    SliceOfSlice(data, start, end, start + 4, start + 8);
    SliceOfSlice(data, start, end, start + 8, start + 12);
    SliceOfSlice(data, start, end, start + 12, start + 16);
  }

  /** Carving an extractable match and detecting at the start of the carved file gives the same
      format, size, confidence and metadata. */
  lemma CarvedDetectsAlike(data: Bytes, offset: nat)
    requires DetectAt(data, offset).Some? && DetectAt(data, offset).value.extractable
    ensures var m := DetectAt(data, offset).value;
            && m.offset == offset && m.size.Some? && m.size.value >= 2 && offset + m.size.value <= |data|
            && DetectAt(Carve(data, m), 0) == Some(m.(offset := 0))
  {
    hide DetectPng, DetectJpeg, DetectRiff, DetectVag, DetectGim, DetectPsmf, Candidates;
    var m := DetectAt(data, offset).value;
    ExtentInRange(data, offset, m);
    var carved := Carve(data, m);
    CarvedCandidate(data, offset, m);
    SignatureBytes(carved, 0);
  }

  lemma CarvedCandidate(data: Bytes, offset: nat, m: Match)
    requires m in Candidates(data, offset) && m.extractable
    requires m.size.Some? && m.offset + m.size.value <= |data|
    ensures m.(offset := 0) in Candidates(Carve(data, m), 0)
  {
    hide DetectPng, DetectJpeg, DetectRiff, DetectVag, DetectGim, DetectPsmf, Candidates;
    ExtentInRange(data, offset, m);
    CandidateIff(data, offset, m);
    CandidateIff(Carve(data, m), 0, m.(offset := 0));
    if DetectPng(data, offset) == Some(m) {
      PngCarved(data, offset);
    } else if DetectJpeg(data, offset) == Some(m) {
      JpegCarved(data, offset);
    } else if DetectRiff(data, offset) == Some(m) {
      RiffCarved(data, offset);
    } else if DetectVag(data, offset) == Some(m) {
      VagCarved(data, offset);
    } else if DetectPsmf(data, offset) == Some(m) {
      PsmfCarved(data, offset);
    } else {
      FormatsNamed(data, offset);
      GimHasNoExtent(data, offset);
    }
  }

  lemma GimHasNoExtent(data: Bytes, offset: nat)
    ensures DetectGim(data, offset).Some? ==> !DetectGim(data, offset).value.extractable
  {
  }

  lemma CandidateIff(data: Bytes, offset: nat, m: Match)
    ensures m in Candidates(data, offset)
       <==> || DetectPng(data, offset) == Some(m) || DetectJpeg(data, offset) == Some(m)
            || DetectRiff(data, offset) == Some(m) || DetectVag(data, offset) == Some(m)
            || DetectGim(data, offset) == Some(m) || DetectPsmf(data, offset) == Some(m)
  {
    hide DetectPng, DetectJpeg, DetectRiff, DetectVag, DetectGim, DetectPsmf;
  }

  // ---- The greedy scan ----

  predicate Accepted(data: Bytes, minimum: real, offset: nat) {
    DetectAt(data, offset).Some? && DetectAt(data, offset).value.confidence >= minimum
  }

  /** How far the scan moves past a match: its size when it can be cut out, else one byte. */
  function Span(m: Match): nat {
    if m.extractable && m.size.Some? && m.size.value > 0 then m.size.value else 1
  }

  predicate InExtent(m: Match, p: nat) {
    m.offset <= p < m.offset + Span(m)
  }

  ghost predicate AreDetections(data: Bytes, minimum: real, limit: nat, matches: seq<Match>) {
    forall i :: 0 <= i < |matches| ==>
      && matches[i].offset < limit && Accepted(data, minimum, matches[i].offset)
      && matches[i] == DetectAt(data, matches[i].offset).value
  }

  ghost predicate InOrder(matches: seq<Match>) {
    forall i, j :: 0 <= i < j < |matches| ==> matches[i].offset + Span(matches[i]) <= matches[j].offset
  }

  ghost predicate CoversAccepted(data: Bytes, minimum: real, limit: nat, matches: seq<Match>) {
    forall p: nat :: p < limit && Accepted(data, minimum, p) ==>
      exists i :: 0 <= i < |matches| && InExtent(matches[i], p)
  }

  /** A list of matches covers `data[..limit]` greedily from the left: detections in order, none
      starting inside an earlier extent, and no accepted offset left outside every extent. */
  ghost predicate GreedyCover(data: Bytes, minimum: real, limit: nat, matches: seq<Match>) {
    && AreDetections(data, minimum, limit, matches)
    && InOrder(matches)
    && CoversAccepted(data, minimum, limit, matches)
  }

  predicate EndsBy(matches: seq<Match>, limit: nat) {
    forall i :: 0 <= i < |matches| ==> matches[i].offset + Span(matches[i]) <= limit
  }

  method ScanResourceBytes(data: Bytes, minimum: real) returns (matches: seq<Match>)
    ensures GreedyCover(data, minimum, |data|, matches)
    ensures EndsBy(matches, |data|)
  {
    hide GreedyCover, DetectAt, EndsBy, Candidates, InExtent;
    matches := [];
    var cursor := 0;
    CoverNothing(data, minimum);
    while cursor < |data|
      invariant cursor <= |data| && GreedyCover(data, minimum, cursor, matches) && EndsBy(matches, cursor)
      decreases |data| - cursor
    {
      var candidate := DetectResourceAt(data, cursor);
      if candidate.None? || candidate.value.confidence < minimum {
        CoverSkips(data, minimum, cursor, matches);
        cursor := cursor + 1;
        continue;
      }
      CoverTakes(data, minimum, cursor, matches, candidate.value);
      matches := matches + [candidate.value];
      if candidate.value.extractable && candidate.value.size.Some? && candidate.value.size.value > 0 {
        cursor := cursor + candidate.value.size.value;
      } else {
        cursor := cursor + 1;
      }
    }
  }

  lemma CoverNothing(data: Bytes, minimum: real)
    ensures GreedyCover(data, minimum, 0, []) && EndsBy([], 0)
  {
  }

  lemma CoverSkips(data: Bytes, minimum: real, cursor: nat, matches: seq<Match>)
    requires GreedyCover(data, minimum, cursor, matches) && !Accepted(data, minimum, cursor)
    ensures GreedyCover(data, minimum, cursor + 1, matches)
    ensures EndsBy(matches, cursor) ==> EndsBy(matches, cursor + 1)
  {
    hide Accepted, DetectAt;
  }

  lemma CoverTakes(data: Bytes, minimum: real, cursor: nat, matches: seq<Match>, m: Match)
    requires GreedyCover(data, minimum, cursor, matches)
    requires EndsBy(matches, cursor) && DetectAt(data, cursor) == Some(m) && m.confidence >= minimum
    ensures m.offset == cursor && Span(m) >= 1 && cursor + Span(m) <= |data|
    ensures GreedyCover(data, minimum, cursor + Span(m), matches + [m])
    ensures EndsBy(matches + [m], cursor + Span(m))
  {
    hide DetectAt, AreDetections, InOrder, CoversAccepted, EndsBy, Span;
    TakenExtent(data, cursor, m);
    DetectionTaken(data, minimum, cursor, matches, m);
    OrderTaken(cursor, matches, m);
    CoverageTaken(data, minimum, cursor, matches, m);
  }

  lemma DetectionTaken(data: Bytes, minimum: real, cursor: nat, matches: seq<Match>, m: Match)
    requires AreDetections(data, minimum, cursor, matches) && m.offset == cursor
    requires DetectAt(data, cursor) == Some(m) && m.confidence >= minimum && Span(m) >= 1
    ensures AreDetections(data, minimum, cursor + Span(m), matches + [m])
  {
    hide DetectAt, Span;
    var all := matches + [m];
    assert all[|matches|] == m && Accepted(data, minimum, cursor);
    assert forall i :: 0 <= i < |matches| ==> all[i] == matches[i];
  }

  lemma OrderTaken(cursor: nat, matches: seq<Match>, m: Match)
    requires InOrder(matches) && EndsBy(matches, cursor) && m.offset == cursor
    ensures InOrder(matches + [m]) && EndsBy(matches + [m], cursor + Span(m))
  {
    hide Span;
    var all := matches + [m];
    assert forall i :: 0 <= i < |matches| ==> all[i] == matches[i];
  }

  lemma CoverageTaken(data: Bytes, minimum: real, cursor: nat, matches: seq<Match>, m: Match)
    requires CoversAccepted(data, minimum, cursor, matches) && m.offset == cursor
    ensures CoversAccepted(data, minimum, cursor + Span(m), matches + [m])
  {
    hide Accepted, Span;
    var all := matches + [m];
    forall p: nat | p < cursor + Span(m) && Accepted(data, minimum, p)
      ensures exists i :: 0 <= i < |all| && InExtent(all[i], p)
    {
      if p < cursor {
        var i :| 0 <= i < |matches| && InExtent(matches[i], p);
        assert all[i] == matches[i];
      } else {
        assert InExtent(all[|matches|], p);
      }
    }
  }

  lemma TakenExtent(data: Bytes, cursor: nat, m: Match)
    requires DetectAt(data, cursor) == Some(m)
    ensures m.offset == cursor && Span(m) >= 1 && cursor + Span(m) <= |data|
  {
    hide Candidates;
    ExtentInRange(data, cursor, m);
  }

  /** An offset is reported exactly when it is accepted and no earlier extent runs over it. */
  lemma ReportedIff(data: Bytes, minimum: real, matches: seq<Match>, p: nat)
    requires GreedyCover(data, minimum, |data|, matches) && p < |data|
    ensures (exists i :: 0 <= i < |matches| && matches[i].offset == p)
       <==> Accepted(data, minimum, p)
            && forall i :: 0 <= i < |matches| ==> !(matches[i].offset < p < matches[i].offset + Span(matches[i]))
  {
    hide Accepted, DetectAt;
    if k :| 0 <= k < |matches| && matches[k].offset == p {
      forall i | 0 <= i < |matches| ensures !(matches[i].offset < p < matches[i].offset + Span(matches[i])) {
        if i < k {
        } else if i > k {
        }
      }
    }
  }

  /** The greedy cover is unique, so the scan's result is fully determined by the detections. */
  lemma CoverUnique(data: Bytes, minimum: real, xs: seq<Match>, ys: seq<Match>)
    requires GreedyCover(data, minimum, |data|, xs) && GreedyCover(data, minimum, |data|, ys)
    ensures xs == ys
  {
    hide GreedyCover;
    CoverPrefix(data, minimum, xs, ys, |xs|);
    CoverPrefix(data, minimum, ys, xs, |ys|);
    assert xs[..|xs|] == xs && ys[..|ys|] == ys;
  }

  lemma {:induction false} CoverPrefix(data: Bytes, minimum: real, xs: seq<Match>, ys: seq<Match>, n: nat)
    requires GreedyCover(data, minimum, |data|, xs) && GreedyCover(data, minimum, |data|, ys)
    requires n <= |xs|
    ensures n <= |ys| && xs[..n] == ys[..n]
    decreases n
  {
    hide GreedyCover;
    if n > 0 {
      CoverPrefix(data, minimum, xs, ys, n - 1);
      NextAgrees(data, minimum, xs, ys, n - 1);
      assert xs[..n] == xs[..n - 1] + [xs[n - 1]] && ys[..n] == ys[..n - 1] + [ys[n - 1]];
    }
  }

  lemma NextAgrees(data: Bytes, minimum: real, xs: seq<Match>, ys: seq<Match>, n: nat)
    requires GreedyCover(data, minimum, |data|, xs) && GreedyCover(data, minimum, |data|, ys)
    requires n < |xs| && n <= |ys| && xs[..n] == ys[..n]
    ensures n < |ys| && xs[n] == ys[n]
  {
    hide Accepted, DetectAt, Span, InOrder, CoversAccepted;
    NoLater(data, minimum, xs, ys, n);
    NoLater(data, minimum, ys, xs, n);
  }

  /** Once the first `n` agree, the other cover's next match does not start later. */
  lemma NoLater(data: Bytes, minimum: real, xs: seq<Match>, ys: seq<Match>, n: nat)
    requires GreedyCover(data, minimum, |data|, xs) && GreedyCover(data, minimum, |data|, ys)
    requires n < |xs| && n <= |ys| && xs[..n] == ys[..n]
    ensures n < |ys| && ys[n].offset <= xs[n].offset
  {
    hide Accepted, DetectAt, Span, InOrder, CoversAccepted, InExtent;
    var p := xs[n].offset;
    var j := CoveringMatch(data, minimum, ys, p);
    forall i | 0 <= i < n ensures !InExtent(ys[i], p) {
      assert ys[..n][i] == xs[..n][i];
      ExtentsOrdered(xs, i, n);
    }
    assert j >= n;
    if j > n {
      ExtentsOrdered(ys, n, j);
    }
    ExtentStarts(ys[j], p);
  }

  lemma CoveringMatch(data: Bytes, minimum: real, ys: seq<Match>, p: nat) returns (j: nat)
    requires CoversAccepted(data, minimum, |data|, ys) && p < |data| && Accepted(data, minimum, p)
    ensures j < |ys| && InExtent(ys[j], p)
  {
    hide Accepted, InExtent;
    j :| 0 <= j < |ys| && InExtent(ys[j], p);
  }

  lemma ExtentsOrdered(s: seq<Match>, i: nat, j: nat)
    requires InOrder(s) && i < j < |s|
    ensures s[i].offset <= s[j].offset && !InExtent(s[i], s[j].offset)
  {
  }

  lemma ExtentStarts(m: Match, p: nat)
    requires InExtent(m, p)
    ensures m.offset <= p
  {
  }

  /** Rescanning a carved payload finds exactly that payload, covering all of it. */
  lemma CarvedRescans(data: Bytes, minimum: real, offset: nat, rescan: seq<Match>)
    requires Accepted(data, minimum, offset) && DetectAt(data, offset).value.extractable
    requires var m := DetectAt(data, offset).value;
             m.size.Some? && m.offset + m.size.value <= |data|
             && GreedyCover(Carve(data, m), minimum, |Carve(data, m)|, rescan)
    ensures rescan == [DetectAt(data, offset).value.(offset := 0)]
  {
    hide DetectAt;
    var m := DetectAt(data, offset).value;
    CarvedDetectsAlike(data, offset);
    var carved, whole := Carve(data, m), [m.(offset := 0)];
    assert Accepted(carved, minimum, 0);
    forall p: nat | p < |carved| ensures InExtent(whole[0], p) {
    }
    assert GreedyCover(carved, minimum, |carved|, whole);
    CoverUnique(carved, minimum, rescan, whole);
  }
}
