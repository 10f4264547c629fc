/** `runtime/transport.py`: WebSocket framing over a byte stream (sections 5.2 and 5.3 of RFC 6455). */
module WebSocket {
  import opened Prelude
  import opened Bits
  import opened ByteStrings

  datatype FrameError = TimedOut | ConnectionFailed | Closed | Fragmented | TooLarge

  datatype EncodeError = BadKey | OpcodeTooWide | PayloadTooLong

  datatype Frame = Frame(opcode: nat, payload: Bytes)

  // ---- Masking ----

  function MaskByte(x: Byte, k: Byte): (r: Byte)
    ensures r == Xor(x, k)
  {
    assert Pow2(8) == 256 by {
      Pow2Values();
    }
    XorBound(x, k, 8);
    Xor(x, k)
  }

  /** `value ^ key[index % 4]` throughout. */
  function Masked(payload: Bytes, key: Bytes): (r: Bytes)
    requires |key| == 4
    ensures |r| == |payload|
  {
    seq(|payload|, i requires 0 <= i < |payload| => MaskByte(payload[i], key[i % 4]))
  }

  lemma MaskTwice(payload: Bytes, key: Bytes)
    requires |key| == 4
    ensures Masked(Masked(payload, key), key) == payload
  {
    hide Xor;
    var twice := Masked(Masked(payload, key), key);
    forall i | 0 <= i < |payload| ensures twice[i] == payload[i] {
      XorInvolution(payload[i], key[i % 4]);
    }
  }

  // ---- Encoding ----

  /** `0x80 | v`. */
  function SetTop(v: nat): nat {
    if v / 128 % 2 == 1 then v else v + 128
  }

  /** The second header byte and the extended length, in the shortest of the three forms. */
  function LengthBytes(length: nat): (r: Bytes)
    requires length < 0x1_0000_0000_0000_0000
    ensures |r| >= 1
  {
    if length < 126 then [128 + length]
    else if length <= 0xFFFF then [128 + 126] + BEBytes(length, 2)
    else [128 + 127] + BEBytes(length, 8)
  }

  function EncodeClientFrame(payload: Bytes, opcode: nat, key: Bytes): Result<Bytes, EncodeError> {
    if |key| != 4 then Err(BadKey)
    else if SetTop(opcode) >= 256 then Err(OpcodeTooWide)
    else if |payload| >= 0x1_0000_0000_0000_0000 then Err(PayloadTooLong)
    else Ok([SetTop(opcode)] + LengthBytes(|payload|) + key + Masked(payload, key))
  }

  // ---- What a stream of bytes means ----

  /** The first frame of a stream and the number of bytes it occupies. */
  datatype Reading = Read(frame: Frame, used: nat) | Failed(error: FrameError)

  function Body(s: Bytes, opcode: nat, masked: bool, at: nat, length: nat): Reading {
    var start := if masked then at + 4 else at;
    if start + length > |s| then Failed(Closed)
    else if masked then Read(Frame(opcode, Masked(s[start..start + length], s[at..start])), start + length)
    else Read(Frame(opcode, s[start..start + length]), start + length)
  }

  datatype Header = Head(opcode: nat, masked: bool, length: nat, at: nat) | NoHead(error: FrameError)

  function ReadHeader(s: Bytes): Header {
    if |s| < 2 then NoHead(Closed)
    else if s[0] < 128 then NoHead(Fragmented)
    else
      var short := s[1] % 128;
      var width := if short == 126 then 2 else if short == 127 then 8 else 0;
      if |s| < 2 + width then NoHead(Closed)
      else Head(s[0] % 16, s[1] >= 128, if width == 0 then short else BE(s[2..2 + width]), 2 + width)
  }

  function Decode(s: Bytes, limit: nat): Reading {
    match ReadHeader(s)
    case NoHead(error) => Failed(error)
    case Head(opcode, masked, length, at) =>
      if length > limit then Failed(TooLarge) else Body(s, opcode, masked, at, length)
  }

  // ---- The socket ----

  datatype Arrival = Deliver(size: nat) | TimesOut | Fails

  /** The peer's bytes still to come, and how the next `recv` calls will behave. */
  class Socket {
    var incoming: Bytes
    var schedule: seq<Arrival>

    constructor (incoming: Bytes, schedule: seq<Arrival>)
      ensures this.incoming == incoming && this.schedule == schedule
    {
      this.incoming, this.schedule := incoming, schedule;
    }

    /** Up to `limit` bytes, at least one unless the peer has closed; the empty string on closing. */
    method Recv(limit: nat) returns (r: Result<Bytes, FrameError>)
      requires limit > 0
      modifies this
      ensures r.Ok? ==> |r.value| <= limit && old(incoming) == r.value + incoming
      ensures r.Ok? ==> (r.value == [] <==> old(incoming) == [])
      ensures r.Err? ==> incoming == old(incoming) && (r.error == TimedOut || r.error == ConnectionFailed)
      ensures r.Err? ==> !Calm(old(schedule))
      ensures Calm(old(schedule)) ==> Calm(schedule)
    {
      var next := if schedule == [] then Deliver(limit) else schedule[0];
      assert schedule != [] ==> next in schedule;
      schedule := if schedule == [] then [] else schedule[1..];
      match next {
        case TimesOut => return Err(TimedOut);
        case Fails => return Err(ConnectionFailed);
        case Deliver(size) =>
          var n := Min(Max(size, 1), Min(limit, |incoming|));
          r := Ok(incoming[..n]);
          incoming := incoming[n..];
          assert old(incoming) == r.value + incoming;
      }
    }
  }

  /** No timeout and no socket error lies ahead; chunk sizes are arbitrary. */
  ghost predicate Calm(schedule: seq<Arrival>) {
    forall a :: a in schedule ==> a.Deliver?
  }

  /** Exactly `size` bytes from position `at` of the stream `s`. */
  method RecvExact(socket: Socket, ghost s: Bytes, ghost at: nat, size: nat) returns (r: Result<Bytes, FrameError>)
    requires at <= |s| && socket.incoming == s[at..]
    modifies socket
    ensures r.Ok? ==> at + size <= |s| && r.value == s[at..at + size] && socket.incoming == s[at + size..]
    ensures r == Err(Closed) ==> |s| < at + size
    ensures r.Err? ==> r.error == Closed || Interrupted(r.error)
    ensures r.Err? && Interrupted(r.error) ==> !Calm(old(socket.schedule))
    ensures Calm(old(socket.schedule)) ==> Calm(socket.schedule)
  {
    var data: Bytes := [];
    var remaining: nat := size;
    while remaining > 0
      invariant |data| + remaining == size && at + |data| <= |s|
      invariant data == s[at..at + |data|] && socket.incoming == s[at + |data|..]
      invariant Calm(old(socket.schedule)) ==> Calm(socket.schedule)
      decreases remaining
    {
      var chunk :- socket.Recv(remaining);
      if chunk == [] {
        return Err(Closed);
      }
      ChunkExtends(s, at, data, chunk, socket.incoming);
      data := data + chunk;
      remaining := remaining - |chunk|;
    }
    return Ok(data);
  }

  lemma ChunkExtends(s: Bytes, at: nat, data: Bytes, chunk: Bytes, rest: Bytes)
    requires at + |data| <= |s| && data == s[at..at + |data|] && s[at + |data|..] == chunk + rest
    ensures at + |data + chunk| <= |s|
    ensures data + chunk == s[at..at + |data + chunk|] && rest == s[at + |data + chunk|..]
  {
    var tail := s[at + |data|..];
    assert rest == tail[|chunk|..] == s[at + |data| + |chunk|..];
    assert chunk == tail[..|chunk|] == s[at + |data|..at + |data| + |chunk|];
  }

  predicate Interrupted(error: FrameError) {
    error == TimedOut || error == ConnectionFailed
  }

  /** The outcome agrees with the stream: a frame is its first frame, any protocol error is its error. */
  ghost predicate Agrees(s: Bytes, limit: nat, r: Result<Frame, FrameError>, rest: Bytes) {
    match r
    case Ok(frame) =>
      var reading := Decode(s, limit);
      reading.Read? && reading.frame == frame && reading.used <= |s| && rest == s[reading.used..]
    case Err(error) => Interrupted(error) || Decode(s, limit) == Failed(error)
  }

  /** Whatever the chunking, a frame received is the first frame of the stream and exactly its bytes
      are consumed; without timeouts and socket errors the outcome is that of the stream itself. */
  method ReceiveFrame(socket: Socket, limit: nat) returns (r: Result<Frame, FrameError>)
    modifies socket
    ensures Agrees(old(socket.incoming), limit, r, socket.incoming)
    ensures r.Err? && Interrupted(r.error) ==> !Calm(old(socket.schedule))
    ensures Calm(old(socket.schedule)) ==> Calm(socket.schedule)
  {
    hide Masked, BE, Body, ReadHeader;
    ghost var s := socket.incoming;
    HeaderCases(s);
    var head :- RecvExact(socket, s, 0, 2);
    if head[0] < 128 {
      return Err(Fragmented);
    }
    var length: nat, at := head[1] % 128, 2;
    if length == 126 {
      var wide :- RecvExact(socket, s, 2, 2);
      length, at := BE(wide), 4;
    } else if length == 127 {
      var wide :- RecvExact(socket, s, 2, 8);
      length, at := BE(wide), 10;
    }
    var opcode, masked := head[0] % 16, head[1] >= 128;
    assert ReadHeader(s) == Head(opcode, masked, length, at);
    if length > limit {
      return Err(TooLarge);
    }
    r := ReceiveBody(socket, s, opcode, masked, at, length);
  }

  /** What follows the header: the key, when there is one, and the payload. */
  method ReceiveBody(socket: Socket, ghost s: Bytes, opcode: nat, masked: bool, ghost at: nat, length: nat)
    returns (r: Result<Frame, FrameError>)
    requires at <= |s| && socket.incoming == s[at..]
    modifies socket
    ensures match r
            case Ok(frame) =>
              var reading := Body(s, opcode, masked, at, length);
              && reading.Read? && reading.frame == frame && reading.used <= |s|
              && socket.incoming == s[reading.used..]
            case Err(error) => Interrupted(error) || Body(s, opcode, masked, at, length) == Failed(error)
    ensures r.Err? && Interrupted(r.error) ==> !Calm(old(socket.schedule))
    ensures Calm(old(socket.schedule)) ==> Calm(socket.schedule)
  {
    hide Masked, Body;
    BodyCases(s, opcode, masked, at, length);
    if masked {
      var key :- RecvExact(socket, s, at, 4);
      var payload :- RecvExact(socket, s, at + 4, length);
      return Ok(Frame(opcode, Masked(payload, key)));
    }
    var payload :- RecvExact(socket, s, at, length);
    return Ok(Frame(opcode, payload));
  }

  lemma HeaderCases(s: Bytes)
    ensures |s| < 2 ==> ReadHeader(s) == NoHead(Closed)
    ensures |s| >= 2 && s[0] < 128 ==> ReadHeader(s) == NoHead(Fragmented)
    ensures |s| >= 2 && s[0] >= 128 && s[1] % 128 < 126 ==>
              ReadHeader(s) == Head(s[0] % 16, s[1] >= 128, s[1] % 128, 2)
    ensures |s| >= 2 && s[0] >= 128 && s[1] % 128 == 126 ==>
              ReadHeader(s) == if |s| < 4 then NoHead(Closed) else Head(s[0] % 16, s[1] >= 128, BE(s[2..4]), 4)
    ensures |s| >= 2 && s[0] >= 128 && s[1] % 128 == 127 ==>
              ReadHeader(s) == if |s| < 10 then NoHead(Closed) else Head(s[0] % 16, s[1] >= 128, BE(s[2..10]), 10)
  {
    hide BE;
  }

  lemma BodyCases(s: Bytes, opcode: nat, masked: bool, at: nat, length: nat)
    ensures !masked ==>
              Body(s, opcode, masked, at, length)
              == if at + length > |s| then Failed(Closed) else Read(Frame(opcode, s[at..at + length]), at + length)
    ensures masked ==>
              Body(s, opcode, masked, at, length)
              == if at + 4 + length > |s| then Failed(Closed)
                 else Read(Frame(opcode, Masked(s[at + 4..at + 4 + length], s[at..at + 4])), at + 4 + length)
  {
    hide Masked;
  }

  // ---- Round trips ----

  lemma HeaderOfLength(s: Bytes, first: Byte, length: nat, rest: Bytes)
    requires length < 0x1_0000_0000_0000_0000 && first >= 128 && s == [first] + LengthBytes(length) + rest
    ensures ReadHeader(s) == Head(first % 16, true, length, 1 + |LengthBytes(length)|)
  {
    hide *;
    LengthForms(length);
    if length < 126 {
      ShortForm(s, first, length, rest);
    } else if length <= 0xFFFF {
      LongForm(s, first, 126, length, 2, rest);
    } else {
      LongForm(s, first, 127, length, 8, rest);
    }
  }

  lemma {:induction false} LengthForms(length: nat)
    requires length < 0x1_0000_0000_0000_0000
    ensures length < 126 ==> LengthBytes(length) == [128 + length]
    ensures 126 <= length <= 0xFFFF ==> LengthBytes(length) == [128 + 126] + BEBytes(length, 2)
    ensures length > 0xFFFF ==> LengthBytes(length) == [128 + 127] + BEBytes(length, 8)
    ensures length <= 0xFFFF ==> length < Pow2(16)
    ensures length < Pow2(64)
  {
    hide BEBytes;
    Pow2Words();
  }

  lemma ShortForm(s: Bytes, first: Byte, length: nat, rest: Bytes)
    requires length < 126 && first >= 128 && s == [first] + [128 + length] + rest
    ensures ReadHeader(s) == Head(first % 16, true, length, 2)
  {
    hide ReadHeader, BE;
    HeaderCases(s);
    assert s[0] == first && s[1] == 128 + length;
  }

  lemma {:induction false} LongForm(s: Bytes, first: Byte, marker: Byte, length: nat, width: nat, rest: Bytes)
    requires (marker == 126 && width == 2 && length < Pow2(16)) || (marker == 127 && width == 8 && length < Pow2(64))
    requires first >= 128 && s == [first] + ([128 + marker] + BEBytes(length, width)) + rest
    ensures ReadHeader(s) == Head(first % 16, true, length, 2 + width)
  {
    hide ReadHeader, BE, BEBytes, Pow2;
    HeaderCases(s);
    BEBytesRoundTrip(length, width);
    assert s[0] == first && s[1] == 128 + marker && s[2..2 + width] == BEBytes(length, width);
  }

  /** An encoded frame decodes to its payload and to the low four bits of its opcode, whatever follows. */
  lemma {:induction false} EncodedDecodes(payload: Bytes, opcode: nat, key: Bytes, rest: Bytes, limit: nat)
    requires EncodeClientFrame(payload, opcode, key).Ok? && |payload| <= limit
    ensures var bytes := EncodeClientFrame(payload, opcode, key).value;
            Decode(bytes + rest, limit) == Read(Frame(opcode % 16, payload), |bytes|)
  {
    hide Masked, LengthBytes, ReadHeader, Body;
    var bytes := EncodeClientFrame(payload, opcode, key).value;
    var first, header, masked := SetTop(opcode), LengthBytes(|payload|), Masked(payload, key);
    var s, at := bytes + rest, 1 + |header|;
    assert s == [first] + header + (key + masked + rest);
    HeaderOfLength(s, first, |payload|, key + masked + rest);
    BodyCases(s, first % 16, true, at, |payload|);
    assert s[at..at + 4] == key && s[at + 4..at + 4 + |payload|] == masked;
    MaskTwice(payload, key);
  }

  /** One frame survives the trip exactly when its opcode fits the four-bit field. */
  lemma {:induction false} RoundTripIff(payload: Bytes, opcode: nat, key: Bytes, rest: Bytes, limit: nat)
    requires EncodeClientFrame(payload, opcode, key).Ok? && |payload| <= limit
    ensures var bytes := EncodeClientFrame(payload, opcode, key).value;
            Decode(bytes + rest, limit) == Read(Frame(opcode, payload), |bytes|) <==> opcode < 16
  {
    hide EncodeClientFrame, Decode;
    EncodedDecodes(payload, opcode, key, rest, limit);
  }

  /** A payload over the bound is refused from its header alone. */
  lemma {:induction false} OversizeRefused(payload: Bytes, opcode: nat, key: Bytes, rest: Bytes, limit: nat)
    requires EncodeClientFrame(payload, opcode, key).Ok? && |payload| > limit
    ensures Decode(EncodeClientFrame(payload, opcode, key).value + rest, limit) == Failed(TooLarge)
  {
    hide Masked, LengthBytes, ReadHeader, Body;
    var header, masked := LengthBytes(|payload|), Masked(payload, key);
    var s := EncodeClientFrame(payload, opcode, key).value + rest;
    assert s == [SetTop(opcode)] + header + (key + masked + rest);
    HeaderOfLength(s, SetTop(opcode), |payload|, key + masked + rest);
  }

  /** No frame larger than the bound is ever delivered. */
  lemma DeliveredWithinLimit(s: Bytes, limit: nat)
    ensures Decode(s, limit).Read? ==>
              |Decode(s, limit).frame.payload| <= limit && Decode(s, limit).frame.opcode < 16
              && 2 <= Decode(s, limit).used <= |s|
  {
    hide Masked, BE;
  }

  // ---- Lists of frames ----

  datatype Outgoing = Outgoing(opcode: nat, key: Bytes, payload: Bytes) {
    predicate Sendable(limit: nat) {
      opcode < 16 && |key| == 4 && |payload| <= limit && |payload| < 0x1_0000_0000_0000_0000
    }
  }

  function EncodeAll(frames: seq<Outgoing>, limit: nat): Bytes
    requires forall i :: 0 <= i < |frames| ==> frames[i].Sendable(limit)
  {
    if frames == [] then []
    else
      var f := frames[0];
      assert f.Sendable(limit) && SetTop(f.opcode) < 256;
      EncodeClientFrame(f.payload, f.opcode, f.key).value + EncodeAll(frames[1..], limit)
  }

  /** Reads `count` frames in a row. */
  function DecodeMany(s: Bytes, count: nat, limit: nat): Result<(seq<Frame>, Bytes), FrameError>
    decreases count
  {
    if count == 0 then Ok(([], s))
    else
      match Decode(s, limit)
      case Failed(error) => Err(error)
      case Read(frame, used) =>
        if used > |s| then Err(Closed)
        else
          var more :- DecodeMany(s[used..], count - 1, limit);
          Ok(([frame] + more.0, more.1))
  }

  function FramesOf(frames: seq<Outgoing>): (r: seq<Frame>)
    ensures |r| == |frames| && forall i :: 0 <= i < |r| ==> r[i] == Frame(frames[i].opcode, frames[i].payload)
  {
    seq(|frames|, i requires 0 <= i < |frames| => Frame(frames[i].opcode, frames[i].payload))
  }

  /** Any list of frames, written one after the other, is read back in order and leaves what follows. */
  lemma {:induction false} FramesRoundTrip(frames: seq<Outgoing>, rest: Bytes, limit: nat)
    requires forall i :: 0 <= i < |frames| ==> frames[i].Sendable(limit)
    ensures DecodeMany(EncodeAll(frames, limit) + rest, |frames|, limit) == Ok((FramesOf(frames), rest))
    decreases |frames|
  {
    hide Decode, EncodeClientFrame;
    if frames == [] {
      assert EncodeAll(frames, limit) + rest == rest;
    } else {
      var f, later := frames[0], EncodeAll(frames[1..], limit);
      SendableEncodes(f, limit);
      var bytes := EncodeClientFrame(f.payload, f.opcode, f.key).value;
      assert EncodeAll(frames, limit) + rest == bytes + (later + rest);
      hide EncodeAll;
      EncodedDecodes(f.payload, f.opcode, f.key, later + rest, limit);
      FramesRoundTrip(frames[1..], rest, limit);
      DecodeManyCons(bytes, later + rest, |frames|, limit);
      assert FramesOf(frames) == [Frame(f.opcode, f.payload)] + FramesOf(frames[1..]);
    }
  }

  lemma {:induction false} DecodeManyCons(bytes: Bytes, more: Bytes, count: nat, limit: nat)
    requires count > 0 && Decode(bytes + more, limit).Read? && Decode(bytes + more, limit).used == |bytes|
    requires DecodeMany(more, count - 1, limit).Ok?
    ensures DecodeMany(bytes + more, count, limit)
         == Ok(([Decode(bytes + more, limit).frame] + DecodeMany(more, count - 1, limit).value.0,
                DecodeMany(more, count - 1, limit).value.1))
  {
    hide Decode;
    assert (bytes + more)[|bytes|..] == more;
  }

  lemma {:induction false} SendableEncodes(f: Outgoing, limit: nat)
    requires f.Sendable(limit)
    ensures EncodeClientFrame(f.payload, f.opcode, f.key).Ok?
  {
  }

  /** Receiving from a calm socket that carries an encoded frame yields the frame and leaves the rest,
      for every chunking. */
  lemma {:induction false} ReceivedIsSent(
    f: Outgoing, rest: Bytes, limit: nat, r: Result<Frame, FrameError>, after: Bytes)
    requires f.Sendable(limit)
    requires Agrees(EncodeAll([f], limit) + rest, limit, r, after) && !(r.Err? && Interrupted(r.error))
    ensures r == Ok(Frame(f.opcode, f.payload)) && after == rest
  {
    hide Decode, EncodeClientFrame;
    SendableEncodes(f, limit);
    var bytes := EncodeClientFrame(f.payload, f.opcode, f.key).value;
    assert EncodeAll([f][1..], limit) == [];
    assert EncodeAll([f], limit) + rest == bytes + rest;
    EncodedDecodes(f.payload, f.opcode, f.key, rest, limit);
    assert (bytes + rest)[|bytes|..] == rest;
  }

  // ---- Lists of frames through the socket ----

  /** Receives `count` frames in a row.  On a calm socket the frames and the bytes left are those of the
      stream, and so is the error that stops the series. */
  method ReceiveFrames(socket: Socket, count: nat, limit: nat) returns (r: Result<seq<Frame>, FrameError>)
    modifies socket
    ensures r.Ok? ==> DecodeMany(old(socket.incoming), count, limit) == Ok((r.value, socket.incoming))
    ensures r.Err? && !Interrupted(r.error) ==> DecodeMany(old(socket.incoming), count, limit) == Err(r.error)
    ensures r.Err? && Interrupted(r.error) ==> !Calm(old(socket.schedule))
    ensures Calm(old(socket.schedule)) ==> Calm(socket.schedule)
  {
    hide Decode;
    var frames: seq<Frame> := [];
    NothingBefore(DecodeMany(socket.incoming, count, limit));
    while |frames| < count
      invariant |frames| <= count
      invariant DecodeMany(old(socket.incoming), count, limit)
             == Preceded(frames, DecodeMany(socket.incoming, count - |frames|, limit))
      invariant Calm(old(socket.schedule)) ==> Calm(socket.schedule)
      decreases count - |frames|
    {
      ghost var s := socket.incoming;
      var received := ReceiveFrame(socket, limit);
      if received.Err? {
        return Err(received.error);
      }
      OneMore(s, count - |frames|, limit, received.value, socket.incoming, frames);
      frames := frames + [received.value];
    }
    assert frames + [] == frames;
    return Ok(frames);
  }

  /** A reading with `frames` in front. */
  function Preceded(
    frames: seq<Frame>, r: Result<(seq<Frame>, Bytes), FrameError>): Result<(seq<Frame>, Bytes), FrameError>
  {
    if r.Err? then r else Ok((frames + r.value.0, r.value.1))
  }

  lemma NothingBefore(r: Result<(seq<Frame>, Bytes), FrameError>)
    ensures Preceded([], r) == r
  {
    if r.Ok? {
      assert [] + r.value.0 == r.value.0;
    }
  }

  lemma OneMore(
    s: Bytes, count: nat, limit: nat, frame: Frame, rest: Bytes, frames: seq<Frame>)
    requires count > 0 && Agrees(s, limit, Ok(frame), rest)
    ensures Preceded(frames, DecodeMany(s, count, limit))
         == Preceded(frames + [frame], DecodeMany(rest, count - 1, limit))
  {
    hide Decode;
    var later := DecodeMany(rest, count - 1, limit);
    if later.Ok? {
      assert frames + ([frame] + later.value.0) == frames + [frame] + later.value.0;
    }
  }

  /** Any list of sendable frames written to the peer's side of a calm socket is received as sent, and
      exactly its bytes are consumed, however `recv` cuts the stream. */
  method ReceiveSent(socket: Socket, ghost frames: seq<Outgoing>, ghost rest: Bytes, count: nat, limit: nat)
    returns (r: Result<seq<Frame>, FrameError>)
    requires forall i :: 0 <= i < |frames| ==> frames[i].Sendable(limit)
    requires count == |frames| && socket.incoming == EncodeAll(frames, limit) + rest && Calm(socket.schedule)
    modifies socket
    ensures r == Ok(FramesOf(frames)) && socket.incoming == rest
  {
    FramesRoundTrip(frames, rest, limit);
    r := ReceiveFrames(socket, count, limit);
  }

  // ---- Frames on the wire, byte by byte ----

  /** The `h` header bytes announce a payload of `n` bytes in one of the three length forms. */
  ghost predicate Announces(s: Bytes, h: nat, n: nat) {
    || (h == 2 && |s| >= 2 && s[1] % 128 == n < 126)
    || (h == 4 && |s| >= 4 && s[1] % 128 == 126 && BE(s[2..4]) == n)
    || (h == 10 && |s| >= 10 && s[1] % 128 == 127 && BE(s[2..10]) == n)
  }

  /** Payload byte `i` behind `h` header bytes: combined with the key byte `i % 4` when bit 7 of the second byte
      says that there is a key. */
  ghost predicate PayloadAt(s: Bytes, h: nat, payload: Bytes) {
    && h >= 2 && |s| >= 2
    && if s[1] >= 128 then
         && h + 4 + |payload| <= |s|
         && forall i :: 0 <= i < |payload| ==> payload[i] == Xor(s[h + 4 + i], s[h + i % 4])
       else
         && h + |payload| <= |s|
         && forall i :: 0 <= i < |payload| ==> payload[i] == s[h + i]
  }

  /** `s` begins with an unfragmented frame of `used` bytes. */
  ghost predicate FrameAt(s: Bytes, h: nat, frame: Frame, used: nat) {
    && |s| >= 2 && s[0] >= 128 && frame.opcode == s[0] % 16
    && Announces(s, h, |frame.payload|) && PayloadAt(s, h, frame.payload)
    && used == h + (if s[1] >= 128 then 4 else 0) + |frame.payload|
  }

  lemma HeaderAnnounces(s: Bytes, h: nat, n: nat)
    requires |s| >= 2 && s[0] >= 128
    ensures Announces(s, h, n) <==> ReadHeader(s) == Head(s[0] % 16, s[1] >= 128, n, h)
  {
    HeaderCases(s);
    hide BE, ReadHeader;
  }

  lemma MaskedAt(s: Bytes, h: nat, payload: Bytes)
    requires |s| >= 2 && h >= 2 && s[1] >= 128 && h + 4 + |payload| <= |s|
    ensures PayloadAt(s, h, payload) <==> payload == Masked(s[h + 4..h + 4 + |payload|], s[h..h + 4])
  {
    hide Xor;
    var unmasked := Masked(s[h + 4..h + 4 + |payload|], s[h..h + 4]);
    forall i | 0 <= i < |payload| ensures unmasked[i] == Xor(s[h + 4 + i], s[h + i % 4]) {
      assert s[h + 4..h + 4 + |payload|][i] == s[h + 4 + i] && s[h..h + 4][i % 4] == s[h + i % 4];
    }
  }

  lemma PlainAt(s: Bytes, h: nat, payload: Bytes)
    requires |s| >= 2 && h >= 2 && s[1] < 128 && h + |payload| <= |s|
    ensures PayloadAt(s, h, payload) <==> payload == s[h..h + |payload|]
  {
    hide Xor;
  }

  lemma BodyIff(s: Bytes, opcode: nat, h: nat, n: nat, frame: Frame, used: nat)
    requires |s| >= 2 && h >= 2
    ensures Body(s, opcode, s[1] >= 128, h, n) == Read(frame, used)
       <==> && frame.opcode == opcode && |frame.payload| == n && PayloadAt(s, h, frame.payload)
            && used == h + (if s[1] >= 128 then 4 else 0) + n
  {
    BodyCases(s, opcode, s[1] >= 128, h, n);
    hide Body, Masked;
    if |frame.payload| == n && s[1] >= 128 && h + 4 + n <= |s| {
      MaskedAt(s, h, frame.payload);
    } else if |frame.payload| == n && s[1] < 128 && h + n <= |s| {
      PlainAt(s, h, frame.payload);
    }
  }

  /** A frame is read exactly when the stream begins with its bytes and its payload is within the bound. */
  lemma DecodeIff(s: Bytes, limit: nat, frame: Frame, used: nat)
    ensures Decode(s, limit) == Read(frame, used)
       <==> |frame.payload| <= limit && exists h: nat :: FrameAt(s, h, frame, used)
  {
    hide Body, PayloadAt, Announces, BE, ReadHeader;
    HeaderCases(s);
    if |s| >= 2 && s[0] >= 128 {
      forall h: nat, n: nat ensures Announces(s, h, n) <==> ReadHeader(s) == Head(s[0] % 16, s[1] >= 128, n, h) {
        HeaderAnnounces(s, h, n);
      }
      if ReadHeader(s).Head? {
        HeadForm(s);
        var h, n := ReadHeader(s).at, ReadHeader(s).length;
        BodyIff(s, s[0] % 16, h, n, frame, used);
        assert Announces(s, h, n);
        assert Decode(s, limit) == Read(frame, used) ==> FrameAt(s, h, frame, used);
      }
    }
  }

  lemma HeadForm(s: Bytes)
    requires |s| >= 2 && s[0] >= 128 && ReadHeader(s).Head?
    ensures ReadHeader(s).at >= 2 && ReadHeader(s).opcode == s[0] % 16 && ReadHeader(s).masked == (s[1] >= 128)
  {
    hide BE;
  }

  /** What stops a stream: a fragment, a payload over the bound as soon as its length is known, or its end. */
  lemma DecodeFailsIff(s: Bytes, limit: nat)
    ensures Decode(s, limit) == Failed(Fragmented) <==> |s| >= 2 && s[0] < 128
    ensures Decode(s, limit) == Failed(TooLarge)
       <==> |s| >= 2 && s[0] >= 128 && exists h: nat, n: nat :: Announces(s, h, n) && n > limit
    ensures Decode(s, limit).Failed? ==> Decode(s, limit).error in {Fragmented, TooLarge, Closed}
  {
    hide PayloadAt, Announces, BE, ReadHeader, Masked;
    HeaderCases(s);
    if |s| >= 2 && s[0] >= 128 {
      forall h: nat, n: nat ensures Announces(s, h, n) <==> ReadHeader(s) == Head(s[0] % 16, s[1] >= 128, n, h) {
        HeaderAnnounces(s, h, n);
      }
      if ReadHeader(s).Head? {
        HeadForm(s);
        assert Announces(s, ReadHeader(s).at, ReadHeader(s).length);
      }
    }
  }

  /** Encoding is refused exactly for a key that is not four bytes, an opcode over a byte or a length over
      64 bits. */
  lemma EncodesIff(payload: Bytes, opcode: nat, key: Bytes)
    ensures var r := EncodeClientFrame(payload, opcode, key);
            && (r == Err(BadKey) <==> |key| != 4)
            && (r == Err(OpcodeTooWide) <==> |key| == 4 && opcode >= 256)
            && (r == Err(PayloadTooLong) <==> |key| == 4 && opcode < 256 && |payload| >= 0x1_0000_0000_0000_0000)
  {
    hide LengthBytes, Masked;
  }

  /** An encoded frame on the wire: the final-fragment bit over the opcode, the shortest length form with the
      mask bit, the key, and each payload byte combined with its key byte. */
  lemma EncodedLayout(payload: Bytes, opcode: nat, key: Bytes)
    requires EncodeClientFrame(payload, opcode, key).Ok?
    ensures var s, n := EncodeClientFrame(payload, opcode, key).value, |payload|;
            var h := if n < 126 then 2 else if n < 0x1_0000 then 4 else 10;
            && |s| == h + 4 + n && s[0] >= 128 && (s[0] == opcode || s[0] == opcode + 128) && s[1] >= 128
            && Announces(s, h, n) && s[h..h + 4] == key
            && forall i :: 0 <= i < n ==> s[h + 4 + i] == Xor(payload[i], key[i % 4])
  {
    hide *;
    EncodedParts(payload, opcode, key);
    var s, n := EncodeClientFrame(payload, opcode, key).value, |payload|;
    var first, header, masked := SetTop(opcode), LengthBytes(n), Masked(payload, key);
    HeaderLength(n);
    HeaderOfLength(s, first, n, key + masked);
    PartsAt(s, first, header, key, masked);
    HeaderAnnounces(s, 1 + |header|, n);
    MaskedBytes(payload, key);
  }

  lemma EncodedParts(payload: Bytes, opcode: nat, key: Bytes)
    requires EncodeClientFrame(payload, opcode, key).Ok?
    ensures |key| == 4 && |payload| < 0x1_0000_0000_0000_0000 && 128 <= SetTop(opcode) < 256
    ensures SetTop(opcode) == opcode || SetTop(opcode) == opcode + 128
    ensures EncodeClientFrame(payload, opcode, key).value
         == [SetTop(opcode)] + LengthBytes(|payload|) + (key + Masked(payload, key))
  {
    hide LengthBytes, Masked;
  }

  lemma HeaderLength(n: nat)
    requires n < 0x1_0000_0000_0000_0000
    ensures |LengthBytes(n)| == (if n < 126 then 1 else if n < 0x1_0000 then 3 else 9) && LengthBytes(n)[0] >= 128
  {
    hide BEBytes, Pow2;
    LengthForms(n);
  }

  lemma PartsAt(s: Bytes, first: Byte, header: Bytes, key: Bytes, masked: Bytes)
    requires |header| >= 1 && |key| == 4 && s == [first] + header + (key + masked)
    ensures var h := 1 + |header|;
            && |s| == h + 4 + |masked| && s[0] == first && s[1] == header[0] && s[h..h + 4] == key
            && forall i :: 0 <= i < |masked| ==> s[h + 4 + i] == masked[i]
  {
  }

  lemma MaskedBytes(payload: Bytes, key: Bytes)
    requires |key| == 4
    ensures forall i :: 0 <= i < |payload| ==> Masked(payload, key)[i] == Xor(payload[i], key[i % 4])
  {
    hide Xor;
  }
}
