/**
 Frames on the websocket (socket/framesocket.go): a three-byte length, then the payload. Messages may cut the stream
 anywhere; the code counts the length bytes as received payload, so it reassembles the frames exactly when no cut
 falls inside a payload.
 */
module FrameSockets {
  import opened Wrappers
  import opened Bytes

  const FRAME_MAX_SIZE := 0x100_0000
  const FRAME_LENGTH_SIZE := 3

  /** The receive fields of the socket. No partial header is the empty one. */
  datatype State = State(incoming: Option<Bytes>, incomingLength: nat, receivedLength: nat, partialHeader: Bytes)

  const IDLE := State(None, 0, 0, [])

  /** The state after some bytes, the frames they completed, and how many of those had been waiting for more payload.
      `Panic` is a slice out of range. */
  datatype Outcome = Next(state: State, frames: seq<Bytes>, resumed: nat) | Panic

  function FrameLength(m: Bytes): nat
    requires |m| >= FRAME_LENGTH_SIZE
  {
    (m[0] as int) * 0x1_0000 + (m[1] as int) * 0x100 + m[2]
  }

  function Zeros(n: nat): (b: Bytes)
    ensures |b| == n
  {
    seq(n, _ => 0)
  }

  function Then(frame: Bytes, resumed: nat, rest: Outcome): Outcome {
    if rest.Panic? then Panic else Next(rest.state, [frame] + rest.frames, resumed + rest.resumed)
  }

  /** `processData` on one message. */
  function Feed(s: State, msg: Bytes): Outcome
    decreases |s.partialHeader| + |msg|, if s.incoming.Some? then 1 else 0
  {
    if msg == [] then Next(s, [], 0)
    else
      var m := s.partialHeader + msg;
      match s.incoming
      case None =>
        if |m| < FRAME_LENGTH_SIZE then Next(s.(partialHeader := m), [], 0)
        else
          var length, data := FrameLength(m), m[FRAME_LENGTH_SIZE..];
          if |data| >= length then Then(data[..length], 0, Feed(IDLE, data[length..]))
          else Next(State(Some(data + Zeros(length - |data|)), length, |m|, []), [], 0)
      case Some(buffer) =>
        if s.receivedLength + |m| >= s.incomingLength then
          if s.receivedLength > s.incomingLength || s.receivedLength > |buffer| then Panic
          else
            var missing := s.incomingLength - s.receivedLength;
            Then(Overwrite(buffer, s.receivedLength, m[..missing]), 1, Feed(IDLE, m[missing..]))
        else
          if s.receivedLength > |buffer| then Panic
          else Next(State(Some(Overwrite(buffer, s.receivedLength, m)), s.incomingLength, s.receivedLength + |m|, []), [], 0)
  }

  /** Go's `copy(buffer[at:], data)`: as much of `data` as there is room for. */
  function Overwrite(buffer: Bytes, at: nat, data: Bytes): (b: Bytes)
    requires at <= |buffer|
    ensures |b| == |buffer|
  {
    if at + |data| >= |buffer| then buffer[..at] + data[..|buffer| - at]
    else buffer[..at] + data + buffer[at + |data|..]
  }

  /** One message after another. */
  function FeedAll(s: State, msgs: seq<Bytes>): Outcome
    decreases |msgs|
  {
    if msgs == [] then Next(s, [], 0)
    else match Feed(s, msgs[0])
      case Panic => Panic
      case Next(s', frames, resumed) =>
        match FeedAll(s', msgs[1..])
        case Panic => Panic
        case Next(s'', more, resumed') => Next(s'', frames + more, resumed + resumed')
  }

  // ---- The stream ----

  /** What `SendFrame` writes for a frame, without the connection header. */
  function EncodeFrame(f: Bytes): (b: Bytes)
    ensures |b| == FRAME_LENGTH_SIZE + |f|
  {
    [|f| / 0x1_0000 % 256, |f| / 0x100 % 256, |f| % 256] + f
  }

  function Wire(frames: seq<Bytes>): Bytes {
    if frames == [] then [] else EncodeFrame(frames[0]) + Wire(frames[1..])
  }

  function Joined(msgs: seq<Bytes>): Bytes {
    if msgs == [] then [] else msgs[0] + Joined(msgs[1..])
  }

  predicate Sendable(frames: seq<Bytes>) {
    forall f :: f in frames ==> |f| < FRAME_MAX_SIZE
  }

  /** The stream may be cut after `c` bytes: between frames or inside a length, but not after it. */
  predicate MayCut(frames: seq<Bytes>, c: nat) {
    if c < FRAME_LENGTH_SIZE then true
    else if frames == [] then false
    else if c < FRAME_LENGTH_SIZE + |frames[0]| then false
    else MayCut(frames[1..], c - FRAME_LENGTH_SIZE - |frames[0]|)
  }

  /** Every message ends where the stream may be cut; `before` bytes of the stream came before these messages. */
  predicate MayCutAll(frames: seq<Bytes>, before: nat, msgs: seq<Bytes>)
    decreases |msgs|
  {
    msgs == [] || (MayCut(frames, before + |msgs[0]|) && MayCutAll(frames, before + |msgs[0]|, msgs[1..]))
  }

  // ---- Bytes are conserved ----

  function Size(frames: seq<Bytes>): nat {
    if frames == [] then 0 else FRAME_LENGTH_SIZE + |frames[0]| + Size(frames[1..])
  }

  /** The bytes that the state accounts for. */
  function Held(s: State): nat {
    |s.partialHeader| + if s.incoming.Some? then s.receivedLength else 0
  }

  ghost predicate Consistent(s: State) {
    && (s.incoming.Some? ==> s.partialHeader == [] && |s.incoming.value| == s.incomingLength)
    && (s.incoming.None? ==> s.incomingLength == 0 && s.receivedLength == 0)
    && |s.partialHeader| < FRAME_LENGTH_SIZE
  }

  lemma {:induction false} SizeConcat(a: seq<Bytes>, b: seq<Bytes>)
    ensures Size(a + b) == Size(a) + Size(b)
  {
    if a == [] {
      assert a + b == b;
    } else {
      SizeConcat(a[1..], b);
      assert (a + b)[1..] == a[1..] + b;
    }
  }

  /** A frame that had to wait for payload uses up three bytes fewer than it takes on the wire. */
  lemma {:induction false} FeedConserves(s: State, msg: Bytes)
    requires Consistent(s)
    ensures var r := Feed(s, msg);
            r.Next? ==>
              && Consistent(r.state)
              && Held(s) + |msg| + FRAME_LENGTH_SIZE * r.resumed == Held(r.state) + Size(r.frames)
    ensures var r := Feed(s, msg);
            r.Next? && s.incoming.Some? && r.state.incoming.None? ==> r.resumed > 0
    decreases |s.partialHeader| + |msg|, if s.incoming.Some? then 1 else 0
  {
    if msg != [] {
      var m := s.partialHeader + msg;
      match s.incoming
      case None =>
        if |m| >= FRAME_LENGTH_SIZE && |m| - FRAME_LENGTH_SIZE >= FrameLength(m) {
          FeedConserves(IDLE, m[FRAME_LENGTH_SIZE..][FrameLength(m)..]);
        }
      case Some(buffer) =>
        if s.receivedLength + |m| >= s.incomingLength >= s.receivedLength {
          FeedConserves(IDLE, m[s.incomingLength - s.receivedLength..]);
        }
    }
  }

  lemma {:induction false} FeedAllConserves(s: State, msgs: seq<Bytes>)
    requires Consistent(s)
    ensures var r := FeedAll(s, msgs);
            r.Next? ==>
              && Consistent(r.state)
              && Held(s) + |Joined(msgs)| + FRAME_LENGTH_SIZE * r.resumed == Held(r.state) + Size(r.frames)
    ensures var r := FeedAll(s, msgs);
            r.Next? && s.incoming.Some? && r.state.incoming.None? ==> r.resumed > 0
    decreases |msgs|
  {
    hide Feed;
    if msgs != [] {
      FeedConserves(s, msgs[0]);
      var r := Feed(s, msgs[0]);
      if r.Next? {
        FeedAllConserves(r.state, msgs[1..]);
        var rest := FeedAll(r.state, msgs[1..]);
        if rest.Next? {
          SizeConcat(r.frames, rest.frames);
        }
      }
    }
  }

  lemma {:induction false} WireSize(frames: seq<Bytes>)
    ensures |Wire(frames)| == Size(frames)
  {
    if frames != [] {
      WireSize(frames[1..]);
    }
  }

  // ---- Feeding a stream ----

  function Waiting(header: Bytes): State {
    State(None, 0, 0, header)
  }

  lemma LengthRoundTrip(f: Bytes, rest: Bytes)
    requires |f| < FRAME_MAX_SIZE
    ensures FrameLength(EncodeFrame(f) + rest) == |f|
    ensures (EncodeFrame(f) + rest)[FRAME_LENGTH_SIZE..] == f + rest
  {
    assert |f| / 0x1_0000 == |f| / 0x100 / 0x100;
  }

  /** In front of the frame stand the three digits of its length in base 256, the highest first. */
  lemma FrameBytes(f: Bytes)
    requires |f| < FRAME_MAX_SIZE
    ensures var b := EncodeFrame(f);
            b[3..] == f && (b[0] as int) * 65536 + (b[1] as int) * 256 + b[2] == |f|
  {
    assert |f| / 0x1_0000 == |f| / 0x100 / 0x100;
  }

  /** Idle, with a whole frame at hand. */
  lemma FeedFrame(header: Bytes, msg: Bytes, f: Bytes, rest: Bytes)
    requires |header| < FRAME_LENGTH_SIZE && |f| < FRAME_MAX_SIZE
    requires header + msg == EncodeFrame(f) + rest
    ensures Feed(Waiting(header), msg) == Then(f, 0, Feed(IDLE, rest))
  {
    hide EncodeFrame;
    LengthRoundTrip(f, rest);
    assert (f + rest)[..|f|] == f && (f + rest)[|f|..] == rest;
  }

  /** Idle, with the length of a frame but not all of its payload. */
  lemma FeedPartOfFrame(header: Bytes, msg: Bytes, f: Bytes, part: nat)
    requires |header| < FRAME_LENGTH_SIZE && |f| < FRAME_MAX_SIZE && part < |f|
    requires header + msg == EncodeFrame(f)[..FRAME_LENGTH_SIZE + part]
    ensures Feed(Waiting(header), msg).Next? && Feed(Waiting(header), msg).state.incoming.Some?
  {
    LengthRoundTrip(f, []);
    assert EncodeFrame(f) + [] == EncodeFrame(f);
    var m := header + msg;
    assert m[0] == EncodeFrame(f)[0] && m[1] == EncodeFrame(f)[1] && m[2] == EncodeFrame(f)[2];
  }

  /** A message up to where the stream may be cut: the whole frames in it come out, and the rest is a header. */
  ghost predicate FeedsTo(header: Bytes, msg: Bytes, frames: seq<Bytes>, k: nat, rest: Bytes) {
    && k <= |frames| && |rest| < FRAME_LENGTH_SIZE
    && Feed(Waiting(header), msg) == Next(Waiting(rest), frames[..k], 0)
    && header + msg == Wire(frames[..k]) + rest
  }

  lemma {:induction false} WireSplit(a: seq<Bytes>, b: seq<Bytes>)
    ensures Wire(a + b) == Wire(a) + Wire(b)
  {
    hide EncodeFrame;
    if a == [] {
      assert a + b == b;
    } else {
      WireSplit(a[1..], b);
      assert (a + b)[1..] == a[1..] + b;
    }
  }

  lemma PrefixTail(a: Bytes, b: Bytes, p: Bytes)
    requires p <= a + b && |p| >= |a|
    ensures p == a + p[|a|..] && p[|a|..] <= b
  {
    assert p == (a + b)[..|p|];
  }

  lemma {:induction false} MayCutShift(frames: seq<Bytes>, k: nat, c: nat)
    requires k <= |frames|
    ensures MayCut(frames, |Wire(frames[..k])| + c) <==> MayCut(frames[k..], c)
    decreases k
  {
    hide EncodeFrame;
    if k == 0 {
      assert frames[..0] == [] && frames[0..] == frames;
    } else {
      MayCutShift(frames[1..], k - 1, c);
      assert frames[..k][1..] == frames[1..][..k - 1];
      assert frames[1..][k - 1..] == frames[k..];
    }
  }

  lemma {:induction false} FeedsFrames(header: Bytes, msg: Bytes, frames: seq<Bytes>) returns (k: nat, rest: Bytes)
    requires |header| < FRAME_LENGTH_SIZE && Sendable(frames)
    requires header + msg <= Wire(frames) && MayCut(frames, |header + msg|)
    ensures FeedsTo(header, msg, frames, k, rest)
    decreases |frames|
  {
    hide EncodeFrame, FeedsTo, Feed;
    var m := header + msg;
    if |m| < FRAME_LENGTH_SIZE {
      k, rest := 0, m;
      FeedsNothing(header, msg, frames);
    } else {
      PrefixTail(EncodeFrame(frames[0]), Wire(frames[1..]), m);
      var m' := m[|EncodeFrame(frames[0])|..];
      FeedFrame(header, msg, frames[0], m');
      assert [] + m' == m';
      k, rest := FeedsFrames([], m', frames[1..]);
      FeedsOneMore(header, msg, frames, k, rest, m');
      k := k + 1;
    }
  }

  lemma FeedsNothing(header: Bytes, msg: Bytes, frames: seq<Bytes>)
    requires |header + msg| < FRAME_LENGTH_SIZE
    ensures FeedsTo(header, msg, frames, 0, header + msg)
  {
    assert frames[..0] == [];
    assert Wire([]) + (header + msg) == header + msg;
    assert msg == [] ==> header + msg == header;
  }

  lemma FeedsOneMore(header: Bytes, msg: Bytes, frames: seq<Bytes>, k: nat, rest: Bytes, m: Bytes)
    requires frames != [] && FeedsTo([], m, frames[1..], k, rest)
    requires header + msg == EncodeFrame(frames[0]) + m
    requires Feed(Waiting(header), msg) == Then(frames[0], 0, Feed(IDLE, m))
    ensures FeedsTo(header, msg, frames, k + 1, rest)
  {
    hide Feed, EncodeFrame;
    assert frames[..k + 1] == [frames[0]] + frames[1..][..k];
    assert frames[..k + 1][1..] == frames[1..][..k];
    assert [] + m == m;
    var first, more := EncodeFrame(frames[0]), Wire(frames[1..][..k]);
    assert first + (more + rest) == first + more + rest;
  }

  /** A message that ends inside a payload leaves the frame waiting. */
  lemma {:induction false} FeedsIntoPayload(header: Bytes, msg: Bytes, frames: seq<Bytes>)
    requires |header| < FRAME_LENGTH_SIZE && Sendable(frames)
    requires header + msg <= Wire(frames) && !MayCut(frames, |header + msg|)
    ensures Feed(Waiting(header), msg).Next? && Feed(Waiting(header), msg).state.incoming.Some?
    decreases |frames|
  {
    hide Feed, EncodeFrame;
    var m := header + msg;
    var f := frames[0];
    if |m| < FRAME_LENGTH_SIZE + |f| {
      var part := |m| - FRAME_LENGTH_SIZE;
      assert m == (EncodeFrame(f) + Wire(frames[1..]))[..|m|] == EncodeFrame(f)[..FRAME_LENGTH_SIZE + part];
      FeedPartOfFrame(header, msg, f, part);
    } else {
      PrefixTail(EncodeFrame(f), Wire(frames[1..]), m);
      var m' := m[|EncodeFrame(f)|..];
      FeedFrame(header, msg, f, m');
      assert [] + m' == m';
      FeedsIntoPayload([], m', frames[1..]);
    }
  }

  /** The messages carry the rest of the stream after a partial header. */
  ghost predicate Carries(header: Bytes, msgs: seq<Bytes>, frames: seq<Bytes>) {
    |header| < FRAME_LENGTH_SIZE && Sendable(frames) && header + Joined(msgs) == Wire(frames)
  }

  lemma CarriesOn(header: Bytes, msgs: seq<Bytes>, frames: seq<Bytes>, k: nat, rest: Bytes)
    requires msgs != [] && Carries(header, msgs, frames) && FeedsTo(header, msgs[0], frames, k, rest)
    ensures Carries(rest, msgs[1..], frames[k..])
    ensures MayCutAll(frames, |header + msgs[0]|, msgs[1..]) <==> MayCutAll(frames[k..], |rest|, msgs[1..])
  {
    hide Feed, Wire, MayCutAll;
    assert frames == frames[..k] + frames[k..];
    WireSplit(frames[..k], frames[k..]);
    var done := Wire(frames[..k]);
    Regroup(header, msgs[0], Joined(msgs[1..]));
    Regroup(done, rest, Joined(msgs[1..]));
    Cancel(done, rest + Joined(msgs[1..]), Wire(frames[k..]));
    MayCutAllShift(frames, k, |rest|, msgs[1..]);
  }

  lemma Regroup(a: Bytes, b: Bytes, c: Bytes)
    ensures a + b + c == a + (b + c)
  {
  }

  lemma Cancel(a: Bytes, b: Bytes, c: Bytes)
    requires a + b == a + c
    ensures b == c
  {
    assert (a + b)[|a|..] == b && (a + c)[|a|..] == c;
  }

  lemma {:induction false} MayCutAllShift(frames: seq<Bytes>, k: nat, before: nat, msgs: seq<Bytes>)
    requires k <= |frames|
    ensures MayCutAll(frames, |Wire(frames[..k])| + before, msgs) <==> MayCutAll(frames[k..], before, msgs)
    decreases |msgs|
  {
    if msgs != [] {
      MayCutShift(frames, k, before + |msgs[0]|);
      MayCutAllShift(frames, k, before + |msgs[0]|, msgs[1..]);
    }
  }

  /** When every message ends where the stream may be cut, exactly the frames come out, in order, and nothing pends. */
  lemma {:induction false} Reassembles(header: Bytes, msgs: seq<Bytes>, frames: seq<Bytes>)
    requires Carries(header, msgs, frames) && MayCutAll(frames, |header|, msgs)
    ensures FeedAll(Waiting(header), msgs) == Next(IDLE, frames, 0)
    decreases |msgs|
  {
    if msgs == [] {
      assert header + [] == header;
    } else {
      hide Feed, Wire;
      JoinedPrefix(header, msgs, frames);
      var k, rest := FeedsFrames(header, msgs[0], frames);
      CarriesOn(header, msgs, frames, k, rest);
      Reassembles(rest, msgs[1..], frames[k..]);
      assert frames[..k] + frames[k..] == frames;
    }
  }

  lemma JoinedPrefix(header: Bytes, msgs: seq<Bytes>, frames: seq<Bytes>)
    requires msgs != [] && Carries(header, msgs, frames)
    ensures header + msgs[0] <= Wire(frames) && |header + msgs[0]| == |header| + |msgs[0]|
  {
    assert header + msgs[0] + Joined(msgs[1..]) == header + Joined(msgs);
  }

  /** A run in which no frame ever had to wait was cut only where the stream may be cut. */
  lemma {:induction false} NoWaitNoCut(header: Bytes, msgs: seq<Bytes>, frames: seq<Bytes>)
    requires Carries(header, msgs, frames)
    requires FeedAll(Waiting(header), msgs).Next?
    requires FeedAll(Waiting(header), msgs).state == IDLE && FeedAll(Waiting(header), msgs).resumed == 0
    ensures MayCutAll(frames, |header|, msgs)
    decreases |msgs|
  {
    if msgs != [] {
      hide Feed, Wire;
      JoinedPrefix(header, msgs, frames);
      var r := Feed(Waiting(header), msgs[0]);
      if MayCut(frames, |header + msgs[0]|) {
        var k, rest := FeedsFrames(header, msgs[0], frames);
        CarriesOn(header, msgs, frames, k, rest);
        NoWaitNoCut(rest, msgs[1..], frames[k..]);
      } else {
        FeedsIntoPayload(header, msgs[0], frames);
        FeedConserves(Waiting(header), msgs[0]);
        FeedAllConserves(r.state, msgs[1..]);
        assert false;
      }
    }
  }

  /** The socket gives back exactly the frames that were sent, in order and with nothing pending, exactly when no
      message ends inside a payload, the point right after a length included. */
  lemma ReassemblesIff(msgs: seq<Bytes>, frames: seq<Bytes>)
    requires Sendable(frames) && Joined(msgs) == Wire(frames)
    ensures (exists resumed :: FeedAll(IDLE, msgs) == Next(IDLE, frames, resumed)) <==> MayCutAll(frames, 0, msgs)
  {
    hide FeedAll, Wire, Joined;
    assert [] + Joined(msgs) == Joined(msgs);
    if MayCutAll(frames, 0, msgs) {
      Reassembles([], msgs, frames);
    }
    var r := FeedAll(IDLE, msgs);
    if r.Next? && r.state == IDLE && r.frames == frames {
      FeedAllConserves(IDLE, msgs);
      WireSize(frames);
      NoWaitNoCut([], msgs, frames);
    }
  }

  /** For example: a one-byte frame whose message is cut right after the length makes the next message panic. */
  lemma CutAfterLength(b: Byte)
    ensures FeedAll(IDLE, [[0, 0, 1], [b]]) == Panic
    ensures Joined([[0, 0, 1], [b]]) == Wire([[b]])
    ensures !MayCutAll([[b]], 0, [[0, 0, 1], [b]])
  {
    var first: Bytes, second: Bytes := [0, 0, 1], [b];
    assert [first, second][1..] == [second] && [second][1..] == [];
    assert IDLE.partialHeader + first == first;
    var waiting := Feed(IDLE, first).state;
    assert waiting.receivedLength == 3 && waiting.incomingLength == 1;
    assert Feed(waiting, second) == Panic;
    assert [[b]][1..] == [];
    assert Wire([[b]]) == EncodeFrame([b]) + Wire([]);
    assert Joined([second]) == second + Joined([]);
    assert Joined([first, second]) == first + Joined([second]);
  }

  /** What waits after the length of a frame and `part` bytes of it: the rest of the buffer is still zero. */
  function CutState(f: Bytes, part: nat): State
    requires part < |f|
  {
    State(Some(f[..part] + Zeros(|f| - part)), |f|, 3 + part, [])
  }

  /** A frame cut inside its payload waits, with the three bytes of the length counted as received. */
  lemma {:induction false} CutInPayload(f: Bytes, part: nat, msg: Bytes)
    requires part < |f| < FRAME_MAX_SIZE
    ensures FeedAll(IDLE, [EncodeFrame(f)[..3 + part], msg]) == Feed(CutState(f, part), msg)
  {
    hide EncodeFrame, Feed, CutState;
    FeedFirstPart(f, part);
    var first := EncodeFrame(f)[..3 + part];
    assert [first, msg][1..] == [msg] && [msg][1..] == [];
    OnlyOne(CutState(f, part), msg);
    match Feed(CutState(f, part), msg)
    case Panic =>
    case Next(_, frames, _) => assert [] + frames == frames;
  }

  /** So the next message overwrites it three bytes too late: zeros stand in the place of three bytes of the payload, the
      last three bytes of the payload are taken for the next frame's, and with fewer than three missing it panics. */
  lemma {:induction false} ResumedFrame(f: Bytes, part: nat, msg: Bytes)
    requires part < |f| && msg != []
    ensures var r, cut := Feed(CutState(f, part), msg), |f| - part - 3;
            if cut < 0 then r == Panic
            else if |msg| < cut then
              r == Next(State(Some(f[..part] + [0, 0, 0] + msg + Zeros(cut - |msg|)), |f|, 3 + part + |msg|, []), [], 0)
            else r == Then(f[..part] + [0, 0, 0] + msg[..cut], 1, Feed(IDLE, msg[cut..]))
  {
    hide Feed;
    var rest, cut := Zeros(|f| - part), |f| - part - 3;
    FeedUnfolds(CutState(f, part), msg);
    assert [] + msg == msg;
    if cut >= 0 {
      assert f[..part] + rest == f[..part] + [0, 0, 0] + Zeros(cut);
      if |msg| < cut {
        assert Overwrite(f[..part] + rest, 3 + part, msg) == f[..part] + [0, 0, 0] + msg + Zeros(cut - |msg|);
      } else {
        assert Overwrite(f[..part] + rest, 3 + part, msg[..cut]) == f[..part] + [0, 0, 0] + msg[..cut];
      }
    }
  }

  lemma FeedFirstPart(f: Bytes, part: nat)
    requires part < |f| < FRAME_MAX_SIZE
    ensures Feed(IDLE, EncodeFrame(f)[..3 + part]) == Next(CutState(f, part), [], 0)
  {
    hide EncodeFrame;
    LengthRoundTrip(f, []);
    assert EncodeFrame(f) + [] == EncodeFrame(f) && f + [] == f;
    var first := EncodeFrame(f)[..3 + part];
    assert FrameLength(first) == |f|;
    assert first[3..] == f[..part];
    assert [] + first == first;
  }

  lemma OnlyOne(s: State, msg: Bytes)
    ensures FeedAll(s, [msg]) == Feed(s, msg)
  {
    hide Feed;
    assert [msg][1..] == [];
    match Feed(s, msg)
    case Panic =>
    case Next(s', frames, resumed) => assert FeedAll(s', []) == Next(s', [], 0) && frames + [] == frames;
  }

  // ---- The socket ----

  class FrameSocket {
    var header: Bytes
    var incoming: array?<Byte>
    var incomingLength: nat
    var receivedLength: nat
    var partialHeader: Bytes
    /** Everything sent into the channel of frames. */
    ghost var frames: seq<Bytes>

    constructor (header: Bytes)
      ensures Current() == IDLE && this.header == header && frames == []
    {
      this.header := header;
      incoming := null;
      incomingLength, receivedLength, partialHeader := 0, 0, [];
      frames := [];
    }

    function Current(): State
      reads this, incoming
    {
      State(if incoming == null then None else Some(incoming[..]), incomingLength, receivedLength, partialHeader)
    }

    /** `SendFrame`, up to the write: the connection header goes out once, in front of the first frame. */
    method SendFrame(data: Bytes) returns (wholeFrame: Option<Bytes>)
      modifies this`header
      ensures wholeFrame == if |data| >= FRAME_MAX_SIZE then None else Some(old(header) + EncodeFrame(data))
      ensures header == if |data| >= FRAME_MAX_SIZE then old(header) else []
      ensures wholeFrame.None? <==> |data| >= 0x100_0000
    {
      if |data| >= FRAME_MAX_SIZE {
        return None;
      }
      var whole := header;
      header := [];
      whole := whole + [|data| / 0x1_0000 % 256, |data| / 0x100 % 256, |data| % 256];
      whole := whole + data;
      assert whole == old(header) + EncodeFrame(data);
      wholeFrame := Some(whole);
    }

    method FrameComplete(data: Bytes)
      modifies this
      ensures Current() == IDLE && frames == old(frames) + [data] && header == old(header) && incoming == null
    {
      incoming := null;
      partialHeader := [];
      incomingLength := 0;
      receivedLength := 0;
      frames := frames + [data];
    }

    /** Go's `copy` into the buffer of the frame being received. */
    method CopyIncoming(at: nat, data: Bytes)
      requires incoming != null && at <= incoming.Length
      modifies incoming
      ensures incoming[..] == Overwrite(old(incoming[..]), at, data)
    {
      var i := 0;
      while i < |data| && at + i < incoming.Length
        invariant 0 <= i <= |data| && at + i <= incoming.Length
        invariant incoming[..] == old(incoming[..at]) + data[..i] + old(incoming[at + i..])
      {
        incoming[at + i] := data[i];
        i := i + 1;
      }
      assert data[..|data|] == data;
    }

    /** Processes one message; false is a panic. */
    method ProcessData(message: Bytes) returns (ok: bool)
      modifies this, incoming
      ensures match Feed(old(Current()), message)
        case Panic => !ok
        case Next(state, done, _) => ok && Current() == state && frames == old(frames) + done
      ensures header == old(header)
    {
      hide EncodeFrame, Feed, Overwrite, Prepend, Then;
      var msg := message;
      PrependNothing(Feed(Current(), msg));
      assert frames + [] == frames;
      ghost var done: seq<Bytes> := [];
      ghost var resumed := 0;
      while |msg| > 0
        invariant incoming == old(incoming) || incoming == null || fresh(incoming)
        invariant header == old(header) && frames == old(frames) + done
        invariant Prepend(done, resumed, Feed(Current(), msg)) == Feed(old(Current()), message)
        decreases |partialHeader| + |msg|, if incoming == null then 0 else 1, |msg|
      {
        FeedUnfolds(Current(), msg);
        msg := partialHeader + msg;
        partialHeader := [];
        if incoming == null {
          if |msg| >= FRAME_LENGTH_SIZE {
            var length := (msg[0] as int) * 0x1_0000 + (msg[1] as int) * 0x100 + msg[2];
            incomingLength := length;
            receivedLength := |msg|;
            msg := msg[FRAME_LENGTH_SIZE..];
            if |msg| >= length {
              var frame := msg[..length];
              msg := msg[length..];
              FrameComplete(frame);
              PrependThen(done, resumed, frame, 0, Feed(IDLE, msg));
              done := done + [frame];
            } else {
              incoming := new Byte[length](_ => 0);
              assert incoming[..] == Zeros(length);
              CopyIncoming(0, msg);
              OverwriteStart(length, msg);
              msg := [];
            }
          } else {
            partialHeader := msg;
            msg := [];
          }
        } else {
          if receivedLength + |msg| >= incomingLength {
            if receivedLength > incomingLength || receivedLength > incoming.Length {
              PrependEnd(done, resumed, Current());
              return false;
            }
            CopyIncoming(receivedLength, msg[..incomingLength - receivedLength]);
            msg := msg[incomingLength - receivedLength..];
            var frame := incoming[..];
            FrameComplete(frame);
            PrependThen(done, resumed, frame, 1, Feed(IDLE, msg));
            done, resumed := done + [frame], resumed + 1;
          } else {
            if receivedLength > incoming.Length {
              PrependEnd(done, resumed, Current());
              return false;
            }
            CopyIncoming(receivedLength, msg);
            receivedLength := receivedLength + |msg|;
            msg := [];
          }
        }
        FeedNothing(Current());
      }
      FeedNothing(Current());
      PrependEnd(done, resumed, Current());
      ok := true;
    }
  }

  lemma OverwriteStart(length: nat, data: Bytes)
    requires |data| < length
    ensures Overwrite(Zeros(length), 0, data) == data + Zeros(length - |data|)
  {
  }

  lemma FeedNothing(s: State)
    ensures Feed(s, []) == Next(s, [], 0)
  {
  }

  lemma FeedUnfolds(s: State, msg: Bytes)
    requires msg != []
    ensures var m := s.partialHeader + msg;
            s.incoming.None? ==>
              Feed(s, msg)
              == if |m| < FRAME_LENGTH_SIZE then Next(s.(partialHeader := m), [], 0)
                 else
                   var length, data := FrameLength(m), m[FRAME_LENGTH_SIZE..];
                   if |data| >= length then Then(data[..length], 0, Feed(IDLE, data[length..]))
                   else Next(State(Some(data + Zeros(length - |data|)), length, |m|, []), [], 0)
    ensures var m := s.partialHeader + msg;
            s.incoming.Some? ==>
              Feed(s, msg)
              == if s.receivedLength + |m| >= s.incomingLength then
                   if s.receivedLength > s.incomingLength || s.receivedLength > |s.incoming.value| then Panic
                   else
                     var missing := s.incomingLength - s.receivedLength;
                     Then(Overwrite(s.incoming.value, s.receivedLength, m[..missing]), 1, Feed(IDLE, m[missing..]))
                 else if s.receivedLength > |s.incoming.value| then Panic
                 else Next(State(Some(Overwrite(s.incoming.value, s.receivedLength, m)), s.incomingLength,
                                 s.receivedLength + |m|, []), [], 0)
  {
  }

  ghost function Prepend(done: seq<Bytes>, resumed: nat, rest: Outcome): Outcome {
    if rest.Panic? then Panic else Next(rest.state, done + rest.frames, resumed + rest.resumed)
  }

  lemma PrependNothing(r: Outcome)
    ensures Prepend([], 0, r) == r
  {
    if r.Next? {
      assert [] + r.frames == r.frames;
    }
  }

  lemma PrependEnd(done: seq<Bytes>, resumed: nat, s: State)
    ensures Prepend(done, resumed, Next(s, [], 0)) == Next(s, done, resumed) && Prepend(done, resumed, Panic) == Panic
  {
    assert done + [] == done;
  }

  lemma PrependThen(done: seq<Bytes>, resumed: nat, frame: Bytes, one: nat, rest: Outcome)
    ensures Prepend(done, resumed, Then(frame, one, rest)) == Prepend(done + [frame], resumed + one, rest)
  {
    if rest.Next? {
      assert done + ([frame] + rest.frames) == done + [frame] + rest.frames;
    }
  }
}
