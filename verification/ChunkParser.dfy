/**
  What `RtmpContext::ParseMessage` computes, as functions of the bytes and of the history the
  receiver keeps per chunk stream id.

  The source keeps four maps keyed by chunk stream id (message headers, open packets, deltas and the
  extended-timestamp flags). A `Lane` is one key's worth of the four. An absent key and a lane at its
  initial value are indistinguishable to the source.
 */
module ChunkParser {
  import opened Bytes
  import opened ChunkFormat
  import opened Sequences
  import opened Wrappers

  /** An open packet: its header so far, the room it was allocated with, the bytes it holds. */
  datatype Partial = Partial(header: Header, capacity: int, data: seq<byte>)

  datatype Lane = Lane(prev: Header, partial: Option<Partial>, delta: uint32, ext: bool)

  const FRESH_LANE := Lane(NO_HEADER, None, 0, false)

  datatype InState = InState(lanes: map<uint32, Lane>, chunkSize: int)

  function LaneOf(lanes: map<uint32, Lane>, csid: uint32): Lane {
    if csid in lanes then lanes[csid] else FRESH_LANE
  }

  // ---------------------------------------------------------------------------------------------
  // One chunk
  // ---------------------------------------------------------------------------------------------

  datatype Basic = Cut | Basic(fmt: Fmt, csid: uint32, length: nat)

  function ParseBasic(s: seq<byte>): (b: Basic)
    requires |s| >= 1
    ensures b.Basic? ==> 1 <= b.length <= |s|
  {
    var fmt := s[0] / 64;
    var low := s[0] % 64;
    if low == 0 then
      if |s| < 2 then Cut else Basic(fmt, 64 + s[1] as int, 2)
    else if low == 1 then
      if |s| < 3 then Cut else Basic(fmt, 64 + s[1] as int + s[2] as int * 0x100, 3)
    else
      Basic(fmt, low, 1)
  }

  /** The outcome of one attempt to take a chunk off the front of the input. */
  datatype Step =
    | Short                                               // too few bytes to touch any history
    | Stalled(lane: Lane)                                 // history touched, bytes still missing
    | Taken(lane: Lane, used: nat, done: Option<Message>) // chunk consumed

  /** The packet the chunk goes to: the open one, or one newly allocated. */
  function OpenPacket(lane: Lane, csid: uint32, fmt: Fmt, k: int, t: seq<byte>): Partial
    requires |t| >= HeaderLength(fmt)
  {
    match lane.partial
    case Some(p) => p
    case None =>
      var length: int :=
        if fmt <= 1 then Read24(t[3..]) else if lane.prev.msgLen == 0 then k else lane.prev.msgLen;
      Partial(Header(csid, 0, length % TWO32, 0, 0), length, [])
  }

  /** The packet's header after the message header at the front of `t`, and the new delta. */
  function ReadHeader(lane: Lane, open: Header, fmt: Fmt, t: seq<byte>): (Header, uint32)
    requires |t| >= HeaderLength(fmt)
  {
    var prev := lane.prev;
    if fmt == 0 then
      (Header(open.csid, Read24(t), Read24(t[3..]), t[6], Load32(t[7..])), 0)
    else if fmt == 1 then
      (Header(open.csid, (Read24(t) as int + prev.timestamp) % TWO32, Read24(t[3..]), t[6], prev.msgSid), Read24(t))
    else if fmt == 2 then
      var ts := (Read24(t) as int + prev.timestamp) % TWO32;
      (Header(open.csid, ts, prev.msgLen, prev.msgType, prev.msgSid), Read24(t))
    else
      var ts := if open.timestamp == 0 then (lane.delta as int + prev.timestamp) % TWO32 else open.timestamp;
      (Header(open.csid, ts, prev.msgLen, prev.msgType, prev.msgSid), lane.delta)
  }

  function MessageOf(p: Partial): Message {
    Message(p.header.csid, p.header.msgType, p.header.msgSid, p.header.timestamp, p.data)
  }

  /** Copies this chunk's share of the body, which starts at `t[n]`. */
  function TakeBody(lane: Lane, p: Partial, k: int, t: seq<byte>, n: nat): (step: Step)
    requires n <= |t|
    ensures step.Taken? ==> n <= step.used <= |t|
  {
    var size := Min(p.capacity - |p.data|, k);
    if size < 0 || |t| - n < size then
      Stalled(lane.(partial := Some(p)))
    else
      var q := p.(data := p.data + t[n..n + size]);
      if q.capacity == |q.data| then
        Taken(Lane(p.header, None, lane.delta, lane.ext), n + size, Some(MessageOf(q)))
      else
        Taken(Lane(p.header, Some(q), lane.delta, lane.ext), n + size, None)
  }

  function StepLane(lane: Lane, csid: uint32, fmt: Fmt, k: int, t: seq<byte>): (step: Step)
    ensures step.Taken? ==> step.used <= |t|
  {
    if |t| == 0 || |t| < HeaderLength(fmt) then
      Short
    else
      var open := OpenPacket(lane, csid, fmt, k, t);
      var (h, delta) := ReadHeader(lane, open.header, fmt, t);
      var n := HeaderLength(fmt);
      var ext := if fmt == 3 then lane.ext else Read24(t) == EXTENDED;
      if !ext then
        TakeBody(Lane(lane.prev, None, delta, false), open.(header := h), k, t, n)
      else if |t| - n < 4 then
        Stalled(Lane(lane.prev, Some(open.(header := h)), delta, true))
      else if fmt == 0 then
        TakeBody(Lane(lane.prev, None, delta, true), open.(header := h), k, t, n + 4)
      else
        var ts := Read32(t[n..]);
        var h' := h.(timestamp := (ts as int + lane.prev.timestamp) % TWO32);
        TakeBody(Lane(lane.prev, None, ts, true), open.(header := h'), k, t, n + 4)
  }

  datatype Chunk =
    | Wait(st: InState)
    | Next(st: InState, used: nat, done: Option<Message>)

  /** The step when no extended timestamp is in play. */
  lemma StepPlain(l: Lane, csid: uint32, fmt: Fmt, k: int, t: seq<byte>, p: Partial, h: Header, d: uint32)
    requires |t| > 0 && |t| >= HeaderLength(fmt)
    requires if fmt == 3 then !l.ext else Read24(t) != EXTENDED
    requires OpenPacket(l, csid, fmt, k, t) == p && ReadHeader(l, p.header, fmt, t) == (h, d)
    ensures
      StepLane(l, csid, fmt, k, t) == TakeBody(Lane(l.prev, None, d, false), p.(header := h), k, t, HeaderLength(fmt))
  {
    hide OpenPacket, ReadHeader, TakeBody, Read24, Read32;
  }

  /** The step when an extended timestamp follows the message header. */
  lemma StepExtended(l: Lane, csid: uint32, fmt: Fmt, k: int, t: seq<byte>, p: Partial, h: Header, d: uint32)
    requires |t| >= HeaderLength(fmt) + 4
    requires if fmt == 3 then l.ext else Read24(t) == EXTENDED
    requires OpenPacket(l, csid, fmt, k, t) == p && ReadHeader(l, p.header, fmt, t) == (h, d)
    ensures
      var n := HeaderLength(fmt);
      var ts := Read32(t[n..]);
      StepLane(l, csid, fmt, k, t) ==
      if fmt == 0
      then TakeBody(Lane(l.prev, None, d, true), p.(header := h), k, t, n + 4)
      else TakeBody(Lane(l.prev, None, ts, true),
                    p.(header := h.(timestamp := (ts as int + l.prev.timestamp) % TWO32)), k, t, n + 4)
  {
    hide OpenPacket, ReadHeader, TakeBody, Read24, Read32;
  }

  /** The step when the extended timestamp has not arrived yet. */
  lemma StepCutShort(l: Lane, csid: uint32, fmt: Fmt, k: int, t: seq<byte>, p: Partial, h: Header, d: uint32)
    requires |t| > 0 && HeaderLength(fmt) <= |t| < HeaderLength(fmt) + 4
    requires if fmt == 3 then l.ext else Read24(t) == EXTENDED
    requires OpenPacket(l, csid, fmt, k, t) == p && ReadHeader(l, p.header, fmt, t) == (h, d)
    ensures StepLane(l, csid, fmt, k, t) == Stalled(Lane(l.prev, Some(p.(header := h)), d, true))
  {
    hide OpenPacket, ReadHeader, TakeBody, Read24, Read32;
  }

  /** The receiver after a step on stream id `csid`, whose basic header took `n` bytes. */
  function Apply(st: InState, csid: uint32, n: nat, step: Step): Chunk {
    match step
    case Short => Wait(st)
    case Stalled(lane) => Wait(st.(lanes := st.lanes[csid := lane]))
    case Taken(lane, used, done) =>
      var k := if done.Some? then ChunkSizeAfter(st.chunkSize, done.value) else st.chunkSize;
      Next(InState(st.lanes[csid := lane], k), n + used, done)
  }

  /** One turn of the parsing loop. */
  function ParseChunk(st: InState, s: seq<byte>): (c: Chunk)
    requires |s| > 1
    ensures c.Next? ==> 1 <= c.used <= |s|
  {
    match ParseBasic(s)
    case Cut => Wait(st)
    case Basic(fmt, csid, n) =>
      Apply(st, csid, n, StepLane(LaneOf(st.lanes, csid), csid, fmt, st.chunkSize, s[n..]))
  }

  // ---------------------------------------------------------------------------------------------
  // The loop, and feeding it piece by piece
  // ---------------------------------------------------------------------------------------------

  /** What one call leaves behind: the history, the unconsumed bytes, the messages completed. */
  datatype Outcome = Outcome(st: InState, rest: seq<byte>, msgs: seq<Message>)

  function Cons(m: Option<Message>, o: Outcome): Outcome {
    if m.Some? then o.(msgs := [m.value] + o.msgs) else o
  }

  function ParseAll(st: InState, s: seq<byte>): Outcome
    decreases |s|
  {
    if |s| <= 1 then
      Outcome(st, s, [])
    else
      match ParseChunk(st, s)
      case Wait(st') => Outcome(st', s, [])
      case Next(st', used, done) => Cons(done, ParseAll(st', s[used..]))
  }

  /** A call on the bytes left over by `o` followed by the newly received bytes. */
  function Continue(o: Outcome, received: seq<byte>): Outcome {
    var next := ParseAll(o.st, o.rest + received);
    next.(msgs := o.msgs + next.msgs)
  }

  /** The calls made as the network delivers `pieces`, one call per piece. */
  function FeedAll(o: Outcome, pieces: seq<seq<byte>>): Outcome
    decreases |pieces|
  {
    if |pieces| == 0 then o else FeedAll(Continue(o, pieces[0]), pieces[1..])
  }

  // ---------------------------------------------------------------------------------------------
  // Fragmentation invariance
  // ---------------------------------------------------------------------------------------------

  lemma TakeBodyExtends(lane: Lane, p: Partial, k: int, t: seq<byte>, n: nat, u: seq<byte>)
    requires n <= |t|
    ensures TakeBody(lane, p, k, t, n).Taken? ==> TakeBody(lane, p, k, t + u, n) == TakeBody(lane, p, k, t, n)
  {
    var size := Min(p.capacity - |p.data|, k);
    if 0 <= size <= |t| - n {
      assert (t + u)[n..n + size] == t[n..n + size];
    }
  }

  lemma HeadersExtend(lane: Lane, csid: uint32, fmt: Fmt, k: int, t: seq<byte>, u: seq<byte>, open: Header)
    requires |t| >= HeaderLength(fmt)
    ensures OpenPacket(lane, csid, fmt, k, t + u) == OpenPacket(lane, csid, fmt, k, t)
    ensures ReadHeader(lane, open, fmt, t + u) == ReadHeader(lane, open, fmt, t)
  {
  }

  lemma Read32Extends(t: seq<byte>, u: seq<byte>)
    requires |t| >= 4
    ensures Read32(t + u) == Read32(t)
  {
  }

  /** A chunk that was taken is taken alike whatever follows it. */
  lemma TakenExtends(lane: Lane, csid: uint32, fmt: Fmt, k: int, t: seq<byte>, u: seq<byte>)
    requires StepLane(lane, csid, fmt, k, t).Taken?
    ensures StepLane(lane, csid, fmt, k, t + u) == StepLane(lane, csid, fmt, k, t)
  {
    var open := OpenPacket(lane, csid, fmt, k, t);
    HeadersExtend(lane, csid, fmt, k, t, u, open.header);
    var (h, delta) := ReadHeader(lane, open.header, fmt, t);
    var n := HeaderLength(fmt);
    var ext := if fmt == 3 then lane.ext else Read24(t) == EXTENDED;
    if !ext {
      TakeBodyExtends(Lane(lane.prev, None, delta, false), open.(header := h), k, t, n, u);
    } else if fmt == 0 {
      TakeBodyExtends(Lane(lane.prev, None, delta, true), open.(header := h), k, t, n + 4, u);
    } else {
      var ts := Read32(t[n..]);
      assert Read32((t + u)[n..]) == ts;
      var h' := h.(timestamp := (ts as int + lane.prev.timestamp) % TWO32);
      TakeBodyExtends(Lane(lane.prev, None, ts, true), open.(header := h'), k, t, n + 4, u);
    }
  }

  lemma StalledFullIsIdempotent(lane: Lane, csid: uint32, fmt: Fmt, k: int, t: seq<byte>, u: seq<byte>)
    requires fmt != 3 && StepLane(lane, csid, fmt, k, t).Stalled?
    ensures StepLane(StepLane(lane, csid, fmt, k, t).lane, csid, fmt, k, t + u) == StepLane(lane, csid, fmt, k, t + u)
  {
    hide Read24, Read32, Load32;
    var again := StepLane(lane, csid, fmt, k, t).lane;
    var open := OpenPacket(lane, csid, fmt, k, t);
    HeadersExtend(lane, csid, fmt, k, t, u, open.header);
    var n := HeaderLength(fmt);
    if |t| - n >= 4 {
      Read32Extends(t[n..], u);
      assert (t + u)[n..] == t[n..] + u;
    }
    assert again.prev == lane.prev;
    assert again.partial.Some?;
    assert again.partial.value.(header := open.header) == open;
  }

  lemma StalledShortIsIdempotent(lane: Lane, csid: uint32, k: int, t: seq<byte>, u: seq<byte>)
    requires StepLane(lane, csid, 3, k, t).Stalled?
    ensures StepLane(StepLane(lane, csid, 3, k, t).lane, csid, 3, k, t + u) == StepLane(lane, csid, 3, k, t + u)
  {
    hide Read24, Read32, Load32;
    var again := StepLane(lane, csid, 3, k, t).lane;
    var open := OpenPacket(lane, csid, 3, k, t);
    HeadersExtend(lane, csid, 3, k, t, u, open.header);
    if |t| >= 4 {
      Read32Extends(t, u);
      assert (t + u)[0..] == t + u && t[0..] == t;
    }
    assert again.prev == lane.prev;
    assert again.partial.Some?;
    assert again.partial.value.(header := open.header) == open;
  }

  /** Parsing the same chunk again, from the history a stalled attempt left, changes nothing. */
  lemma StalledIsIdempotent(lane: Lane, csid: uint32, fmt: Fmt, k: int, t: seq<byte>, u: seq<byte>)
    requires StepLane(lane, csid, fmt, k, t).Stalled?
    ensures StepLane(StepLane(lane, csid, fmt, k, t).lane, csid, fmt, k, t + u) == StepLane(lane, csid, fmt, k, t + u)
  {
    hide StepLane;
    if fmt == 3 {
      StalledShortIsIdempotent(lane, csid, k, t, u);
    } else {
      StalledFullIsIdempotent(lane, csid, fmt, k, t, u);
    }
  }

  lemma ApplyAgain(st: InState, csid: uint32, n: nat, lane: Lane, step: Step)
    requires !step.Short?
    ensures Apply(st.(lanes := st.lanes[csid := lane]), csid, n, step) == Apply(st, csid, n, step)
  {
    assert st.lanes[csid := lane][csid := step.lane] == st.lanes[csid := step.lane];
  }

  lemma StillNotShort(lane: Lane, csid: uint32, fmt: Fmt, k: int, t: seq<byte>, u: seq<byte>)
    requires !StepLane(lane, csid, fmt, k, t).Short?
    ensures !StepLane(lane, csid, fmt, k, t + u).Short?
  {
  }

  lemma ParseChunkExtends(st: InState, s: seq<byte>, u: seq<byte>)
    requires |s| > 1
    ensures ParseChunk(st, s).Next? ==> ParseChunk(st, s + u) == ParseChunk(st, s)
    ensures ParseChunk(st, s).Wait? ==> ParseChunk(ParseChunk(st, s).st, s + u) == ParseChunk(st, s + u)
  {
    var b := ParseBasic(s);
    if b.Basic? {
      assert ParseBasic(s + u) == b;
      assert (s + u)[b.length..] == s[b.length..] + u;
      StepExtends(st, b.csid, b.fmt, b.length, s[b.length..], u);
    }
  }

  lemma StepExtends(st: InState, csid: uint32, fmt: Fmt, n: nat, t: seq<byte>, u: seq<byte>)
    ensures
      var lane := LaneOf(st.lanes, csid);
      var step := StepLane(lane, csid, fmt, st.chunkSize, t);
      var more := StepLane(lane, csid, fmt, st.chunkSize, t + u);
      && (step.Taken? ==> more == step)
      && (step.Stalled? ==>
          Apply(Apply(st, csid, n, step).st, csid, n, StepLane(step.lane, csid, fmt, st.chunkSize, t + u))
          == Apply(st, csid, n, more))
  {
    var lane := LaneOf(st.lanes, csid);
    var step := StepLane(lane, csid, fmt, st.chunkSize, t);
    match step {
      case Short =>
      case Stalled(again) =>
        StalledIsIdempotent(lane, csid, fmt, st.chunkSize, t, u);
        StillNotShort(lane, csid, fmt, st.chunkSize, t, u);
        ApplyAgain(st, csid, n, again, StepLane(lane, csid, fmt, st.chunkSize, t + u));
      case Taken(_, _, _) =>
        TakenExtends(lane, csid, fmt, st.chunkSize, t, u);
    }
  }

  lemma ConsContinue(m: Option<Message>, o: Outcome, b: seq<byte>)
    ensures Continue(Cons(m, o), b) == Cons(m, Continue(o, b))
  {
    hide ParseAll;
    if m.Some? {
      Assoc3([m.value], o.msgs, ParseAll(o.st, o.rest + b).msgs);
    }
  }

  /** One call on `a + b` does exactly what a call on `a` and a later call on the rest do. */
  lemma {:induction false} SplitAnywhere(st: InState, a: seq<byte>, b: seq<byte>)
    ensures ParseAll(st, a + b) == Continue(ParseAll(st, a), b)
    decreases |a|
  {
    hide ParseChunk, Cons;
    if |a| <= 1 {
    } else {
      ParseChunkExtends(st, a, b);
      match ParseChunk(st, a) {
        case Wait(st') =>
        case Next(st', used, done) =>
          assert (a + b)[used..] == a[used..] + b;
          SplitAnywhere(st', a[used..], b);
          ConsContinue(done, ParseAll(st', a[used..]), b);
      }
    }
  }

  /**
    Fragmentation invariance: however the network cuts a byte stream, the completed messages, the
    bytes left over and the history are those of one call on the whole stream.
   */
  lemma {:induction false} FragmentationInvariance(st: InState, s: seq<byte>, pieces: seq<seq<byte>>)
    ensures FeedAll(ParseAll(st, s), pieces) == ParseAll(st, s + Flatten(pieces))
    decreases |pieces|
  {
    hide ParseAll, ParseChunk;
    if |pieces| == 0 {
      assert s + [] == s;
    } else {
      SplitAnywhere(st, s, pieces[0]);
      FragmentationInvariance(st, s + pieces[0], pieces[1..]);
      assert s + pieces[0] + Flatten(pieces[1..]) == s + Flatten(pieces);
    }
  }
}
