/**
  The chunk stream round trip: what `BuildChunk` writes, `ParseMessage` reads back. Neither side sees
  the other's history; the invariant is that the two evolve in lockstep.
 */
module RoundTrip {
  import opened Bytes
  import opened ChunkFormat
  import opened ChunkParser
  import opened ChunkWriter
  import opened Sequences
  import opened Wrappers

  /** The receiver's view of a chunk stream between messages, given the sender's. */
  function Mirror(o: OutLane): Lane {
    Lane(if o.prev.Some? then o.prev.value else NO_HEADER, None, o.delta, false)
  }

  predicate Synced(o: OutLane, l: Lane) {
    l == Mirror(o)
  }

  ghost predicate AllSynced(out: map<uint32, OutLane>, lanes: map<uint32, Lane>) {
    forall csid: uint32 :: Synced(OutLaneOf(out, csid), LaneOf(lanes, csid))
  }

  predicate CsidInRange(csid: uint32) {
    2 <= csid <= 65599
  }

  /**
    What the chunk headers can express: a chunk stream id the basic header can carry, a length of 24
    bits, and no empty body under a header that leaves the length out.
   */
  predicate Expressible(o: OutLane, j: Job) {
    && CsidInRange(j.msg.csid)
    && |j.msg.body| < 0x100_0000
    && (|j.msg.body| == 0 ==> PickFmt(o, j) <= 1)
  }

  /** ... and a timestamp field short of the extended form. */
  predicate InScope(o: OutLane, j: Job) {
    Expressible(o, j) && Field(o, j) < EXTENDED
  }

  // ---------------------------------------------------------------------------------------------
  // Headers
  // ---------------------------------------------------------------------------------------------

  /** The basic header survives exactly for the chunk stream ids 2 to 65599. */
  lemma BasicHeaderRoundTrip(fmt: Fmt, csid: uint32, t: seq<byte>)
    requires |t| >= 2
    ensures ParseBasic(BasicHeader(fmt, csid) + t) == Basic(fmt, csid, |BasicHeader(fmt, csid)|) <==> CsidInRange(csid)
  {
  }

  lemma BasicHeaderParses(fmt: Fmt, csid: uint32, t: seq<byte>)
    requires CsidInRange(csid)
    ensures ParseBasic(BasicHeader(fmt, csid) + t) == Basic(fmt, csid, |BasicHeader(fmt, csid)|)
  {
  }

  lemma FullHeaderReads(ts: uint24, n: uint24, m: Message, t: seq<byte>)
    ensures
      var s := Write24(ts) + Write24(n) + [m.msgType] + Copy32(m.msgSid) + t;
      && Read24(s) == ts && Read24(s[3..]) == n && s[6] == m.msgType && Load32(s[7..]) == m.msgSid
  {
    var s := Write24(ts) + Write24(n) + [m.msgType] + Copy32(m.msgSid) + t;
    assert s == Write24(ts) + s[3..];
    Read24Write24(ts, s[3..]);
    assert s[3..] == Write24(n) + s[6..];
    Read24Write24(n, s[6..]);
    assert s[7..] == Copy32(m.msgSid) + t;
    Load32Copy32(m.msgSid, t);
  }

  lemma ShortHeaderReads(ts: uint24, n: uint24, m: Message, t: seq<byte>)
    ensures
      var s := Write24(ts) + Write24(n) + [m.msgType] + t;
      && Read24(s) == ts && Read24(s[3..]) == n && s[6] == m.msgType
  {
    var s := Write24(ts) + Write24(n) + [m.msgType] + t;
    assert s == Write24(ts) + s[3..];
    Read24Write24(ts, s[3..]);
    assert s[3..] == Write24(n) + s[6..];
    Read24Write24(n, s[6..]);
  }

  /** The header fields as they stand in the bytes. */
  predicate Carries(fmt: Fmt, field: uint32, m: Message, s: seq<byte>)
    requires |m.body| < TWO32
  {
    && |s| >= HeaderLength(fmt)
    && (fmt <= 2 ==> Read24(s) == Min(field, EXTENDED))
    && (fmt <= 1 ==> Read24(s[3..]) == |m.body| && s[6] == m.msgType)
    && (fmt == 0 ==> Load32(s[7..]) == m.msgSid)
  }

  lemma MessageHeaderCarries(fmt: Fmt, field: uint32, m: Message, t: seq<byte>)
    requires |m.body| < 0x100_0000
    ensures Carries(fmt, field, m, MessageHeader(fmt, field, m) + t)
  {
    var ts := if field >= EXTENDED then EXTENDED else field;
    if fmt == 0 {
      FullHeaderReads(ts, |m.body|, m, t);
    } else if fmt == 1 {
      ShortHeaderReads(ts, |m.body|, m, t);
    } else if fmt == 2 {
      Read24Write24(ts, t);
    }
  }

  // ---------------------------------------------------------------------------------------------
  // Chunks
  // ---------------------------------------------------------------------------------------------

  /** The parsing loop takes one chunk and goes on with what follows it. */
  lemma LoopTakes(st: InState, fmt: Fmt, csid: uint32, t: seq<byte>, step: Step)
    requires CsidInRange(csid)
    requires step == StepLane(LaneOf(st.lanes, csid), csid, fmt, st.chunkSize, t)
    requires step.Taken? && |BasicHeader(fmt, csid) + t| > 1 && step.used <= |t|
    ensures
      var k := if step.done.Some? then ChunkSizeAfter(st.chunkSize, step.done.value) else st.chunkSize;
      ParseAll(st, BasicHeader(fmt, csid) + t)
      == Cons(step.done, ParseAll(InState(st.lanes[csid := step.lane], k), t[step.used..]))
  {
    hide StepLane, BasicHeader, ParseBasic, ChunkSizeAfter;
    var n := |BasicHeader(fmt, csid)|;
    var s := BasicHeader(fmt, csid) + t;
    BasicHeaderParses(fmt, csid, t);
    Halves(BasicHeader(fmt, csid), t, step.used);
  }

  /** The timestamp a receiver holds after reading one more header of a message with this field. */
  function Reread(timestamp: uint32, field: uint32): uint32 {
    if field >= EXTENDED then (timestamp as int + Swap32(field)) % TWO32 else timestamp
  }

  /** The timestamp after the headers of all chunks that still carry `n` bytes, cut at `c`. */
  function RereadAll(timestamp: uint32, field: uint32, n: nat, c: nat): uint32
    requires c > 0
    decreases n
  {
    if n == 0 then timestamp else RereadAll(Reread(timestamp, field), field, if n <= c then 0 else n - c, c)
  }

  function Stamped(m: Message, timestamp: uint32): Message {
    m.(timestamp := timestamp)
  }

  /** The receiver while `i` bytes of `m` have arrived. */
  function Midway(m: Message, delta: uint32, ext: bool, i: nat): Lane
    requires i <= |m.body| < TWO32
  {
    Lane(HeaderOf(m), Some(Partial(HeaderOf(m), |m.body|, m.body[..i])), delta, ext)
  }

  function Closed(m: Message, delta: uint32, ext: bool): Lane
    requires |m.body| < TWO32
  {
    Lane(HeaderOf(m), None, delta, ext)
  }

  function DeltaAfter(delta: uint32, field: uint32): uint32 {
    if field >= EXTENDED then Swap32(field) else delta
  }

  lemma NoField(field: uint32)
    requires field < EXTENDED
    ensures ExtendedField(field) == []
  {
  }

  lemma FieldBytes(field: uint32, t: seq<byte>)
    requires field >= EXTENDED
    ensures |ExtendedField(field)| == 4 && Read32(ExtendedField(field) + t) == Swap32(field)
  {
  }

  lemma TakeLater(l: Lane, m: Message, i: nat, k: nat, t: seq<byte>, n: nat)
    requires i < |m.body| < TWO32 && k > 0
    requires n + Min(|m.body| - i, k) <= |t|
    requires t[n..n + Min(|m.body| - i, k)] == m.body[i..i + Min(|m.body| - i, k)]
    ensures
      var size := Min(|m.body| - i, k);
      TakeBody(l, Partial(HeaderOf(m), |m.body|, m.body[..i]), k, t, n) ==
      if i + size == |m.body|
      then Taken(Closed(m, l.delta, l.ext), n + size, Some(m))
      else Taken(Midway(m, l.delta, l.ext, i + size), n + size, None)
  {
    var size := Min(|m.body| - i, k);
    assert m.body[..i] + m.body[i..i + size] == m.body[..i + size];
    assert m.body[..|m.body|] == m.body;
  }

  /** A chunk after the first: its header restates the timestamp field when that is extended. */
  lemma LaterChunk(m: Message, field: uint32, delta: uint32, i: nat, k: nat, rest: seq<byte>)
    requires 0 < i < |m.body| < 0x100_0000 && k > 0
    requires field < EXTENDED && m.timestamp == 0 ==> delta == 0
    ensures
      var size := Min(|m.body| - i, k);
      var m' := Stamped(m, Reread(m.timestamp, field));
      var ext := field >= EXTENDED;
      var t := ExtendedField(field) + (m.body[i..i + size] + rest);
      var n := |ExtendedField(field)| + size;
      && t[n..] == rest
      && StepLane(Midway(m, delta, ext, i), m.csid, 3, k, t) ==
         if i + size == |m.body|
         then Taken(Closed(m', DeltaAfter(delta, field), ext), n, Some(m'))
         else Taken(Midway(m', DeltaAfter(delta, field), ext, i + size), n, None)
  {
    hide TakeBody, Swap32, Read32, ExtendedField, StepLane;
    var size := Min(|m.body| - i, k);
    var t := ExtendedField(field) + (m.body[i..i + size] + rest);
    var n := |ExtendedField(field)|;
    var m' := Stamped(m, Reread(m.timestamp, field));
    Quarters([], ExtendedField(field), m.body[i..i + size], rest);
    assert [] + t == t;
    var l := Midway(m, delta, field >= EXTENDED, i);
    var p := Partial(HeaderOf(m), |m.body|, m.body[..i]);
    var (h, d) := ReadHeader(l, HeaderOf(m), 3, t);
    if field >= EXTENDED {
      FieldBytes(field, m.body[i..i + size] + rest);
      assert t[0..] == t;
      StepExtended(l, m.csid, 3, k, t, p, h, d);
    } else {
      StepPlain(l, m.csid, 3, k, t, p, h, d);
    }
    TakeLater(Lane(HeaderOf(m), None, DeltaAfter(delta, field), field >= EXTENDED), m', i, k, t, n);
  }

  lemma Append4<T>(a: seq<T>, b: seq<T>, c: seq<T>, d: seq<T>, e: seq<T>)
    ensures a + (b + c + d) + e == a + b + (c + d + e)
  {
  }

  /** The bytes from the `i`th body byte on, as one chunk and what follows it. */
  lemma ChunkLayout(m: Message, field: uint32, i: nat, c: nat, rest: seq<byte>)
    requires i < |m.body| && c > 0
    ensures
      var next := NextHeader(m.csid, field);
      var size := Min(|m.body| - i, c);
      var after := if |m.body| - i <= c then rest else next + Chunks(m.body[i + size..], c, next) + rest;
      next + Chunks(m.body[i..], c, next) + rest
      == BasicHeader(3, m.csid) + (ExtendedField(field) + (m.body[i..i + size] + after))
  {
    hide BasicHeader, ExtendedField;
    var size := Min(|m.body| - i, c);
    var next := NextHeader(m.csid, field);
    assert next == BasicHeader(3, m.csid) + ExtendedField(field);
    assert m.body[i..][..size] == m.body[i..i + size];
    assert m.body[i..][size..] == m.body[i + size..];
    var piece := m.body[i..i + size];
    if |m.body| - i <= c {
      Assoc4(BasicHeader(3, m.csid), ExtendedField(field), piece, rest);
    } else {
      var tail := Chunks(m.body[i + size..], c, next);
      assert Chunks(m.body[i..], c, next) == piece + next + tail;
      Append4(next, piece, next, tail, rest);
      Assoc4(BasicHeader(3, m.csid), ExtendedField(field), piece, next + tail + rest);
    }
  }

  /** One turn of the loop on a chunk after the first. */
  lemma LaterTurn(st: InState, m: Message, field: uint32, delta: uint32, i: nat, after: seq<byte>)
    requires CsidInRange(m.csid)
    requires 0 < i < |m.body| < 0x100_0000 && st.chunkSize > 0
    requires field < EXTENDED && m.timestamp == 0 ==> delta == 0
    requires LaneOf(st.lanes, m.csid) == Midway(m, delta, field >= EXTENDED, i)
    ensures
      var k := st.chunkSize;
      var size := Min(|m.body| - i, k);
      var m' := Stamped(m, Reread(m.timestamp, field));
      var ext := field >= EXTENDED;
      var d := DeltaAfter(delta, field);
      ParseAll(st, BasicHeader(3, m.csid) + (ExtendedField(field) + (m.body[i..i + size] + after))) ==
      if i + size == |m.body|
      then Cons(Some(m'), ParseAll(InState(st.lanes[m.csid := Closed(m', d, ext)], ChunkSizeAfter(k, m')), after))
      else ParseAll(InState(st.lanes[m.csid := Midway(m', d, ext, i + size)], k), after)
  {
    hide StepLane, ParseChunk, ParseAll;
    var k := st.chunkSize;
    var t := ExtendedField(field) + (m.body[i..i + Min(|m.body| - i, k)] + after);
    LaterChunk(m, field, delta, i, k, after);
    LoopTakes(st, 3, m.csid, t, StepLane(LaneOf(st.lanes, m.csid), m.csid, 3, k, t));
  }

  /** All chunks after the first. */
  lemma {:induction false} LaterChunks(
    st: InState, m: Message, field: uint32, delta: uint32, i: nat, rest: seq<byte>)
    requires CsidInRange(m.csid)
    requires 0 < i < |m.body| < 0x100_0000 && st.chunkSize > 0
    requires field < EXTENDED && m.timestamp == 0 ==> delta == 0
    requires LaneOf(st.lanes, m.csid) == Midway(m, delta, field >= EXTENDED, i)
    ensures
      var c := st.chunkSize;
      var next := NextHeader(m.csid, field);
      var m' := Stamped(m, RereadAll(m.timestamp, field, |m.body| - i, c));
      ParseAll(st, next + Chunks(m.body[i..], c, next) + rest)
      == Cons(Some(m'), ParseAll(InState(st.lanes[m.csid := Closed(m', DeltaAfter(delta, field), field >= EXTENDED)],
                                         ChunkSizeAfter(c, m')), rest))
    decreases |m.body| - i
  {
    hide ParseAll, Chunks, NextHeader, ExtendedField, BasicHeader, ChunkSizeAfter;
    var c: nat := st.chunkSize;
    var ext, d := field >= EXTENDED, DeltaAfter(delta, field);
    var next := NextHeader(m.csid, field);
    var size := Min(|m.body| - i, c);
    var after := if |m.body| - i <= c then rest else next + Chunks(m.body[i + size..], c, next) + rest;
    var m1 := Stamped(m, Reread(m.timestamp, field));
    ChunkLayout(m, field, i, c, rest);
    LaterTurn(st, m, field, delta, i, after);
    if i + size < |m.body| {
      var st1 := InState(st.lanes[m.csid := Midway(m1, d, ext, i + size)], c);
      LaterChunks(st1, m1, field, d, i + size, rest);
      var m2 := Stamped(m1, RereadAll(m1.timestamp, field, |m.body| - (i + size), c));
      assert st1.lanes[m.csid := Closed(m2, d, ext)] == st.lanes[m.csid := Closed(m2, d, ext)];
    }
  }

  // ---------------------------------------------------------------------------------------------
  // One message
  // ---------------------------------------------------------------------------------------------

  /** The timestamp the receiver holds after the first header of a message. */
  function FirstStamp(o: OutLane, j: Job): uint32 {
    if Field(o, j) < EXTENDED then j.msg.timestamp
    else if PickFmt(o, j) == 0 then EXTENDED
    else Reread(o.prev.value.timestamp, Field(o, j))
  }

  function FirstDelta(o: OutLane, j: Job): uint32 {
    if PickFmt(o, j) == 0 then 0 else DeltaAfter(Field(o, j), Field(o, j))
  }

  /** The timestamp under which the receiver delivers the message of `j`, sent in chunks of `c`. */
  function ArrivalStamp(o: OutLane, j: Job, c: nat): uint32
    requires c > 0
  {
    var n := |j.msg.body|;
    RereadAll(FirstStamp(o, j), Field(o, j), if n <= c then 0 else n - c, c)
  }

  function FinalDelta(o: OutLane, j: Job, c: nat): uint32 {
    if |j.msg.body| <= c then FirstDelta(o, j) else DeltaAfter(FirstDelta(o, j), Field(o, j))
  }

  /** The first header of a message, parsed under synchronised histories. */
  lemma FirstHeaderReads(o: OutLane, l: Lane, j: Job, k: int, s: seq<byte>)
    requires Synced(o, l) && Expressible(o, j) && (Field(o, j) < EXTENDED || o.delta < EXTENDED)
    requires Carries(PickFmt(o, j), Field(o, j), j.msg, s)
    ensures
      var fmt, m := PickFmt(o, j), j.msg;
      var (h, d) := ReadHeader(l, Header(m.csid, 0, |m.body|, 0, 0), fmt, s);
      && OpenPacket(l, m.csid, fmt, k, s) == Partial(Header(m.csid, 0, |m.body|, 0, 0), |m.body|, [])
      && h.(timestamp := m.timestamp) == HeaderOf(m)
      && (Field(o, j) < EXTENDED || fmt == 0 ==> h.timestamp == FirstStamp(o, j) && d == FirstDelta(o, j))
      && (fmt == 3 ==> Field(o, j) < EXTENDED)
      && (fmt != 0 ==> o.prev.Some? && l.prev == o.prev.value)
  {
  }

  lemma TakeFirst(l: Lane, m: Message, k: int, t: seq<byte>, n: nat)
    requires |m.body| < TWO32 && k > 0
    requires n + Min(|m.body|, k) <= |t|
    requires t[n..n + Min(|m.body|, k)] == m.body[..Min(|m.body|, k)]
    ensures
      var size := Min(|m.body|, k);
      TakeBody(l, Partial(HeaderOf(m), |m.body|, []), k, t, n) ==
      if size == |m.body|
      then Taken(Closed(m, l.delta, l.ext), n + size, Some(m))
      else Taken(Midway(m, l.delta, l.ext, size), n + size, None)
  {
    var size := Min(|m.body|, k);
    assert m.body[..|m.body|] == m.body;
    assert [] + m.body[..size] == m.body[..size];
  }

  /** The receiver's step on a first header without an extended timestamp. */
  lemma FirstPlain(o: OutLane, l: Lane, j: Job, k: int, t: seq<byte>)
    requires Synced(o, l) && Expressible(o, j) && Field(o, j) < EXTENDED
    requires |t| > 0 && Carries(PickFmt(o, j), Field(o, j), j.msg, t)
    ensures
      var fmt, m := PickFmt(o, j), j.msg;
      var p := Partial(HeaderOf(Stamped(m, FirstStamp(o, j))), |m.body|, []);
      StepLane(l, m.csid, fmt, k, t) ==
      TakeBody(Lane(l.prev, None, FirstDelta(o, j), false), p, k, t, HeaderLength(fmt))
  {
    hide Field, PickFmt, ReadHeader, OpenPacket, Read24, Read32, Load32, Swap32, TakeBody, StepLane;
    var fmt, m := PickFmt(o, j), j.msg;
    FirstHeaderReads(o, l, j, k, t);
    var p := Partial(Header(m.csid, 0, |m.body|, 0, 0), |m.body|, []);
    var (h, d) := ReadHeader(l, p.header, fmt, t);
    StepPlain(l, m.csid, fmt, k, t, p, h, d);
  }

  /** The same with one. */
  lemma FirstExtended(o: OutLane, l: Lane, j: Job, k: int, t: seq<byte>)
    requires Synced(o, l) && Expressible(o, j) && Field(o, j) >= EXTENDED && o.delta < EXTENDED
    requires Carries(PickFmt(o, j), Field(o, j), j.msg, t)
    requires |t| >= HeaderLength(PickFmt(o, j)) + 4
    requires Read32(t[HeaderLength(PickFmt(o, j))..]) == Swap32(Field(o, j))
    ensures
      var fmt, m := PickFmt(o, j), j.msg;
      var p := Partial(HeaderOf(Stamped(m, FirstStamp(o, j))), |m.body|, []);
      StepLane(l, m.csid, fmt, k, t) ==
      TakeBody(Lane(l.prev, None, FirstDelta(o, j), true), p, k, t, HeaderLength(fmt) + 4)
  {
    hide Field, PickFmt, ReadHeader, OpenPacket, Read24, Read32, Load32, Swap32, TakeBody, StepLane;
    var fmt, m := PickFmt(o, j), j.msg;
    FirstHeaderReads(o, l, j, k, t);
    var p := Partial(Header(m.csid, 0, |m.body|, 0, 0), |m.body|, []);
    var (h, d) := ReadHeader(l, p.header, fmt, t);
    StepExtended(l, m.csid, fmt, k, t, p, h, d);
  }

  /** The first chunk of a message leaves the packet complete, or open with the first `k` bytes. */
  lemma FirstChunk(o: OutLane, l: Lane, j: Job, k: int, after: seq<byte>)
    requires Synced(o, l) && Expressible(o, j) && (Field(o, j) < EXTENDED || o.delta < EXTENDED) && k > 0
    ensures
      var fmt, field, m := PickFmt(o, j), Field(o, j), j.msg;
      var size := Min(|m.body|, k);
      var t := MessageHeader(fmt, field, m) + (ExtendedField(field) + (m.body[..size] + after));
      var n := HeaderLength(fmt) + |ExtendedField(field)| + size;
      var m' := Stamped(m, FirstStamp(o, j));
      var ext := field >= EXTENDED;
      && n <= |t| && t[n..] == after
      && StepLane(l, m.csid, fmt, k, t) ==
         if size == |m.body|
         then Taken(Closed(m', FirstDelta(o, j), ext), n, Some(m'))
         else Taken(Midway(m', FirstDelta(o, j), ext, size), n, None)
  {
    hide MessageHeader, Field, PickFmt, Read32, Swap32, FirstStamp, FirstDelta;
    hide ExtendedField, TakeBody, StepLane, Carries, Synced;
    var fmt, field, m := PickFmt(o, j), Field(o, j), j.msg;
    var size := Min(|m.body|, k);
    var tail := ExtendedField(field) + (m.body[..size] + after);
    var t := MessageHeader(fmt, field, m) + tail;
    var n := HeaderLength(fmt) + |ExtendedField(field)|;
    MessageHeaderCarries(fmt, field, m, tail);
    Quarters(MessageHeader(fmt, field, m), ExtendedField(field), m.body[..size], after);
    if field >= EXTENDED {
      FieldBytes(field, m.body[..size] + after);
      FirstExtended(o, l, j, k, t);
    } else {
      NoField(field);
      FirstPlain(o, l, j, k, t);
    }
    TakeFirst(Lane(l.prev, None, FirstDelta(o, j), field >= EXTENDED), Stamped(m, FirstStamp(o, j)), k, t, n);
  }

  /** Whether a sender cutting at `c` and a receiver expecting cuts at `k` agree on a body of `n` bytes. */
  predicate CutAlike(k: int, c: nat, n: nat) {
    k > 0 && c > 0 && (k == c || n <= Min(k, c))
  }

  lemma FirstLayout(o: OutLane, j: Job, c: nat, rest: seq<byte>)
    requires c > 0 && |j.msg.body| < TWO32
    ensures
      var fmt, field, m := PickFmt(o, j), Field(o, j), j.msg;
      var next := NextHeader(m.csid, field);
      var after := if |m.body| <= c then rest else next + Chunks(m.body[c..], c, next) + rest;
      Encode(o, j, c) + rest
      == BasicHeader(fmt, m.csid)
         + (MessageHeader(fmt, field, m) + (ExtendedField(field) + (m.body[..Min(|m.body|, c)] + after)))
  {
    hide BasicHeader, MessageHeader, ExtendedField, NextHeader, Field, PickFmt;
    var fmt, field, m := PickFmt(o, j), Field(o, j), j.msg;
    var b, h, x := BasicHeader(fmt, m.csid), MessageHeader(fmt, field, m), ExtendedField(field);
    var next := NextHeader(m.csid, field);
    if |m.body| <= c {
      assert m.body[..|m.body|] == m.body;
      assert b + h + x + m.body + rest == b + (h + (x + (m.body + rest)));
    } else {
      var p, tail := m.body[..c], Chunks(m.body[c..], c, next);
      assert b + h + x + (p + next + tail) + rest == b + (h + (x + (p + (next + tail + rest))));
    }
  }

  /** A zero timestamp is a full header's, or a zero difference from zero. */
  lemma FirstStampZero(o: OutLane, j: Job)
    ensures Field(o, j) < EXTENDED && FirstStamp(o, j) == 0 ==> FirstDelta(o, j) == 0
  {
  }

  /** One turn of the loop on the first chunk of a message. */
  lemma FirstTurn(st: InState, o: OutLane, j: Job, after: seq<byte>)
    requires Expressible(o, j) && (Field(o, j) < EXTENDED || o.delta < EXTENDED)
    requires Synced(o, LaneOf(st.lanes, j.msg.csid)) && st.chunkSize > 0
    ensures
      var fmt, field, m, k := PickFmt(o, j), Field(o, j), j.msg, st.chunkSize;
      var m' := Stamped(m, FirstStamp(o, j));
      var ext, d, size := field >= EXTENDED, FirstDelta(o, j), Min(|m.body|, k);
      ParseAll(st, BasicHeader(fmt, m.csid)
                   + (MessageHeader(fmt, field, m) + (ExtendedField(field) + (m.body[..size] + after)))) ==
      if size == |m.body|
      then Cons(Some(m'), ParseAll(InState(st.lanes[m.csid := Closed(m', d, ext)], ChunkSizeAfter(k, m')), after))
      else ParseAll(InState(st.lanes[m.csid := Midway(m', d, ext, size)], k), after)
  {
    hide StepLane, ParseChunk, ParseAll, MessageHeader, ExtendedField, BasicHeader;
    hide Field, PickFmt, FirstStamp, FirstDelta;
    var fmt, field, m, k := PickFmt(o, j), Field(o, j), j.msg, st.chunkSize;
    var t := MessageHeader(fmt, field, m) + (ExtendedField(field) + (m.body[..Min(|m.body|, k)] + after));
    FirstChunk(o, LaneOf(st.lanes, m.csid), j, k, after);
    LoopTakes(st, fmt, m.csid, t, StepLane(LaneOf(st.lanes, m.csid), m.csid, fmt, k, t));
  }

  /**
    One message, whatever its timestamp: the receiver completes it after exactly its own bytes, intact
    but for the timestamp, which is `ArrivalStamp`.
   */
  lemma MessageArrives(st: InState, o: OutLane, j: Job, c: nat, rest: seq<byte>)
    requires Expressible(o, j) && (Field(o, j) < EXTENDED || o.delta < EXTENDED)
    requires Synced(o, LaneOf(st.lanes, j.msg.csid))
    requires CutAlike(st.chunkSize, c, |j.msg.body|)
    ensures
      var m' := Stamped(j.msg, ArrivalStamp(o, j, c));
      var lane := Closed(m', FinalDelta(o, j, c), Field(o, j) >= EXTENDED);
      ParseAll(st, Encode(o, j, c) + rest)
      == Cons(Some(m'), ParseAll(InState(st.lanes[j.msg.csid := lane], ChunkSizeAfter(st.chunkSize, m')), rest))
  {
    hide ParseAll, MessageHeader, ExtendedField, BasicHeader, NextHeader, Encode, Chunks, Cons, ChunkSizeAfter;
    hide Field, PickFmt, FirstStamp, FirstDelta;
    var m := j.msg;
    var next := NextHeader(m.csid, Field(o, j));
    var after := if |m.body| <= c then rest else next + Chunks(m.body[c..], c, next) + rest;
    FirstLayout(o, j, c, rest);
    FirstTurn(st, o, j, after);
    if |m.body| > c {
      var m1 := Stamped(m, FirstStamp(o, j));
      var st1 := InState(st.lanes[m.csid := Midway(m1, FirstDelta(o, j), Field(o, j) >= EXTENDED, c)], c);
      FirstStampZero(o, j);
      LaterChunks(st1, m1, Field(o, j), FirstDelta(o, j), c, rest);
      var lane := Closed(Stamped(m, ArrivalStamp(o, j, c)), FinalDelta(o, j, c), Field(o, j) >= EXTENDED);
      assert st1.lanes[m.csid := lane] == st.lanes[m.csid := lane];
    }
  }

  lemma {:induction false} RereadPlain(timestamp: uint32, field: uint32, n: nat, c: nat)
    requires field < EXTENDED && c > 0
    ensures RereadAll(timestamp, field, n, c) == timestamp
    decreases n
  {
    if n != 0 {
      RereadPlain(timestamp, field, if n <= c then 0 else n - c, c);
    }
  }

  /** Within scope the message arrives as it was sent, and the two histories agree again. */
  lemma MessageRoundTrip(st: InState, o: OutLane, j: Job, c: nat, rest: seq<byte>)
    requires InScope(o, j)
    requires Synced(o, LaneOf(st.lanes, j.msg.csid))
    requires CutAlike(st.chunkSize, c, |j.msg.body|)
    ensures
      ParseAll(st, Encode(o, j, c) + rest)
      == Cons(Some(j.msg), ParseAll(InState(st.lanes[j.msg.csid := Mirror(LaneAfter(o, j))],
                                            ChunkSizeAfter(st.chunkSize, j.msg)), rest))
  {
    hide ParseAll, Encode, Chunks;
    var n := |j.msg.body|;
    RereadPlain(j.msg.timestamp, Field(o, j), if n <= c then 0 else n - c, c);
    MessageArrives(st, o, j, c, rest);
  }

  // ---------------------------------------------------------------------------------------------
  // Runs
  // ---------------------------------------------------------------------------------------------

  function Messages(jobs: seq<Job>): (ms: seq<Message>)
    ensures |ms| == |jobs|
  {
    if |jobs| == 0 then [] else [jobs[0].msg] + Messages(jobs[1..])
  }

  /** Every call of the run is in scope, and the two chunk sizes suit it when it is parsed. */
  predicate RunInScope(out: map<uint32, OutLane>, jobs: seq<Job>, k: int, c: nat)
    decreases |jobs|
  {
    |jobs| == 0 ||
    var j := jobs[0];
    && InScope(OutLaneOf(out, j.msg.csid), j)
    && CutAlike(k, c, |j.msg.body|)
    && RunInScope(After(out, j), jobs[1..], ChunkSizeAfter(k, j.msg), c)
  }

  lemma {:induction false} RunIsSized(out: map<uint32, OutLane>, jobs: seq<Job>, k: int, c: nat)
    requires RunInScope(out, jobs, k, c)
    ensures Sized(jobs)
    decreases |jobs|
  {
    if |jobs| != 0 {
      RunIsSized(After(out, jobs[0]), jobs[1..], ChunkSizeAfter(k, jobs[0].msg), c);
      assert jobs == [jobs[0]] + jobs[1..];
    }
  }

  /** The receiver once it has parsed the whole run. */
  function InAfter(st: InState, out: map<uint32, OutLane>, jobs: seq<Job>): InState
    requires Sized(jobs)
    decreases |jobs|
  {
    if |jobs| == 0 then st
    else
      var j := jobs[0];
      InAfter(InState(st.lanes[j.msg.csid := Mirror(LaneAfter(OutLaneOf(out, j.msg.csid), j))],
                      ChunkSizeAfter(st.chunkSize, j.msg)),
              After(out, j), jobs[1..])
  }

  lemma StaysSynced(out: map<uint32, OutLane>, lanes: map<uint32, Lane>, j: Job)
    requires |j.msg.body| < TWO32 && AllSynced(out, lanes)
    ensures AllSynced(After(out, j), lanes[j.msg.csid := Mirror(LaneAfter(OutLaneOf(out, j.msg.csid), j))])
  {
    hide Mirror, LaneAfter;
    var lanes' := lanes[j.msg.csid := Mirror(LaneAfter(OutLaneOf(out, j.msg.csid), j))];
    forall csid: uint32 ensures Synced(OutLaneOf(After(out, j), csid), LaneOf(lanes', csid)) {
      assert Synced(OutLaneOf(out, csid), LaneOf(lanes, csid));
    }
  }

  function Prepend(ms: seq<Message>, o: Outcome): Outcome {
    o.(msgs := ms + o.msgs)
  }

  /**
    The chunk round trip: parsing the wire image of any run of calls, whatever follows it, completes
    exactly the messages of the run, in order, and leaves the two sides synchronised.
   */
  lemma {:induction false} RoundTripAll(st: InState, out: map<uint32, OutLane>, jobs: seq<Job>, c: nat, rest: seq<byte>)
    requires c > 0 && Sized(jobs)
    requires AllSynced(out, st.lanes) && RunInScope(out, jobs, st.chunkSize, c)
    ensures
      var st' := InAfter(st, out, jobs);
      && ParseAll(st, EncodeAll(out, jobs, c) + rest) == Prepend(Messages(jobs), ParseAll(st', rest))
      && AllSynced(LanesAfter(out, jobs), st'.lanes)
    decreases |jobs|
  {
    hide ParseAll, Encode, LaneAfter, Mirror, InScope, CutAlike, ChunkSizeAfter;
    if |jobs| == 0 {
      assert [] + rest == rest;
      assert [] + ParseAll(st, rest).msgs == ParseAll(st, rest).msgs;
    } else {
      var j := jobs[0];
      var o := OutLaneOf(out, j.msg.csid);
      var st1 := InState(st.lanes[j.msg.csid := Mirror(LaneAfter(o, j))], ChunkSizeAfter(st.chunkSize, j.msg));
      var tail := EncodeAll(After(out, j), jobs[1..], c);
      assert Encode(o, j, c) + tail + rest == Encode(o, j, c) + (tail + rest);
      MessageRoundTrip(st, o, j, c, tail + rest);
      StaysSynced(out, st.lanes, j);
      RoundTripAll(st1, After(out, j), jobs[1..], c, rest);
      assert [j.msg] + Messages(jobs[1..]) + ParseAll(InAfter(st, out, jobs), rest).msgs
          == [j.msg] + (Messages(jobs[1..]) + ParseAll(InAfter(st, out, jobs), rest).msgs);
    }
  }
}
