/**
  The chunk headers are as short as the receiver allows: no bytes at all make it complete the same message
  from the same history in fewer bytes.
 */
module Shortest {
  import opened Bytes
  import opened ChunkFormat
  import opened ChunkParser
  import opened ChunkWriter
  import opened Demultiplex
  import opened RoundTrip
  import opened Wrappers

  /** The fewest bytes of a message header, with its extension, that let the receiver know `m` from `l`. */
  function LeastHeader(l: Lane, m: Message): nat {
    if m.msgSid != l.prev.msgSid then (if m.timestamp >= EXTENDED then 15 else 11)
    else if |m.body| != l.prev.msgLen || m.msgType != l.prev.msgType then 7
    else if m.timestamp != (l.delta as int + l.prev.timestamp) % TWO32 then 3
    else 0
  }

  /** The fewest bytes of a basic header for a chunk stream. */
  function LeastBasic(csid: uint32): nat {
    if csid < 64 then 1 else if csid < 320 then 2 else 3
  }

  /** A chunk that starts a packet and completes it. */
  lemma WholeChunk(l: Lane, csid: uint32, fmt: Fmt, k: int, t: seq<byte>)
    requires l.partial == None && !l.ext && l.prev.msgLen != 0
    requires StepLane(l, csid, fmt, k, t).Taken? && StepLane(l, csid, fmt, k, t).done.Some?
    ensures
      var step := StepLane(l, csid, fmt, k, t);
      step.used >= LeastHeader(l, step.done.value) + |step.done.value.body|
  {
    hide Read24, Read32, Load32;
  }

  /** A chunk that starts a packet and leaves it open: there is more to come than one chunk carries. */
  lemma PartChunk(l: Lane, csid: uint32, fmt: Fmt, k: int, t: seq<byte>)
    requires l.partial == None && k > 0
    requires StepLane(l, csid, fmt, k, t).Taken? && StepLane(l, csid, fmt, k, t).done.None?
    ensures
      var step := StepLane(l, csid, fmt, k, t);
      step.lane.partial.Some? && step.lane.partial.value.capacity > k
  {
    hide Read24, Read32, Load32, ReadHeader;
  }

  /** A packet keeps its capacity until it is complete, and is complete when it is full. */
  lemma OpenChunk(l: Lane, csid: uint32, fmt: Fmt, k: int, t: seq<byte>)
    requires l.partial.Some? && StepLane(l, csid, fmt, k, t).Taken?
    ensures
      var step := StepLane(l, csid, fmt, k, t);
      if step.done.Some? then |step.done.value.body| == l.partial.value.capacity
      else step.lane.partial.Some? && step.lane.partial.value.capacity == l.partial.value.capacity
  {
    hide Read24, Read32, Load32, ReadHeader;
  }

  lemma BasicTakes(s: seq<byte>)
    requires |s| >= 1 && ParseBasic(s).Basic?
    ensures ParseBasic(s).length >= LeastBasic(ParseBasic(s).csid)
  {
  }

  /** The stream is as it was at first, or busy with a packet too long to be `m`. */
  predicate Waiting(l: Lane, start: Lane, m: Message) {
    l == start || (l.partial.Some? && l.partial.value.capacity > |m.body|)
  }

  /** One chunk on the way to `m`. */
  lemma OneChunk(st: InState, s: seq<byte>, start: Lane, m: Message)
    requires AllOk(st.lanes) && 0 < |m.body| <= st.chunkSize && |s| > 1
    requires start.partial == None && !start.ext && start.prev.msgLen != 0
    requires Waiting(LaneOf(st.lanes, m.csid), start, m) && ParseChunk(st, s).Next?
    ensures
      var c := ParseChunk(st, s);
      if c.done == Some(m) then c.used >= LeastBasic(m.csid) + LeastHeader(start, m) + |m.body|
      else c.done.None? ==>
        AllOk(c.st.lanes) && c.st.chunkSize == st.chunkSize && Waiting(LaneOf(c.st.lanes, m.csid), start, m)
  {
    hide StepLane, LeastHeader, LeastBasic, ChunkSizeAfter, LaneOk;
    var b := ParseBasic(s);
    var l, t := LaneOf(st.lanes, b.csid), s[b.length..];
    var step := StepLane(l, b.csid, b.fmt, st.chunkSize, t);
    BasicTakes(s);
    hide ParseBasic;
    assert LaneOk(l, b.csid);
    StepKeepsOk(l, b.csid, b.fmt, st.chunkSize, t);
    if l.partial.Some? {
      OpenChunk(l, b.csid, b.fmt, st.chunkSize, t);
    } else if step.done.None? {
      PartChunk(l, b.csid, b.fmt, st.chunkSize, t);
    } else if b.csid == m.csid {
      WholeChunk(l, b.csid, b.fmt, st.chunkSize, t);
    }
    var lanes := st.lanes[b.csid := step.lane];
    forall csid: uint32 ensures LaneOk(LaneOf(lanes, csid), csid) {
      assert LaneOk(LaneOf(st.lanes, csid), csid);
    }
  }

  lemma {:induction false} FirstComplete(st: InState, s: seq<byte>, start: Lane, m: Message)
    requires AllOk(st.lanes) && 0 < |m.body| <= st.chunkSize
    requires start.partial == None && !start.ext && start.prev.msgLen != 0
    requires Waiting(LaneOf(st.lanes, m.csid), start, m)
    ensures
      var ms := ParseAll(st, s).msgs;
      |ms| > 0 && ms[0] == m ==> |s| >= LeastBasic(m.csid) + LeastHeader(start, m) + |m.body|
    decreases |s|
  {
    hide ParseChunk, AllOk, Waiting, LeastHeader, LeastBasic;
    if |s| > 1 {
      var c := ParseChunk(st, s);
      if c.Next? {
        OneChunk(st, s, start, m);
        if c.done.None? {
          FirstComplete(c.st, s[c.used..], start, m);
        }
      }
    }
  }

  /** The encoder's header for a message that does not go back in time is that short. */
  lemma EncoderTakesLeast(o: OutLane, j: Job, c: nat)
    requires o.prev.Some? && !j.fmt0 && CsidInRange(j.msg.csid)
    requires 0 <= j.msg.timestamp - o.prev.value.timestamp < EXTENDED
    requires 0 < |j.msg.body| <= c && |j.msg.body| < TWO32
    ensures |Encode(o, j, c)| == LeastBasic(j.msg.csid) + LeastHeader(Mirror(o), j.msg) + |j.msg.body|
  {
    hide BasicHeader, MessageHeader, ExtendedField;
    BasicLength(PickFmt(o, j), j.msg.csid);
  }

  lemma BasicLength(fmt: Fmt, csid: uint32)
    ensures |BasicHeader(fmt, csid)| == LeastBasic(csid)
  {
  }

  /**
    Nothing shorter will do. A message that follows another on its chunk stream, not earlier than that and
    less than 0xFFFFFF milliseconds later: whatever bytes make a receiver in step with the sender complete
    it, they are at least as many as the encoder writes.
   */
  lemma NothingShorter(st: InState, o: OutLane, j: Job, s: seq<byte>)
    requires AllOk(st.lanes) && Synced(o, LaneOf(st.lanes, j.msg.csid))
    requires o.prev.Some? && o.prev.value.msgLen != 0 && !j.fmt0 && CsidInRange(j.msg.csid)
    requires 0 <= j.msg.timestamp - o.prev.value.timestamp < EXTENDED
    requires 0 < |j.msg.body| <= st.chunkSize && |j.msg.body| < TWO32
    requires |ParseAll(st, s).msgs| > 0 && ParseAll(st, s).msgs[0] == j.msg
    ensures |s| >= |Encode(o, j, st.chunkSize)|
  {
    FirstComplete(st, s, Mirror(o), j.msg);
    EncoderTakesLeast(o, j, st.chunkSize);
  }

  // ---------------------------------------------------------------------------------------------
  // Where history is not relied on
  // ---------------------------------------------------------------------------------------------

  /** There is nothing before the message on its chunk stream that a shorter header could refer to. */
  predicate StandsAlone(o: OutLane, j: Job) {
    || j.fmt0 || o.prev.None?
    || j.msg.timestamp < o.prev.value.timestamp || j.msg.msgSid != o.prev.value.msgSid
  }

  /** A full header is read alike under any history. */
  lemma FullStep(l1: Lane, l2: Lane, csid: uint32, k: int, t: seq<byte>)
    requires l1.partial == l2.partial == None && StepLane(l1, csid, 0, k, t).Taken?
    ensures StepLane(l2, csid, 0, k, t) == StepLane(l1, csid, 0, k, t)
  {
    hide Read24, Read32, Load32;
  }

  /** The state with a stream's history wiped. */
  function Wiped(st: InState, csid: uint32): InState {
    st.(lanes := st.lanes[csid := FRESH_LANE])
  }

  lemma FullChunk(st: InState, csid: uint32, t: seq<byte>)
    requires CsidInRange(csid) && LaneOf(st.lanes, csid).partial == None
    requires |BasicHeader(0, csid) + t| > 1
    requires StepLane(FRESH_LANE, csid, 0, st.chunkSize, t).Taken?
    ensures ParseChunk(st, BasicHeader(0, csid) + t) == ParseChunk(Wiped(st, csid), BasicHeader(0, csid) + t)
  {
    hide BasicHeader, StepLane, ParseBasic, ChunkSizeAfter;
    var s := BasicHeader(0, csid) + t;
    BasicHeaderParses(0, csid, t);
    assert s[|BasicHeader(0, csid)|..] == t;
    FullStep(FRESH_LANE, LaneOf(st.lanes, csid), csid, st.chunkSize, t);
    var lane := StepLane(FRESH_LANE, csid, 0, st.chunkSize, t).lane;
    assert st.lanes[csid := FRESH_LANE][csid := lane] == st.lanes[csid := lane];
  }

  /** Its encoding is that of the first message ever sent. */
  lemma AloneIsFirst(o: OutLane, j: Job, c: nat)
    requires c > 0 && StandsAlone(o, j) && |j.msg.body| < TWO32
    ensures Encode(o, j, c) == Encode(FRESH_OUT, j, c)
    ensures PickFmt(FRESH_OUT, j) == 0 && Field(FRESH_OUT, j) == j.msg.timestamp
  {
    hide Chunks, BasicHeader, MessageHeader, ExtendedField;
  }

  /**
    A message that stands alone is received by anybody who has no packet open on its chunk stream, whatever
    history there is: it completes unchanged, with nothing left over.
   */
  lemma AnyReceiver(st: InState, o: OutLane, j: Job, c: nat)
    requires StandsAlone(o, j) && CsidInRange(j.msg.csid) && j.msg.timestamp < EXTENDED
    requires |j.msg.body| < 0x100_0000 && CutAlike(st.chunkSize, c, |j.msg.body|)
    requires LaneOf(st.lanes, j.msg.csid).partial == None
    ensures
      var r := ParseAll(st, Encode(o, j, c));
      r.msgs == [j.msg] && r.rest == []
  {
    hide Encode, LaneAfter, PickFmt, Field, ParseChunk, BasicHeader, MessageHeader, Chunks, StandsAlone;
    var csid, s := j.msg.csid, Encode(FRESH_OUT, j, c);
    var wiped := Wiped(st, csid);
    AloneIsFirst(o, j, c);
    assert s + [] == s;
    MessageRoundTrip(wiped, FRESH_OUT, j, c, []);
    ParseEmpty(InState(wiped.lanes[csid := Mirror(LaneAfter(FRESH_OUT, j))], ChunkSizeAfter(wiped.chunkSize, j.msg)));
    FullFirst(st, j, c);
    hide ParseAll;
    SameChunkSameParse(st, wiped, s);
  }

  lemma ParseEmpty(st: InState)
    ensures ParseAll(st, []) == Outcome(st, [], [])
  {
  }

  lemma SameChunkSameParse(a: InState, b: InState, s: seq<byte>)
    requires |s| > 1 && ParseChunk(a, s) == ParseChunk(b, s)
    ensures ParseAll(a, s) == ParseAll(b, s)
  {
  }

  /** The first chunk of such a message is taken alike by a receiver that knows nothing. */
  lemma FullFirst(st: InState, j: Job, c: nat)
    requires CsidInRange(j.msg.csid) && j.msg.timestamp < EXTENDED
    requires |j.msg.body| < 0x100_0000 && CutAlike(st.chunkSize, c, |j.msg.body|)
    requires LaneOf(st.lanes, j.msg.csid).partial == None
    ensures
      var s := Encode(FRESH_OUT, j, c);
      |s| > 1 && ParseChunk(st, s) == ParseChunk(Wiped(st, j.msg.csid), s)
  {
    hide ExtendedField, BasicHeader, MessageHeader, Chunks, Encode, StepLane, ParseChunk, NextHeader;
    var m := j.msg;
    var field := Field(FRESH_OUT, j);
    var next := NextHeader(m.csid, field);
    var rest: seq<byte> := [];
    var after := if |m.body| <= c then rest else next + Chunks(m.body[c..], c, next) + rest;
    FirstLayout(FRESH_OUT, j, c, rest);
    assert Encode(FRESH_OUT, j, c) + [] == Encode(FRESH_OUT, j, c);
    assert Min(|m.body|, c) == Min(|m.body|, st.chunkSize);
    FirstChunk(FRESH_OUT, FRESH_LANE, j, st.chunkSize, after);
    var t := MessageHeader(0, field, m) + (ExtendedField(field) + (m.body[..Min(|m.body|, c)] + after));
    FullChunk(st, m.csid, t);
  }
}
