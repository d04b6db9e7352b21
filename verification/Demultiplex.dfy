/**
  Chunks of different chunk streams may be interleaved at will: each stream is received as if it were
  alone.
 */
module Demultiplex {
  import opened Bytes
  import opened ChunkFormat
  import opened ChunkParser
  import opened Sequences
  import opened Wrappers
  import ChunkTheorems
  import ChunkWriter
  import RoundTrip

  /** One chunk on the wire, in any of the basic header's forms. */
  datatype Raw = Raw(csid: uint32, fmt: Fmt, basic: seq<byte>, tail: seq<byte>)

  function StepOn(l: Lane, k: int, r: Raw): Step {
    StepLane(l, r.csid, r.fmt, k, r.tail)
  }

  /** The receiver takes exactly this chunk, and its chunk size stays `k`. */
  predicate Fits(l: Lane, k: int, r: Raw) {
    && |r.basic| >= 1 && ParseBasic(r.basic) == Basic(r.fmt, r.csid, |r.basic|)
    && |r.basic| + |r.tail| > 1
    && var step := StepOn(l, k, r);
       && step.Taken? && step.used == |r.tail|
       && (step.done.Some? ==> ChunkSizeAfter(k, step.done.value) == k)
  }

  function Completed(done: Option<Message>): seq<Message> {
    if done.Some? then [done.value] else []
  }

  // One stream alone.

  predicate LaneFormed(l: Lane, k: int, rs: seq<Raw>)
    decreases |rs|
  {
    |rs| == 0 || (Fits(l, k, rs[0]) && LaneFormed(StepOn(l, k, rs[0]).lane, k, rs[1..]))
  }

  function LaneRun(l: Lane, k: int, rs: seq<Raw>): (Lane, seq<Message>)
    requires LaneFormed(l, k, rs)
    decreases |rs|
  {
    if |rs| == 0 then (l, [])
    else
      var step := StepOn(l, k, rs[0]);
      var (l', ms) := LaneRun(step.lane, k, rs[1..]);
      (l', Completed(step.done) + ms)
  }

  // All streams together.

  predicate Formed(lanes: map<uint32, Lane>, k: int, rs: seq<Raw>)
    decreases |rs|
  {
    |rs| == 0 ||
    var r := rs[0];
    && Fits(LaneOf(lanes, r.csid), k, r)
    && Formed(lanes[r.csid := StepOn(LaneOf(lanes, r.csid), k, r).lane], k, rs[1..])
  }

  function Run(lanes: map<uint32, Lane>, k: int, rs: seq<Raw>): (map<uint32, Lane>, seq<Message>)
    requires Formed(lanes, k, rs)
    decreases |rs|
  {
    if |rs| == 0 then (lanes, [])
    else
      var r := rs[0];
      var step := StepOn(LaneOf(lanes, r.csid), k, r);
      var (lanes', ms) := Run(lanes[r.csid := step.lane], k, rs[1..]);
      (lanes', Completed(step.done) + ms)
  }

  function Wire(rs: seq<Raw>): seq<byte> {
    if |rs| == 0 then [] else rs[0].basic + rs[0].tail + Wire(rs[1..])
  }

  /** The chunks of one stream. */
  function Only(rs: seq<Raw>, csid: uint32): (only: seq<Raw>)
    ensures |only| <= |rs|
  {
    if |rs| == 0 then [] else (if rs[0].csid == csid then [rs[0]] else []) + Only(rs[1..], csid)
  }

  function MessagesOn(ms: seq<Message>, csid: uint32): seq<Message> {
    if |ms| == 0 then [] else (if ms[0].csid == csid then [ms[0]] else []) + MessagesOn(ms[1..], csid)
  }

  /** An open packet belongs to its stream, and never outgrows its allocation. */
  predicate LaneOk(l: Lane, csid: uint32) {
    l.partial.Some? ==> l.partial.value.header.csid == csid && |l.partial.value.data| <= l.partial.value.capacity
  }

  ghost predicate AllOk(lanes: map<uint32, Lane>) {
    forall csid: uint32 :: LaneOk(LaneOf(lanes, csid), csid)
  }

  /** Every attempt at a chunk keeps the packet within its allocation, and completes it exactly full. */
  lemma StepKeepsOk(l: Lane, csid: uint32, fmt: Fmt, k: int, t: seq<byte>)
    requires LaneOk(l, csid) && k > 0
    ensures
      var step := StepLane(l, csid, fmt, k, t);
      && (!step.Short? ==> LaneOk(step.lane, csid))
      && (step.Taken? && step.done.Some? ==>
          && step.lane.partial == None
          && step.done.value.csid == csid
          && (l.partial.Some? ==> |step.done.value.body| == l.partial.value.capacity))
  {
    hide TakeBody, Read24, Read32, Load32;
    if |t| > 0 && |t| >= HeaderLength(fmt) {
      var p := OpenPacket(l, csid, fmt, k, t);
      var (h, d) := ReadHeader(l, p.header, fmt, t);
      var n := HeaderLength(fmt);
      hide OpenPacket, ReadHeader;
      if !(if fmt == 3 then l.ext else Read24(t) == EXTENDED) {
        StepPlain(l, csid, fmt, k, t, p, h, d);
        TakeKeepsOk(Lane(l.prev, None, d, false), csid, p.(header := h), k, t, n);
      } else if |t| >= n + 4 {
        StepExtended(l, csid, fmt, k, t, p, h, d);
        var ts := Read32(t[n..]);
        TakeKeepsOk(Lane(l.prev, None, d, true), csid, p.(header := h), k, t, n + 4);
        TakeKeepsOk(Lane(l.prev, None, ts, true), csid,
                    p.(header := h.(timestamp := (ts as int + l.prev.timestamp) % TWO32)), k, t, n + 4);
      }
    }
  }

  lemma TakeKeepsOk(l: Lane, csid: uint32, p: Partial, k: int, t: seq<byte>, n: nat)
    requires n <= |t| && k > 0
    requires p.header.csid == csid && |p.data| <= p.capacity
    ensures
      var step := TakeBody(l, p, k, t, n);
      && !step.Short? && LaneOk(step.lane, csid)
      && (step.Taken? && step.done.Some? ==>
          step.lane.partial == None && step.done.value.csid == csid && |step.done.value.body| == p.capacity)
  {
  }

  /** An open packet holds no more bytes than it was allocated for, or none. */
  predicate Contained(l: Lane) {
    l.partial.Some? && l.partial.value.data != [] ==> |l.partial.value.data| <= l.partial.value.capacity
  }

  ghost predicate AllContained(lanes: map<uint32, Lane>) {
    forall csid: uint32 :: Contained(LaneOf(lanes, csid))
  }

  lemma StepContained(l: Lane, csid: uint32, fmt: Fmt, k: int, t: seq<byte>)
    requires Contained(l)
    ensures var step := StepLane(l, csid, fmt, k, t); !step.Short? ==> Contained(step.lane)
  {
    hide Read24, Read32, Load32, ReadHeader;
  }

  /** No byte is ever written beyond a packet, whatever the input and whatever chunk size is in force. */
  lemma {:induction false} PacketsContained(st: InState, s: seq<byte>)
    requires AllContained(st.lanes)
    ensures AllContained(ParseAll(st, s).st.lanes)
    decreases |s|
  {
    hide ChunkSizeAfter;
    if |s| > 1 {
      ChunkContained(st, s);
      hide ParseChunk, AllContained;
      var c := ParseChunk(st, s);
      if c.Next? {
        PacketsContained(c.st, s[c.used..]);
      }
    }
  }

  lemma ChunkContained(st: InState, s: seq<byte>)
    requires AllContained(st.lanes) && |s| > 1
    ensures AllContained(ParseChunk(st, s).st.lanes)
  {
    var b := ParseBasic(s);
    if b.Basic? {
      StepContained(LaneOf(st.lanes, b.csid), b.csid, b.fmt, st.chunkSize, s[b.length..]);
      hide StepLane, Contained;
      var c := ParseChunk(st, s);
      forall csid: uint32 ensures Contained(LaneOf(c.st.lanes, csid)) {
        assert Contained(LaneOf(st.lanes, csid));
      }
    }
  }

  /** No message announces a chunk size outside 1 to 2^31 - 1. */
  predicate SizesPositive(ms: seq<Message>) {
    forall m :: m in ms ==> ChunkSizeAfter(1, m) > 0
  }

  /**
    The same, for every chunk stream at once, over any input in which no completed message announces a
    chunk size of zero or below.
   */
  lemma {:induction false} ParsingKeepsOk(st: InState, s: seq<byte>)
    requires AllOk(st.lanes) && st.chunkSize > 0
    requires SizesPositive(ParseAll(st, s).msgs)
    ensures AllOk(ParseAll(st, s).st.lanes) && ParseAll(st, s).st.chunkSize > 0
    decreases |s|
  {
    hide ParseChunk, AllOk, ChunkSizeAfter;
    if |s| > 1 {
      ChunkKeepsOk(st, s);
      var c := ParseChunk(st, s);
      if c.Next? {
        var o := ParseAll(c.st, s[c.used..]);
        assert ParseAll(st, s) == Cons(c.done, o);
        hide ParseAll;
        assert c.done.Some? ==> Cons(c.done, o).msgs[0] == c.done.value;
        assert forall m :: m in o.msgs ==> m in Cons(c.done, o).msgs;
        ParsingKeepsOk(c.st, s[c.used..]);
      }
    }
  }

  lemma ChunkKeepsOk(st: InState, s: seq<byte>)
    requires AllOk(st.lanes) && st.chunkSize > 0 && |s| > 1
    ensures var c := ParseChunk(st, s);
      && AllOk(c.st.lanes)
      && (c.Next? && c.done.Some? && ChunkSizeAfter(1, c.done.value) > 0 ==> c.st.chunkSize > 0)
      && (c.Wait? || c.done.None? ==> c.st.chunkSize > 0)
  {
    var b := ParseBasic(s);
    if b.Basic? {
      StepKeepsOk(LaneOf(st.lanes, b.csid), b.csid, b.fmt, st.chunkSize, s[b.length..]);
      hide StepLane, LaneOk;
      var c := ParseChunk(st, s);
      forall csid: uint32 ensures LaneOk(LaneOf(c.st.lanes, csid), csid) {
        assert LaneOk(LaneOf(st.lanes, csid), csid);
      }
    }
  }

  // ---------------------------------------------------------------------------------------------
  // The theorems
  // ---------------------------------------------------------------------------------------------

  /** The parsing loop on the wire image of well-formed chunks is `Run`. */
  lemma {:induction false} WireParses(lanes: map<uint32, Lane>, k: int, rs: seq<Raw>, rest: seq<byte>)
    requires Formed(lanes, k, rs)
    ensures
      var (lanes', ms) := Run(lanes, k, rs);
      ParseAll(InState(lanes, k), Wire(rs) + rest) == RoundTrip.Prepend(ms, ParseAll(InState(lanes', k), rest))
    decreases |rs|
  {
    hide StepLane, ParseBasic, ParseAll, ChunkSizeAfter;
    if |rs| == 0 {
      assert [] + rest == rest;
      assert [] + ParseAll(InState(lanes, k), rest).msgs == ParseAll(InState(lanes, k), rest).msgs;
    } else {
      var r := rs[0];
      var step := StepOn(LaneOf(lanes, r.csid), k, r);
      var lanes1 := lanes[r.csid := step.lane];
      assert Wire(rs) + rest == r.basic + r.tail + (Wire(rs[1..]) + rest);
      OneRaw(lanes, k, r, Wire(rs[1..]) + rest);
      WireParses(lanes1, k, rs[1..], rest);
      var (lanes', ms) := Run(lanes1, k, rs[1..]);
      var last := ParseAll(InState(lanes', k), rest).msgs;
      assert Completed(step.done) + ms + last == Completed(step.done) + (ms + last);
    }
  }

  lemma BasicAlone(basic: seq<byte>, rest: seq<byte>)
    requires |basic| >= 1 && ParseBasic(basic).Basic?
    ensures ParseBasic(basic + rest) == ParseBasic(basic)
  {
  }

  lemma RawParsed(lanes: map<uint32, Lane>, k: int, r: Raw, rest: seq<byte>)
    requires Fits(LaneOf(lanes, r.csid), k, r)
    ensures
      var step := StepOn(LaneOf(lanes, r.csid), k, r);
      ParseChunk(InState(lanes, k), r.basic + (r.tail + rest))
      == Next(InState(lanes[r.csid := step.lane], k), |r.basic| + |r.tail|, step.done)
  {
    hide StepLane, ParseBasic, ChunkSizeAfter;
    BasicAlone(r.basic, r.tail + rest);
    Halves(r.basic, r.tail + rest, |r.tail|);
    TakenExtends(LaneOf(lanes, r.csid), r.csid, r.fmt, k, r.tail, rest);
  }

  lemma OneRaw(lanes: map<uint32, Lane>, k: int, r: Raw, rest: seq<byte>)
    requires Fits(LaneOf(lanes, r.csid), k, r)
    ensures
      var step := StepOn(LaneOf(lanes, r.csid), k, r);
      ParseAll(InState(lanes, k), r.basic + r.tail + rest)
      == RoundTrip.Prepend(Completed(step.done), ParseAll(InState(lanes[r.csid := step.lane], k), rest))
  {
    hide StepLane, ParseBasic, ChunkSizeAfter, ParseChunk;
    var step := StepOn(LaneOf(lanes, r.csid), k, r);
    RawParsed(lanes, k, r, rest);
    Thirds(r.basic, r.tail, rest);
    var o := ParseAll(InState(lanes[r.csid := step.lane], k), rest);
    assert Cons(step.done, o) == RoundTrip.Prepend(Completed(step.done), o) by {
      assert [] + o.msgs == o.msgs;
    }
  }

  lemma MessagesOnAppend(a: seq<Message>, b: seq<Message>, csid: uint32)
    ensures MessagesOn(a + b, csid) == MessagesOn(a, csid) + MessagesOn(b, csid)
    decreases |a|
  {
    if |a| == 0 {
      assert a + b == b;
    } else {
      assert (a + b)[0] == a[0] && (a + b)[1..] == a[1..] + b;
      MessagesOnAppend(a[1..], b, csid);
      Assoc3([a[0]], MessagesOn(a[1..], csid), MessagesOn(b, csid));
    }
  }

  /**
    Any interleaving of chunk sequences that each stream could receive alone is received, and each
    stream ends in the state, and completes the messages, that it would have alone.
   */
  lemma {:induction false} InterleavingIsInvisible(lanes: map<uint32, Lane>, k: int, rs: seq<Raw>)
    requires AllOk(lanes) && k > 0
    requires forall csid: uint32 :: LaneFormed(LaneOf(lanes, csid), k, Only(rs, csid))
    ensures Formed(lanes, k, rs)
    ensures forall csid: uint32 ::
      LaneRun(LaneOf(lanes, csid), k, Only(rs, csid))
      == (LaneOf(Run(lanes, k, rs).0, csid), MessagesOn(Run(lanes, k, rs).1, csid))
    decreases |rs|
  {
    if |rs| != 0 {
      var r := rs[0];
      var l := LaneOf(lanes, r.csid);
      assert LaneFormed(l, k, Only(rs, r.csid));
      assert Only(rs, r.csid) == [r] + Only(rs[1..], r.csid);
      assert Only(rs, r.csid)[1..] == Only(rs[1..], r.csid);
      var step := StepOn(l, k, r);
      var lanes1 := lanes[r.csid := step.lane];
      StepKeepsOk(l, r.csid, r.fmt, k, r.tail);
      hide StepLane, ParseBasic, ChunkSizeAfter, LaneOk;
      forall csid: uint32 ensures LaneFormed(LaneOf(lanes1, csid), k, Only(rs[1..], csid)) {
        assert LaneFormed(LaneOf(lanes, csid), k, Only(rs, csid));
        if csid != r.csid {
          assert Only(rs, csid) == Only(rs[1..], csid);
        }
      }
      forall csid: uint32 ensures LaneOk(LaneOf(lanes1, csid), csid) {
        assert LaneOk(LaneOf(lanes, csid), csid);
      }
      InterleavingIsInvisible(lanes1, k, rs[1..]);
      forall csid: uint32 ensures
        LaneRun(LaneOf(lanes, csid), k, Only(rs, csid))
        == (LaneOf(Run(lanes, k, rs).0, csid), MessagesOn(Run(lanes, k, rs).1, csid))
      {
        InterleavedHead(lanes, k, rs, csid);
      }
    }
  }

  /** The induction step of the theorem above, for one stream. */
  lemma InterleavedHead(lanes: map<uint32, Lane>, k: int, rs: seq<Raw>, csid: uint32)
    requires |rs| != 0 && Formed(lanes, k, rs)
    requires LaneFormed(LaneOf(lanes, csid), k, Only(rs, csid))
    requires
      var step := StepOn(LaneOf(lanes, rs[0].csid), k, rs[0]);
      var lanes1 := lanes[rs[0].csid := step.lane];
      && (step.done.Some? ==> step.done.value.csid == rs[0].csid)
      && LaneFormed(LaneOf(lanes1, csid), k, Only(rs[1..], csid))
      && LaneRun(LaneOf(lanes1, csid), k, Only(rs[1..], csid))
         == (LaneOf(Run(lanes1, k, rs[1..]).0, csid), MessagesOn(Run(lanes1, k, rs[1..]).1, csid))
    ensures
      LaneRun(LaneOf(lanes, csid), k, Only(rs, csid))
      == (LaneOf(Run(lanes, k, rs).0, csid), MessagesOn(Run(lanes, k, rs).1, csid))
  {
    hide StepLane, ParseBasic, ChunkSizeAfter;
    var r := rs[0];
    var step := StepOn(LaneOf(lanes, r.csid), k, r);
    var lanes1 := lanes[r.csid := step.lane];
    var ms := Run(lanes1, k, rs[1..]).1;
    MessagesOnAppend(Completed(step.done), ms, csid);
    assert MessagesOn(Completed(step.done), csid) == if csid == r.csid then Completed(step.done) else [];
    if csid == r.csid {
      assert Only(rs, csid) == [r] + Only(rs[1..], csid);
      assert Only(rs, csid)[1..] == Only(rs[1..], csid);
    } else {
      assert Only(rs, csid) == Only(rs[1..], csid);
      assert [] + MessagesOn(ms, csid) == MessagesOn(ms, csid);
    }
  }

  lemma {:induction false} OnlyTwice(rs: seq<Raw>, csid: uint32, c: uint32)
    ensures Only(Only(rs, csid), c) == if c == csid then Only(rs, csid) else []
  {
    if |rs| != 0 {
      OnlyTwice(rs[1..], csid, c);
      var only := Only(rs[1..], csid);
      if rs[0].csid == csid {
        assert Only(rs, csid) == [rs[0]] + only;
        assert ([rs[0]] + only)[1..] == only;
        assert [] + Only(only, c) == Only(only, c);
      } else {
        assert Only(rs, csid) == only;
      }
    }
  }

  lemma AllOnOneStream(jobs: seq<ChunkWriter.Job>, csid: uint32)
    requires forall j :: j in jobs ==> j.msg.csid == csid
    ensures MessagesOn(RoundTrip.Messages(jobs), csid) == RoundTrip.Messages(jobs)
  {
    if |jobs| != 0 {
      assert RoundTrip.Messages(jobs)[1..] == RoundTrip.Messages(jobs[1..]);
      assert jobs[0] in jobs;
      AllOnOneStream(jobs[1..], csid);
    }
  }

  lemma WholeWireParses(lanes: map<uint32, Lane>, k: int, rs: seq<Raw>)
    requires Formed(lanes, k, rs)
    ensures ParseAll(InState(lanes, k), Wire(rs)).msgs == Run(lanes, k, rs).1
  {
    hide Run, Wire, Formed;
    WireParses(lanes, k, rs, []);
    assert Wire(rs) + [] == Wire(rs);
    assert Run(lanes, k, rs).1 + [] == Run(lanes, k, rs).1;
  }

  lemma WholeRunParses(st: InState, out: map<uint32, ChunkWriter.OutLane>, jobs: seq<ChunkWriter.Job>, c: nat)
    requires c > 0 && ChunkWriter.Sized(jobs)
    requires RoundTrip.AllSynced(out, st.lanes) && RoundTrip.RunInScope(out, jobs, st.chunkSize, c)
    ensures ParseAll(st, ChunkWriter.EncodeAll(out, jobs, c)).msgs == RoundTrip.Messages(jobs)
  {
    ChunkTheorems.PrefixDelivery(st, out, jobs, c, ChunkWriter.EncodeAll(out, jobs, c));
  }

  /**
    Demultiplexing: if the chunks of stream `csid`, taken out of the interleaved wire, are the image of
    a run of messages, then those messages complete, in order, whatever the other streams carry.
   */
  lemma Demultiplexed(
    lanes: map<uint32, Lane>, k: nat, rs: seq<Raw>, csid: uint32,
    out: map<uint32, ChunkWriter.OutLane>, jobs: seq<ChunkWriter.Job>)
    requires AllOk(lanes) && k > 0 && ChunkWriter.Sized(jobs)
    requires forall c: uint32 :: LaneFormed(LaneOf(lanes, c), k, Only(rs, c))
    requires RoundTrip.AllSynced(out, lanes) && RoundTrip.RunInScope(out, jobs, k, k)
    requires forall j :: j in jobs ==> j.msg.csid == csid
    requires Wire(Only(rs, csid)) == ChunkWriter.EncodeAll(out, jobs, k)
    ensures MessagesOn(ParseAll(InState(lanes, k), Wire(rs)).msgs, csid) == RoundTrip.Messages(jobs)
  {
    hide ParseAll, AllOk, RoundTrip.AllSynced, RoundTrip.RunInScope, ChunkWriter.EncodeAll;
    hide Run, Formed, Wire, MessagesOn, LaneRun;
    var only := Only(rs, csid);
    forall c: uint32 ensures LaneFormed(LaneOf(lanes, c), k, Only(only, c)) {
      OnlyTwice(rs, csid, c);
      assert LaneFormed(LaneOf(lanes, c), k, Only(rs, c));
    }
    hide LaneFormed;
    OnlyTwice(rs, csid, csid);
    hide Only;
    InterleavingIsInvisible(lanes, k, rs);
    InterleavingIsInvisible(lanes, k, only);
    WholeWireParses(lanes, k, rs);
    WholeWireParses(lanes, k, only);
    WholeRunParses(InState(lanes, k), out, jobs, k);
    AllOnOneStream(jobs, csid);
    assert LaneRun(LaneOf(lanes, csid), k, only).1 == MessagesOn(Run(lanes, k, only).1, csid);
  }
}
