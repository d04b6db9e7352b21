/** What encoders put on different chunk streams of one wire, interleaved at chunk boundaries. */
module Interleaving {
  import opened Bytes
  import opened ChunkFormat
  import opened ChunkParser
  import opened ChunkWriter
  import opened Demultiplex
  import opened RoundTrip
  import opened Sequences
  import opened Wrappers

  /** The chunks of a body from its `i`th byte on. */
  function LaterRaws(m: Message, i: nat, c: nat): seq<Raw>
    requires c > 0 && i <= |m.body|
    decreases |m.body| - i
  {
    if i == |m.body| then []
    else
      var size := Min(|m.body| - i, c);
      [Raw(m.csid, 3, BasicHeader(3, m.csid), m.body[i..i + size])] + LaterRaws(m, i + size, c)
  }

  function FirstRaw(o: OutLane, j: Job, c: nat): Raw
    requires c > 0 && |j.msg.body| < TWO32
  {
    var fmt, m := PickFmt(o, j), j.msg;
    Raw(m.csid, fmt, BasicHeader(fmt, m.csid), MessageHeader(fmt, Field(o, j), m) + m.body[..Min(|m.body|, c)])
  }

  /** The chunks of one message. */
  function Raws(o: OutLane, j: Job, c: nat): seq<Raw>
    requires c > 0 && |j.msg.body| < TWO32
  {
    [FirstRaw(o, j, c)] + LaterRaws(j.msg, Min(|j.msg.body|, c), c)
  }

  /** The chunks of a run of messages on one chunk stream. */
  function AllRaws(o: OutLane, jobs: seq<Job>, c: nat): seq<Raw>
    requires c > 0 && Sized(jobs)
    decreases |jobs|
  {
    if |jobs| == 0 then [] else Raws(o, jobs[0], c) + AllRaws(LaneAfter(o, jobs[0]), jobs[1..], c)
  }

  /** A run of messages in scope on stream `csid`, none of which changes the receiver's chunk size `k`. */
  predicate LaneInScope(o: OutLane, jobs: seq<Job>, csid: uint32, k: int)
    decreases |jobs|
  {
    |jobs| == 0 ||
    var j := jobs[0];
    && InScope(o, j) && j.msg.csid == csid && ChunkSizeAfter(k, j.msg) == k
    && LaneInScope(LaneAfter(o, j), jobs[1..], csid, k)
  }

  lemma {:induction false} LaneRunIsSized(o: OutLane, jobs: seq<Job>, csid: uint32, k: int)
    requires LaneInScope(o, jobs, csid, k)
    ensures Sized(jobs)
    decreases |jobs|
  {
    hide InScope, ChunkSizeAfter;
    if |jobs| > 0 {
      InScopeIsSized(o, jobs[0]);
      LaneRunIsSized(LaneAfter(o, jobs[0]), jobs[1..], csid, k);
      assert forall i :: 0 < i < |jobs| ==> jobs[i] == jobs[1..][i - 1];
    }
  }

  lemma InScopeIsSized(o: OutLane, j: Job)
    requires InScope(o, j)
    ensures |j.msg.body| < 0x100_0000 && CsidInRange(j.msg.csid)
  {
  }

  // ---------------------------------------------------------------------------------------------
  // These are the bytes the encoder writes
  // ---------------------------------------------------------------------------------------------

  lemma {:induction false} WireAppend(a: seq<Raw>, b: seq<Raw>)
    ensures Wire(a + b) == Wire(a) + Wire(b)
  {
    if |a| == 0 {
      assert a + b == b;
    } else {
      assert (a + b)[0] == a[0] && (a + b)[1..] == a[1..] + b;
      WireAppend(a[1..], b);
      Assoc3(a[0].basic + a[0].tail, Wire(a[1..]), Wire(b));
    }
  }

  lemma {:induction false} LaterWire(m: Message, i: nat, c: nat)
    requires c > 0 && i < |m.body|
    ensures Wire(LaterRaws(m, i, c)) == BasicHeader(3, m.csid) + Chunks(m.body[i..], c, BasicHeader(3, m.csid))
    decreases |m.body| - i
  {
    hide BasicHeader;
    var b, body := BasicHeader(3, m.csid), m.body[i..];
    var size := Min(|body|, c);
    var later := LaterRaws(m, i + size, c);
    assert m.body[i..i + size] == body[..size] && m.body[i + size..] == body[size..];
    WireCons(Raw(m.csid, 3, b, body[..size]), later);
    if |body| > c {
      LaterWire(m, i + size, c);
      Assoc4(b, body[..size], b, Chunks(body[size..], c, b));
    } else {
      assert body[..size] == body && b + body + [] == b + body;
    }
  }

  lemma WireCons(r: Raw, rs: seq<Raw>)
    ensures Wire([r] + rs) == r.basic + r.tail + Wire(rs)
  {
    assert ([r] + rs)[1..] == rs;
  }

  lemma RawsWire(o: OutLane, j: Job, c: nat)
    requires c > 0 && |j.msg.body| < TWO32 && Field(o, j) < EXTENDED
    ensures Wire(Raws(o, j, c)) == Encode(o, j, c)
  {
    hide BasicHeader, MessageHeader, Field, PickFmt, Wire;
    var fmt, m := PickFmt(o, j), j.msg;
    var b, h, next := BasicHeader(fmt, m.csid), MessageHeader(fmt, Field(o, j), m), BasicHeader(3, m.csid);
    var size := Min(|m.body|, c);
    WireCons(FirstRaw(o, j, c), LaterRaws(m, size, c));
    NoField(Field(o, j));
    assert FirstHeader(o, j) == b + h && NextHeader(m.csid, Field(o, j)) == next;
    if |m.body| > c {
      LaterWire(m, c, c);
      Assoc4(b + h, m.body[..c], next, Chunks(m.body[c..], c, next));
      Assoc3(b, h, m.body[..c]);
    } else {
      assert m.body[..size] == m.body && Wire([]) == [] by { WireOfNone(); }
      Assoc3(b, h, m.body);
    }
  }

  lemma WireOfNone()
    ensures Wire([]) == []
  {
  }

  /** The chunks of a run are the encoder's image of it. */
  lemma {:induction false} AllRawsWire(out: map<uint32, OutLane>, jobs: seq<Job>, csid: uint32, k: int, c: nat)
    requires c > 0 && LaneInScope(OutLaneOf(out, csid), jobs, csid, k) && Sized(jobs)
    ensures Wire(AllRaws(OutLaneOf(out, csid), jobs, c)) == EncodeAll(out, jobs, c)
    decreases |jobs|
  {
    hide Encode, Raws, InScope, LaneAfter;
    if |jobs| == 0 {
      WireOfNone();
    } else {
      var o, j := OutLaneOf(out, csid), jobs[0];
      InScopeIsShort(o, j);
      RawsWire(o, j, c);
      assert OutLaneOf(After(out, j), csid) == LaneAfter(o, j);
      AllRawsWire(After(out, j), jobs[1..], csid, k, c);
      WireAppend(Raws(o, j, c), AllRaws(LaneAfter(o, j), jobs[1..], c));
    }
  }

  lemma InScopeIsShort(o: OutLane, j: Job)
    requires InScope(o, j)
    ensures Field(o, j) < EXTENDED
  {
  }

  // ---------------------------------------------------------------------------------------------
  // Each stream alone receives them
  // ---------------------------------------------------------------------------------------------

  /** `rs` takes the lane from `l` to `l'` and completes `ms`. */
  predicate Takes(l: Lane, k: int, rs: seq<Raw>, l': Lane, ms: seq<Message>) {
    LaneFormed(l, k, rs) && LaneRun(l, k, rs) == (l', ms)
  }

  lemma TakesOne(l: Lane, k: int, r: Raw, rs: seq<Raw>, l': Lane, ms: seq<Message>)
    requires Fits(l, k, r) && Takes(StepOn(l, k, r).lane, k, rs, l', ms)
    ensures Takes(l, k, [r] + rs, l', Completed(StepOn(l, k, r).done) + ms)
  {
    hide Fits, StepOn, Completed;
    assert ([r] + rs)[1..] == rs;
  }

  lemma TakesNothing(l: Lane, k: int, a: seq<Raw>, l1: Lane, ms: seq<Message>)
    requires |a| == 0 && Takes(l, k, a, l1, ms)
    ensures l1 == l && ms == []
  {
  }

  lemma TakesRest(l: Lane, k: int, a: seq<Raw>, l1: Lane, ms: seq<Message>) returns (later: seq<Message>)
    requires |a| > 0 && Takes(l, k, a, l1, ms)
    ensures Fits(l, k, a[0]) && StepOn(l, k, a[0]).Taken? && Takes(StepOn(l, k, a[0]).lane, k, a[1..], l1, later)
    ensures ms == Completed(StepOn(l, k, a[0]).done) + later
  {
    hide StepOn, Completed;
    later := LaneRun(StepOn(l, k, a[0]).lane, k, a[1..]).1;
  }

  lemma {:induction false} TakesAppend(
    l: Lane, k: int, a: seq<Raw>, l1: Lane, ms: seq<Message>, b: seq<Raw>, l2: Lane, ns: seq<Message>)
    requires Takes(l, k, a, l1, ms) && Takes(l1, k, b, l2, ns)
    ensures Takes(l, k, a + b, l2, ms + ns)
    decreases |a|
  {
    hide Fits, StepOn, Completed, Takes;
    if |a| == 0 {
      TakesNothing(l, k, a, l1, ms);
      assert a + b == b && ms + ns == ns;
    } else {
      var step, rest := StepOn(l, k, a[0]), a[1..];
      var later := TakesRest(l, k, a, l1, ms);
      TakesAppend(step.lane, k, rest, l1, later, b, l2, ns);
      TakesOne(l, k, a[0], rest + b, l2, later + ns);
      assert [a[0]] + (rest + b) == a + b;
      Assoc3(Completed(step.done), later, ns);
    }
  }

  lemma TakesNone(l: Lane, k: int)
    ensures Takes(l, k, [], l, [])
  {
  }

  lemma LaterFits(m: Message, delta: uint32, i: nat, k: int)
    requires 0 < i < |m.body| < 0x100_0000 && k > 0 && CsidInRange(m.csid) && (m.timestamp == 0 ==> delta == 0)
    requires ChunkSizeAfter(k, m) == k
    ensures
      var size := Min(|m.body| - i, k);
      var r := Raw(m.csid, 3, BasicHeader(3, m.csid), m.body[i..i + size]);
      var l := Midway(m, delta, false, i);
      && Fits(l, k, r)
      && StepOn(l, k, r) ==
         if i + size == |m.body| then Taken(Closed(m, delta, false), size, Some(m))
         else Taken(Midway(m, delta, false, i + size), size, None)
  {
    hide StepLane, BasicHeader, ParseBasic, ChunkSizeAfter;
    var size := Min(|m.body| - i, k);
    NoField(0);
    LaterChunk(m, 0, delta, i, k, []);
    assert [] + (m.body[i..i + size] + []) == m.body[i..i + size];
    HeaderAlone(3, m.csid);
  }

  lemma HeaderAlone(fmt: Fmt, csid: uint32)
    requires CsidInRange(csid)
    ensures ParseBasic(BasicHeader(fmt, csid)) == Basic(fmt, csid, |BasicHeader(fmt, csid)|)
    ensures |BasicHeader(fmt, csid)| >= 1
  {
    BasicHeaderParses(fmt, csid, []);
    assert BasicHeader(fmt, csid) + [] == BasicHeader(fmt, csid);
  }

  lemma {:induction false} LaterTaken(m: Message, delta: uint32, i: nat, k: int)
    requires 0 < i < |m.body| < 0x100_0000 && k > 0 && CsidInRange(m.csid) && (m.timestamp == 0 ==> delta == 0)
    requires ChunkSizeAfter(k, m) == k
    ensures Takes(Midway(m, delta, false, i), k, LaterRaws(m, i, k), Closed(m, delta, false), [m])
    decreases |m.body| - i
  {
    hide Fits, StepOn, BasicHeader, ChunkSizeAfter, Midway, Closed, Takes;
    var size := Min(|m.body| - i, k);
    var r := Raw(m.csid, 3, BasicHeader(3, m.csid), m.body[i..i + size]);
    var l := Midway(m, delta, false, i);
    LaterFits(m, delta, i, k);
    if i + size == |m.body| {
      TakesNone(Closed(m, delta, false), k);
      TakesOne(l, k, r, [], Closed(m, delta, false), []);
    } else {
      LaterTaken(m, delta, i + size, k);
      TakesOne(l, k, r, LaterRaws(m, i + size, k), Closed(m, delta, false), [m]);
    }
    assert [m] + [] == [m] && [] + [m] == [m];
  }

  lemma FirstFits(o: OutLane, j: Job, k: int)
    requires InScope(o, j) && k > 0 && ChunkSizeAfter(k, j.msg) == k
    ensures
      var m, r, d := j.msg, FirstRaw(o, j, k), FirstDelta(o, j);
      var size := Min(|m.body|, k);
      && Fits(Mirror(o), k, r)
      && StepOn(Mirror(o), k, r) ==
         if size == |m.body| then Taken(Closed(m, d, false), |r.tail|, Some(m))
         else Taken(Midway(m, d, false, size), |r.tail|, None)
  {
    hide StepLane, BasicHeader, ParseBasic, ChunkSizeAfter, MessageHeader, Field, PickFmt, FirstDelta;
    var m, fmt := j.msg, PickFmt(o, j);
    var h, body := MessageHeader(fmt, Field(o, j), m), m.body[..Min(|m.body|, k)];
    FirstChunk(o, Mirror(o), j, k, []);
    NoField(Field(o, j));
    assert h + ([] + (body + [])) == h + body;
    HeaderAlone(fmt, m.csid);
    FirstHasBytes(o, j, k);
  }

  /** A chunk is never its basic header alone. */
  lemma FirstHasBytes(o: OutLane, j: Job, k: int)
    requires InScope(o, j) && k > 0
    ensures
      var h := MessageHeader(PickFmt(o, j), Field(o, j), j.msg);
      |h| == HeaderLength(PickFmt(o, j)) && |h| + Min(|j.msg.body|, k) > 0
  {
    hide Field;
  }

  lemma MessageTaken(o: OutLane, j: Job, k: int)
    requires InScope(o, j) && k > 0 && ChunkSizeAfter(k, j.msg) == k
    ensures Takes(Mirror(o), k, Raws(o, j, k), Mirror(LaneAfter(o, j)), [j.msg])
  {
    hide Fits, StepOn, ChunkSizeAfter, FirstRaw, Takes, Mirror, LaneAfter;
    var m, d := j.msg, FirstDelta(o, j);
    var size, l := Min(|m.body|, k), Mirror(o);
    FirstFits(o, j, k);
    InScopeIsSized(o, j);
    ClosedIsMirror(o, j);
    if size == |m.body| {
      TakesNone(Closed(m, d, false), k);
      TakesOne(l, k, FirstRaw(o, j, k), [], Closed(m, d, false), []);
    } else {
      if m.timestamp == 0 {
        FirstDeltaZero(o, j);
      }
      LaterTaken(m, d, size, k);
      TakesOne(l, k, FirstRaw(o, j, k), LaterRaws(m, size, k), Closed(m, d, false), [m]);
    }
    assert [m] + [] == [m] && [] + [m] == [m];
  }

  lemma ClosedIsMirror(o: OutLane, j: Job)
    requires InScope(o, j)
    ensures Closed(j.msg, FirstDelta(o, j), false) == Mirror(LaneAfter(o, j))
  {
    hide Field, PickFmt;
  }

  lemma FirstDeltaZero(o: OutLane, j: Job)
    requires InScope(o, j) && j.msg.timestamp == 0
    ensures FirstDelta(o, j) == 0
  {
    FirstStampZero(o, j);
  }

  /** One stream alone completes its run, and its histories stay together. */
  lemma {:induction false} RunTaken(o: OutLane, jobs: seq<Job>, csid: uint32, k: int) returns (o': OutLane)
    requires LaneInScope(o, jobs, csid, k) && Sized(jobs) && k > 0
    ensures Takes(Mirror(o), k, AllRaws(o, jobs, k), Mirror(o'), Messages(jobs))
    decreases |jobs|
  {
    hide InScope, ChunkSizeAfter, Mirror, LaneAfter, Takes, Raws;
    if |jobs| == 0 {
      o' := o;
      TakesNone(Mirror(o), k);
    } else {
      var next := LaneAfter(o, jobs[0]);
      MessageTaken(o, jobs[0], k);
      o' := RunTaken(next, jobs[1..], csid, k);
      TakesAppend(Mirror(o), k, Raws(o, jobs[0], k), Mirror(next), [jobs[0].msg],
                  AllRaws(next, jobs[1..], k), Mirror(o'), Messages(jobs[1..]));
    }
  }

  // ---------------------------------------------------------------------------------------------
  // The theorem
  // ---------------------------------------------------------------------------------------------

  /** What is to be sent on each chunk stream; nothing on those that are not keys. */
  function RunOn(runs: map<uint32, seq<Job>>, csid: uint32): seq<Job> {
    if csid in runs then runs[csid] else []
  }

  ghost predicate AllInScope(out: map<uint32, OutLane>, runs: map<uint32, seq<Job>>, k: int) {
    forall csid: uint32 ::
      LaneInScope(OutLaneOf(out, csid), RunOn(runs, csid), csid, k) && Sized(RunOn(runs, csid))
  }

  /** `rs` holds, on each stream, the chunks of its run in order; between streams they come in any order. */
  ghost predicate Interleaves(rs: seq<Raw>, out: map<uint32, OutLane>, runs: map<uint32, seq<Job>>, k: nat)
    requires k > 0 && AllInScope(out, runs, k)
  {
    forall csid: uint32 :: Only(rs, csid) == AllRaws(OutLaneOf(out, csid), RunOn(runs, csid), k)
  }

  /**
    Any interleaving, at chunk boundaries, of what encoders write on any number of chunk streams: on each
    stream exactly its messages complete, in order, and as soon as every chunk has been parsed.
   */
  lemma EncodersInterleaved(
    lanes: map<uint32, Lane>, out: map<uint32, OutLane>, runs: map<uint32, seq<Job>>, k: nat, rs: seq<Raw>)
    requires k > 0 && AllSynced(out, lanes) && AllInScope(out, runs, k) && Interleaves(rs, out, runs, k)
    ensures
      var o := ParseAll(InState(lanes, k), Wire(rs));
      o.rest == [] && forall csid: uint32 :: MessagesOn(o.msgs, csid) == Messages(RunOn(runs, csid))
  {
    hide ParseAll, LaneFormed, LaneRun, Run, Formed, Wire, MessagesOn, LaneInScope, AllRaws, Only;
    forall csid: uint32 ensures LaneFormed(LaneOf(lanes, csid), k, Only(rs, csid)) &&
      LaneRun(LaneOf(lanes, csid), k, Only(rs, csid)).1 == Messages(RunOn(runs, csid))
    {
      StreamTaken(lanes, out, runs, k, rs, csid);
    }
    assert AllOk(lanes) by { SyncedIsOk(out, lanes); }
    InterleavingIsInvisible(lanes, k, rs);
    AllConsumed(lanes, k, rs);
  }

  lemma StreamTaken(
    lanes: map<uint32, Lane>, out: map<uint32, OutLane>, runs: map<uint32, seq<Job>>, k: nat, rs: seq<Raw>,
    csid: uint32)
    requires k > 0 && AllSynced(out, lanes) && AllInScope(out, runs, k) && Interleaves(rs, out, runs, k)
    ensures LaneFormed(LaneOf(lanes, csid), k, Only(rs, csid))
    ensures LaneRun(LaneOf(lanes, csid), k, Only(rs, csid)).1 == Messages(RunOn(runs, csid))
  {
    hide LaneFormed, LaneRun, LaneInScope, AllRaws, Only;
    assert Synced(OutLaneOf(out, csid), LaneOf(lanes, csid));
    var o' := RunTaken(OutLaneOf(out, csid), RunOn(runs, csid), csid, k);
  }

  lemma SyncedIsOk(out: map<uint32, OutLane>, lanes: map<uint32, Lane>)
    requires AllSynced(out, lanes)
    ensures AllOk(lanes)
  {
    forall csid: uint32 ensures LaneOk(LaneOf(lanes, csid), csid) {
      assert Synced(OutLaneOf(out, csid), LaneOf(lanes, csid));
    }
  }

  lemma AllConsumed(lanes: map<uint32, Lane>, k: int, rs: seq<Raw>)
    requires Formed(lanes, k, rs)
    ensures ParseAll(InState(lanes, k), Wire(rs)).msgs == Run(lanes, k, rs).1
    ensures ParseAll(InState(lanes, k), Wire(rs)).rest == []
  {
    hide Run, Wire, Formed;
    WireParses(lanes, k, rs, []);
    assert Wire(rs) + [] == Wire(rs);
    assert Run(lanes, k, rs).1 + [] == Run(lanes, k, rs).1;
  }
}
