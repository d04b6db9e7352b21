/** What `RtmpContext::BuildChunk` puts on the wire, and the history it leaves per chunk stream id. */
module ChunkWriter {
  import opened Bytes
  import opened ChunkFormat
  import opened Sequences
  import opened Wrappers

  /** `out_message_headers_` and `out_deltas_` at one key. */
  datatype OutLane = OutLane(prev: Option<Header>, delta: uint32)

  const FRESH_OUT := OutLane(None, 0)

  /** One call of `BuildChunk`: the message and the flag that forces a full header. */
  datatype Job = Job(msg: Message, fmt0: bool)

  function OutLaneOf(lanes: map<uint32, OutLane>, csid: uint32): OutLane {
    if csid in lanes then lanes[csid] else FRESH_OUT
  }

  predicate UsesDelta(lane: OutLane, j: Job) {
    && !j.fmt0
    && lane.prev.Some?
    && j.msg.timestamp >= lane.prev.value.timestamp
    && j.msg.msgSid == lane.prev.value.msgSid
  }

  /** The value that goes into the timestamp field: a difference, or the timestamp itself. */
  function Field(lane: OutLane, j: Job): uint32 {
    if UsesDelta(lane, j) then j.msg.timestamp - lane.prev.value.timestamp else j.msg.timestamp
  }

  function PickFmt(lane: OutLane, j: Job): Fmt {
    if !UsesDelta(lane, j) then 0
    else if |j.msg.body| != lane.prev.value.msgLen || j.msg.msgType != lane.prev.value.msgType then 1
    else if Field(lane, j) != lane.delta then 2
    else 3
  }

  function BasicHeader(fmt: Fmt, csid: uint32): (s: seq<byte>)
    ensures 1 <= |s| <= 3
  {
    if csid < 64 then [fmt * 64 + csid]
    else if csid < 320 then [fmt * 64, csid - 64]
    else [fmt * 64 + 1] + Copy16((csid - 64) % 0x1_0000)
  }

  function MessageHeader(fmt: Fmt, field: uint32, m: Message): (s: seq<byte>)
    requires |m.body| < TWO32
    ensures |s| == HeaderLength(fmt)
  {
    var ts := if field >= EXTENDED then EXTENDED else field;
    if fmt == 0 then Write24(ts) + Write24(|m.body|) + [m.msgType] + Copy32(m.msgSid)
    else if fmt == 1 then Write24(ts) + Write24(|m.body|) + [m.msgType]
    else if fmt == 2 then Write24(ts)
    else []
  }

  /** The extended timestamp is copied in host order. */
  function ExtendedField(field: uint32): (s: seq<byte>)
    ensures |s| == if field >= EXTENDED then 4 else 0
  {
    if field >= EXTENDED then Copy32(field) else []
  }

  function FirstHeader(lane: OutLane, j: Job): (s: seq<byte>)
    requires |j.msg.body| < TWO32
    ensures |s| <= 18
  {
    var fmt, field := PickFmt(lane, j), Field(lane, j);
    BasicHeader(fmt, j.msg.csid) + MessageHeader(fmt, field, j.msg) + ExtendedField(field)
  }

  function NextHeader(csid: uint32, field: uint32): (s: seq<byte>)
    ensures 1 <= |s| <= 7
  {
    BasicHeader(3, csid) + ExtendedField(field)
  }

  /** The body in pieces of at most `c` bytes, with `next` between the pieces. */
  function Chunks(body: seq<byte>, c: nat, next: seq<byte>): seq<byte>
    requires c > 0
    decreases |body|
  {
    if |body| <= c then body else body[..c] + next + Chunks(body[c..], c, next)
  }

  function Encode(lane: OutLane, j: Job, c: nat): seq<byte>
    requires c > 0 && |j.msg.body| < TWO32
  {
    FirstHeader(lane, j) + Chunks(j.msg.body, c, NextHeader(j.msg.csid, Field(lane, j)))
  }

  function HeaderOf(m: Message): Header
    requires |m.body| < TWO32
  {
    Header(m.csid, m.timestamp, |m.body|, m.msgType, m.msgSid)
  }

  function LaneAfter(lane: OutLane, j: Job): OutLane
    requires |j.msg.body| < TWO32
  {
    OutLane(Some(HeaderOf(j.msg)), if PickFmt(lane, j) == 0 then 0 else Field(lane, j))
  }

  predicate Sized(jobs: seq<Job>) {
    forall i :: 0 <= i < |jobs| ==> |jobs[i].msg.body| < TWO32
  }

  function After(lanes: map<uint32, OutLane>, j: Job): map<uint32, OutLane>
    requires |j.msg.body| < TWO32
  {
    lanes[j.msg.csid := LaneAfter(OutLaneOf(lanes, j.msg.csid), j)]
  }

  /** The wire image of a run of calls. */
  function EncodeAll(lanes: map<uint32, OutLane>, jobs: seq<Job>, c: nat): seq<byte>
    requires c > 0 && Sized(jobs)
    decreases |jobs|
  {
    if |jobs| == 0 then []
    else
      Encode(OutLaneOf(lanes, jobs[0].msg.csid), jobs[0], c) + EncodeAll(After(lanes, jobs[0]), jobs[1..], c)
  }

  function LanesAfter(lanes: map<uint32, OutLane>, jobs: seq<Job>): map<uint32, OutLane>
    requires Sized(jobs)
    decreases |jobs|
  {
    if |jobs| == 0 then lanes else LanesAfter(After(lanes, jobs[0]), jobs[1..])
  }

  /** Encoding is incremental: one more call appends its own encoding under the history so far. */
  lemma {:induction false} EncodeSnoc(lanes: map<uint32, OutLane>, jobs: seq<Job>, j: Job, c: nat)
    requires c > 0 && Sized(jobs) && |j.msg.body| < TWO32
    ensures
      var before := LanesAfter(lanes, jobs);
      && EncodeAll(lanes, jobs + [j], c) == EncodeAll(lanes, jobs, c) + Encode(OutLaneOf(before, j.msg.csid), j, c)
      && LanesAfter(lanes, jobs + [j]) == After(before, j)
    decreases |jobs|
  {
    hide Encode, OutLaneOf, After;
    if |jobs| == 0 {
      assert jobs + [j] == [j];
      assert [j][1..] == [];
      assert Encode(OutLaneOf(lanes, j.msg.csid), j, c) + [] == [] + Encode(OutLaneOf(lanes, j.msg.csid), j, c);
    } else {
      var next := After(lanes, jobs[0]);
      var last := Encode(OutLaneOf(LanesAfter(lanes, jobs), j.msg.csid), j, c);
      assert (jobs + [j])[0] == jobs[0] && (jobs + [j])[1..] == jobs[1..] + [j];
      EncodeSnoc(next, jobs[1..], j, c);
      Assoc3(Encode(OutLaneOf(lanes, jobs[0].msg.csid), jobs[0], c), EncodeAll(next, jobs[1..], c), last);
    }
  }

  /** What is written for a longer run begins with what is written for the shorter one. */
  lemma {:induction false} EncodePrefix(lanes: map<uint32, OutLane>, a: seq<Job>, b: seq<Job>, c: nat)
    requires c > 0 && Sized(b) && a <= b
    ensures Sized(a) && EncodeAll(lanes, a, c) <= EncodeAll(lanes, b, c)
    decreases |a|
  {
    hide Encode, OutLaneOf, After;
    if |a| > 0 {
      assert a[0] == b[0] && a[1..] <= b[1..];
      EncodePrefix(After(lanes, a[0]), a[1..], b[1..], c);
    }
  }
}
