/** Consequences of the chunk round trip: exactly when it holds, partial delivery, chunk size changes. */
module ChunkTheorems {
  import opened Bytes
  import opened ChunkFormat
  import opened ChunkParser
  import opened ChunkWriter
  import opened RoundTrip
  import opened Sequences
  import opened Wrappers
  import Arithmetic

  // ---------------------------------------------------------------------------------------------
  // Exactly when a message survives
  // ---------------------------------------------------------------------------------------------

  ghost predicate Survives(st: InState, o: OutLane, j: Job, c: nat)
    requires c > 0 && |j.msg.body| < TWO32
  {
    var r := ParseAll(st, Encode(o, j, c));
    && r.msgs == [j.msg]
    && r.rest == []
    && Synced(LaneAfter(o, j), LaneOf(r.st.lanes, j.msg.csid))
  }

  /** A header that leaves the length out announces an empty body as one of a whole chunk. */
  lemma EmptyBodyStep(o: OutLane, j: Job, k: int)
    requires |j.msg.body| == 0 && PickFmt(o, j) >= 2 && o.delta < EXTENDED && k > 0
    ensures !StepLane(Mirror(o), j.msg.csid, PickFmt(o, j), k,
                      MessageHeader(PickFmt(o, j), Field(o, j), j.msg) + ExtendedField(Field(o, j))).Taken?
  {
    var fmt, field := PickFmt(o, j), Field(o, j);
    var t := MessageHeader(fmt, field, j.msg) + ExtendedField(field);
    if fmt == 2 {
      MessageHeaderCarries(fmt, field, j.msg, ExtendedField(field));
    }
  }

  /** The message with the empty body does not complete: all its bytes stay, and a body is awaited. */
  lemma EmptyBodyIsLost(st: InState, o: OutLane, j: Job, c: nat)
    requires c > 0 && st.chunkSize > 0 && o.delta < EXTENDED
    requires Synced(o, LaneOf(st.lanes, j.msg.csid)) && CsidInRange(j.msg.csid)
    requires |j.msg.body| == 0 && PickFmt(o, j) >= 2
    ensures ParseAll(st, Encode(o, j, c)).msgs == [] && ParseAll(st, Encode(o, j, c)).rest == Encode(o, j, c)
  {
    var fmt, csid := PickFmt(o, j), j.msg.csid;
    var t := MessageHeader(fmt, Field(o, j), j.msg) + ExtendedField(Field(o, j));
    var s := Encode(o, j, c);
    EmptyBodyStep(o, j, st.chunkSize);
    hide StepLane, MessageHeader, ExtendedField, BasicHeader, ParseBasic, Field, PickFmt, Mirror;
    assert s == BasicHeader(fmt, csid) + t;
    if |s| > 1 {
      BasicHeaderParses(fmt, csid, t);
      assert s[|BasicHeader(fmt, csid)|..] == t;
    }
  }

  /**
    The body awaited is as long as the receiver's chunk size: the next bytes of the wire, whatever they
    are, are delivered as the body of the message that had none.
   */
  lemma EmptyBodySwallows(st: InState, o: OutLane, j: Job, c: nat, swallowed: seq<byte>, rest: seq<byte>)
    requires c > 0 && st.chunkSize == |swallowed| > 0 && Field(o, j) < EXTENDED
    requires Synced(o, LaneOf(st.lanes, j.msg.csid)) && CsidInRange(j.msg.csid)
    requires |j.msg.body| == 0 && PickFmt(o, j) >= 2
    ensures
      var r := ParseAll(st, Encode(o, j, c) + (swallowed + rest));
      |r.msgs| > 0 && r.msgs[0] == j.msg.(body := swallowed)
  {
    var fmt, csid, l := PickFmt(o, j), j.msg.csid, LaneOf(st.lanes, j.msg.csid);
    var header := MessageHeader(fmt, Field(o, j), j.msg);
    var t := header + (swallowed + rest);
    EmptyBodyTaken(o, l, j, swallowed, rest);
    assert Encode(o, j, c) == BasicHeader(fmt, csid) + header;
    hide StepLane, MessageHeader, ExtendedField, BasicHeader, Field, PickFmt, Mirror, ParseAll, Encode;
    Assoc3(BasicHeader(fmt, csid), header, swallowed + rest);
    LoopTakes(st, fmt, csid, t, StepLane(l, csid, fmt, st.chunkSize, t));
  }

  /** The header opens a packet of a whole chunk, and the next bytes fill it. */
  lemma EmptyBodyTaken(o: OutLane, l: Lane, j: Job, swallowed: seq<byte>, rest: seq<byte>)
    requires Synced(o, l) && |swallowed| > 0 && Field(o, j) < EXTENDED
    requires |j.msg.body| == 0 && PickFmt(o, j) >= 2
    ensures
      var fmt := PickFmt(o, j);
      var t := MessageHeader(fmt, Field(o, j), j.msg) + (swallowed + rest);
      var step := StepLane(l, j.msg.csid, fmt, |swallowed|, t);
      step.Taken? && step.used <= |t| && step.done == Some(j.msg.(body := swallowed))
  {
    var fmt, k := PickFmt(o, j), |swallowed|;
    var header := MessageHeader(fmt, Field(o, j), j.msg);
    var t := header + (swallowed + rest);
    MessageHeaderCarries(fmt, Field(o, j), j.msg, swallowed + rest);
    Thirds(header, swallowed, rest);
    var p := OpenPacket(l, j.msg.csid, fmt, k, t);
    var (h, d) := ReadHeader(l, p.header, fmt, t);
    assert p == Partial(Header(j.msg.csid, 0, k % TWO32, 0, 0), k, []);
    assert h == Header(j.msg.csid, j.msg.timestamp, 0, j.msg.msgType, j.msg.msgSid);
    StepPlain(l, j.msg.csid, fmt, k, t, p, h, d);
    hide StepLane, OpenPacket, ReadHeader, MessageHeader, Read24;
    assert [] + swallowed == swallowed;
  }

  /** The number of chunks that `n` bytes take. */
  function ChunkCount(n: nat, c: nat): nat
    requires c > 0
  {
    (n + c - 1) / c
  }

  lemma OneChunkMore(n: nat, c: nat)
    requires n > 0 && c > 0
    ensures ChunkCount(n, c) == ChunkCount(if n <= c then 0 else n - c, c) + 1
  {
    if n <= c {
      NoChunk(c);
      Arithmetic.Quotient(n + c - 1, c, 1, n - 1);
    } else {
      Arithmetic.DivStep(n + c - 1, c);
    }
  }

  lemma NoChunk(c: nat)
    requires c > 0
    ensures ChunkCount(0, c) == 0
  {
    Arithmetic.Quotient(c - 1, c, 0, c - 1);
  }

  /** Adding `wrong` once, and then `k` times, to a 32-bit value. */
  lemma AddedOnce(t: nat, wrong: nat, k: nat)
    ensures ((t + wrong) % TWO32 + k * wrong) % TWO32 == (t + (k + 1) * wrong) % TWO32
  {
    var a, b := t + wrong, k * wrong;
    Arithmetic.MulSucc(k, wrong);
    assert a == TWO32 * (a / TWO32) + a % TWO32;
    Arithmetic.ModShift(a % TWO32 + b, TWO32, a / TWO32);
  }

  lemma RereadStep(timestamp: uint32, field: uint32, n: nat, c: nat)
    requires field >= EXTENDED && c > 0
    ensures
      RereadAll(timestamp, field, n, c) ==
      if n == 0 then timestamp
      else RereadAll((timestamp + Swap32(field)) % TWO32, field, if n <= c then 0 else n - c, c)
  {
    hide Swap32;
  }

  lemma {:induction false} RereadExtended(timestamp: uint32, field: uint32, n: nat, c: nat)
    requires field >= EXTENDED && c > 0
    ensures RereadAll(timestamp, field, n, c) == (timestamp + ChunkCount(n, c) * Swap32(field)) % TWO32
    decreases n
  {
    hide Swap32, ChunkCount, RereadAll;
    RereadStep(timestamp, field, n, c);
    if n == 0 {
      NoChunk(c);
    } else {
      var left := if n <= c then 0 else n - c;
      RereadExtended((timestamp + Swap32(field)) % TWO32, field, left, c);
      OneChunkMore(n, c);
      AddedOnce(timestamp, Swap32(field), ChunkCount(left, c));
    }
  }

  /**
    The timestamp a message arrives under, in closed form: its own if the field stays below 0xFFFFFF.
    Otherwise each chunk after the first adds the field in the wrong byte order, and so does the first,
    unless its header is a full one, which leaves 0xFFFFFF.
   */
  lemma ArrivalStampIs(o: OutLane, j: Job, c: nat)
    requires c > 0 && |j.msg.body| > 0
    ensures
      var n, wrong := ChunkCount(|j.msg.body|, c), Swap32(Field(o, j));
      ArrivalStamp(o, j, c) ==
        if Field(o, j) < EXTENDED then j.msg.timestamp
        else if PickFmt(o, j) == 0 then (EXTENDED + (n - 1) * wrong) % TWO32
        else (o.prev.value.timestamp + n * wrong) % TWO32
  {
    hide Swap32, ChunkCount;
    var n, field := |j.msg.body|, Field(o, j);
    var left := if n <= c then 0 else n - c;
    OneChunkMore(n, c);
    if field < EXTENDED {
      RereadPlain(j.msg.timestamp, field, left, c);
    } else {
      RereadExtended(FirstStamp(o, j), field, left, c);
      if PickFmt(o, j) != 0 {
        AddedOnce(o.prev.value.timestamp, Swap32(field), ChunkCount(left, c));
      }
    }
  }

  /**
    Exactly when one message arrives: it is completed unchanged with nothing left over if and only if the
    timestamp it arrives under is its own, and no empty body goes under a header without a length.
   */
  lemma ArrivesIff(st: InState, o: OutLane, j: Job, c: nat)
    requires CsidInRange(j.msg.csid) && |j.msg.body| < 0x100_0000
    requires Synced(o, LaneOf(st.lanes, j.msg.csid)) && o.delta < EXTENDED
    requires CutAlike(st.chunkSize, c, |j.msg.body|)
    ensures
      var r := ParseAll(st, Encode(o, j, c));
      r.msgs == [j.msg] && r.rest == [] <==>
        ArrivalStamp(o, j, c) == j.msg.timestamp && (|j.msg.body| == 0 ==> PickFmt(o, j) <= 1)
  {
    hide Encode, Field, PickFmt, ParseChunk, ArrivalStamp, FinalDelta;
    assert Encode(o, j, c) + [] == Encode(o, j, c);
    if |j.msg.body| == 0 && PickFmt(o, j) >= 2 {
      EmptyBodyIsLost(st, o, j, c);
    } else {
      MessageArrives(st, o, j, c, []);
      var m' := Stamped(j.msg, ArrivalStamp(o, j, c));
      var lane := Closed(m', FinalDelta(o, j, c), Field(o, j) >= EXTENDED);
      ParseNothing(InState(st.lanes[j.msg.csid := lane], ChunkSizeAfter(st.chunkSize, m')));
      assert ParseAll(st, Encode(o, j, c)).msgs == [m'] && ParseAll(st, Encode(o, j, c)).rest == [];
      assert [m'] == [j.msg] <==> m' == j.msg;
    }
  }

  /**
    Exactly when the two sides also stay together: the message arrives unchanged and the receiver's
    history mirrors the sender's again, so that whatever comes next is read as it was meant, if and only
    if the timestamp field stays below 0xFFFFFF and no empty body goes under a header without a length.
   */
  lemma SurvivesIff(st: InState, o: OutLane, j: Job, c: nat)
    requires CsidInRange(j.msg.csid) && |j.msg.body| < 0x100_0000
    requires Synced(o, LaneOf(st.lanes, j.msg.csid)) && o.delta < EXTENDED
    requires CutAlike(st.chunkSize, c, |j.msg.body|)
    ensures Survives(st, o, j, c) <==> Field(o, j) < EXTENDED && (|j.msg.body| == 0 ==> PickFmt(o, j) <= 1)
  {
    hide Encode, LaneAfter, Field, PickFmt, ParseChunk;
    assert Encode(o, j, c) + [] == Encode(o, j, c);
    if |j.msg.body| == 0 && PickFmt(o, j) >= 2 {
      EmptyBodyIsLost(st, o, j, c);
    } else {
      MessageArrives(st, o, j, c, []);
      if Field(o, j) < EXTENDED {
        MessageRoundTrip(st, o, j, c, []);
      }
    }
  }

  /**
    Why the extended form fails: a repeat of such a message sends no timestamp, but one is awaited. The
    first copy arrives, under the time 0xFFFFFF, which is right only for that very time; the second one
    stays in the buffer.
   */
  lemma ExtendedRepeatIsLost(m: Message, c: nat)
    requires CsidInRange(m.csid) && 0 < |m.body| < 0x100_0000 && m.timestamp >= EXTENDED
    requires c > 0 && |m.body| <= c && m.msgType != SET_CHUNK_SIZE
    ensures
      var r := ParseAll(InState(map[], c), EncodeAll(map[], [Job(m, false), Job(m, false)], c));
      && r.msgs == [Stamped(m, EXTENDED)] && (r.msgs == [m] <==> m.timestamp == EXTENDED)
      && r.rest == BasicHeader(3, m.csid) + m.body
  {
    var j := Job(m, false);
    var o1 := LaneAfter(FRESH_OUT, j);
    var m' := Stamped(m, EXTENDED);
    var lane := Closed(m', 0, true);
    var st1 := InState(map[m.csid := lane], c);
    var second := BasicHeader(3, m.csid) + m.body;
    TwoJobs(j, c);
    assert Encode(o1, j, c) == second;
    MessageArrives(InState(map[], c), FRESH_OUT, j, c, second);
    RepeatStalls(m, lane, c);
    hide StepLane, Encode, EncodeAll, BasicHeader, ParseBasic;
    assert map[][m.csid := lane] == map[m.csid := lane];
    BasicHeaderParses(3, m.csid, m.body);
    assert second[|BasicHeader(3, m.csid)|..] == m.body;
    assert ParseChunk(st1, second).Wait?;
  }

  lemma TwoJobs(j: Job, c: nat)
    requires c > 0 && |j.msg.body| < TWO32
    ensures EncodeAll(map[], [j, j], c) == Encode(FRESH_OUT, j, c) + Encode(LaneAfter(FRESH_OUT, j), j, c)
  {
    hide Encode, LaneAfter;
    var lanes1 := After(map[], j);
    assert [j, j][1..] == [j] && [j][1..] == [];
    assert EncodeAll(lanes1, [j], c) == Encode(OutLaneOf(lanes1, j.msg.csid), j, c) + [];
  }

  lemma RepeatStalls(m: Message, lane: Lane, c: nat)
    requires 0 < |m.body| < 0x100_0000 && |m.body| <= c
    requires lane == Closed(Stamped(m, EXTENDED), 0, true)
    ensures StepLane(lane, m.csid, 3, c, m.body).Stalled?
  {
  }

  // ---------------------------------------------------------------------------------------------
  // What a receiver takes that this sender does not write
  // ---------------------------------------------------------------------------------------------

  /**
    A header in the middle of a packet: it replaces what was known of the packet as far as it goes, and the
    history of the stream stands in for the rest; the bytes already there and the room stay as they are.
   */
  lemma HeaderInTheMiddle(
    l: Lane, p: Partial, csid: uint32, fmt: Fmt, k: int, field: uint32, m: Message, piece: seq<byte>, rest: seq<byte>)
    requires l.partial == Some(p) && fmt <= 2 && field < EXTENDED && |m.body| < 0x100_0000
    requires |piece| == Min(p.capacity - |p.data|, k)
    ensures
      var time := if fmt == 0 then field else (field as int + l.prev.timestamp) % TWO32;
      var sid := if fmt == 0 then m.msgSid else l.prev.msgSid;
      var (length, kind) := if fmt <= 1 then (|m.body|, m.msgType) else (l.prev.msgLen, l.prev.msgType);
      var data, delta := p.data + piece, if fmt == 0 then 0 else field;
      var h := Header(p.header.csid, time, length, kind, sid);
      StepLane(l, csid, fmt, k, MessageHeader(fmt, field, m) + (piece + rest)) ==
        if |data| == p.capacity
        then Taken(Lane(h, None, delta, false), HeaderLength(fmt) + |piece|,
                   Some(Message(p.header.csid, kind, sid, time, data)))
        else Taken(Lane(h, Some(Partial(h, p.capacity, data)), delta, false), HeaderLength(fmt) + |piece|, None)
  {
    var header := MessageHeader(fmt, field, m);
    var t := header + (piece + rest);
    MessageHeaderCarries(fmt, field, m, piece + rest);
    Thirds(header, piece, rest);
    var (h, d) := ReadHeader(l, p.header, fmt, t);
    StepPlain(l, csid, fmt, k, t, p, h, d);
    hide StepLane, OpenPacket, MessageHeader, Read24;
  }

  /** The long form of the basic header, in the byte order of the host, is taken for every id it can hold. */
  lemma LongFormTaken(fmt: Fmt, csid: uint32, t: seq<byte>)
    requires 64 <= csid < 65600
    ensures ParseBasic([fmt * 64 + 1, (csid - 64) % 0x100, (csid - 64) / 0x100] + t) == Basic(fmt, csid, 3)
  {
    var s := [fmt * 64 + 1, (csid - 64) % 0x100, (csid - 64) / 0x100] + t;
    assert s[0] / 64 == fmt && s[0] % 64 == 1;
  }

  /** A chunk size is announced in four bytes, as a signed number; any other message leaves it alone. */
  lemma ChunkSizeAnnounced(k: int, m: Message, n: uint32, rest: seq<byte>)
    ensures
      ChunkSizeAfter(k, m.(msgType := 1, body := Write32(n) + rest)) == if n < 0x8000_0000 then n else n - 0x1_0000_0000
    ensures m.msgType != 1 || |m.body| < 4 ==> ChunkSizeAfter(k, m) == k
  {
    Read32Write32(n, rest);
  }

  // ---------------------------------------------------------------------------------------------
  // Delivery over a network that fragments, and may stop anywhere
  // ---------------------------------------------------------------------------------------------

  lemma ParseNothing(st: InState)
    ensures ParseAll(st, []) == Outcome(st, [], [])
  {
  }

  /** A receiver that has parsed a prefix of the wire has completed a prefix of the run. */
  lemma PrefixDelivery(st: InState, out: map<uint32, OutLane>, jobs: seq<Job>, c: nat, wire: seq<byte>)
    requires c > 0 && Sized(jobs)
    requires AllSynced(out, st.lanes) && RunInScope(out, jobs, st.chunkSize, c)
    requires wire <= EncodeAll(out, jobs, c)
    ensures ParseAll(st, wire).msgs <= Messages(jobs)
    ensures wire == EncodeAll(out, jobs, c) ==>
      ParseAll(st, wire).msgs == Messages(jobs) && ParseAll(st, wire).rest == []
  {
    hide ParseAll, EncodeAll, Messages, Sized, AllSynced, RunInScope, InAfter, LanesAfter;
    var full := EncodeAll(out, jobs, c);
    RoundTripAll(st, out, jobs, c, []);
    assert full + [] == full;
    ParseNothing(InAfter(st, out, jobs));
    assert wire + full[|wire|..] == full;
    SplitAnywhere(st, wire, full[|wire|..]);
    var first := ParseAll(st, wire);
    var more := ParseAll(first.st, first.rest + full[|wire|..]).msgs;
    assert Messages(jobs) == Messages(jobs) + [] == first.msgs + more;
    assert (first.msgs + more)[..|first.msgs|] == first.msgs;
  }

  /** Sender to receiver across a network that cuts the bytes into `pieces` of its own choosing. */
  lemma EndToEnd(st: InState, out: map<uint32, OutLane>, jobs: seq<Job>, c: nat, pieces: seq<seq<byte>>)
    requires c > 0 && Sized(jobs)
    requires AllSynced(out, st.lanes) && RunInScope(out, jobs, st.chunkSize, c)
    requires Flatten(pieces) <= EncodeAll(out, jobs, c)
    ensures
      var r := FeedAll(Outcome(st, [], []), pieces);
      && r.msgs <= Messages(jobs)
      && (Flatten(pieces) == EncodeAll(out, jobs, c) ==> r.msgs == Messages(jobs) && r.rest == [])
  {
    hide ParseAll, EncodeAll, Messages, Sized, AllSynced, RunInScope, FeedAll;
    ParseNothing(st);
    FragmentationInvariance(st, [], pieces);
    assert [] + Flatten(pieces) == Flatten(pieces);
    PrefixDelivery(st, out, jobs, c, Flatten(pieces));
  }

  // ---------------------------------------------------------------------------------------------
  // Changing the chunk size
  // ---------------------------------------------------------------------------------------------

  /** `SendSetChunkSize`: announces the sender's own chunk size. */
  function SetChunkSize(c: uint32): Job {
    Job(Message(2, SET_CHUNK_SIZE, 0, 0, Write32(c)), false)
  }

  predicate EachInScope(out: map<uint32, OutLane>, jobs: seq<Job>)
    decreases |jobs|
  {
    |jobs| == 0 ||
    (InScope(OutLaneOf(out, jobs[0].msg.csid), jobs[0]) && EachInScope(After(out, jobs[0]), jobs[1..]))
  }

  /** No message of the run announces a chunk size other than `c`. */
  predicate AnnouncesOnly(jobs: seq<Job>, c: int) {
    forall i :: 0 <= i < |jobs| ==> ChunkSizeAfter(c, jobs[i].msg) == c
  }

  predicate Announces(m: Message) {
    m.msgType == SET_CHUNK_SIZE && |m.body| >= 4
  }

  /** What goes out before the announcement fits in one chunk of either size. */
  predicate Short(jobs: seq<Job>, n: nat) {
    forall i :: 0 <= i < |jobs| ==> |jobs[i].msg.body| <= n && !Announces(jobs[i].msg)
  }

  lemma {:induction false} SteadyRun(out: map<uint32, OutLane>, jobs: seq<Job>, c: nat)
    requires c > 0 && EachInScope(out, jobs) && AnnouncesOnly(jobs, c)
    ensures RunInScope(out, jobs, c, c)
    decreases |jobs|
  {
    if |jobs| != 0 {
      assert ChunkSizeAfter(c, jobs[0].msg) == c;
      forall i | 0 <= i < |jobs| - 1 ensures ChunkSizeAfter(c, jobs[1..][i].msg) == c {
        assert jobs[1..][i] == jobs[i + 1];
      }
      SteadyRun(After(out, jobs[0]), jobs[1..], c);
    }
  }

  /**
    The two ends start with different chunk sizes, `k` at the receiver and `c` at the sender. A run is
    still received correctly if it announces `c` and what precedes the announcement is short.
   */
  lemma {:induction false} ChunkSizeSwitch(
    out: map<uint32, OutLane>, before: seq<Job>, after: seq<Job>, k: nat, c: nat)
    requires 0 < c < 0x8000_0000 && 0 < k
    requires EachInScope(out, before + [SetChunkSize(c)] + after)
    requires 4 <= Min(k, c) && Short(before, Min(k, c)) && AnnouncesOnly(after, c)
    ensures RunInScope(out, before + [SetChunkSize(c)] + after, k, c)
    decreases |before|
  {
    hide InScope, After;
    var jobs := before + [SetChunkSize(c)] + after;
    if |before| == 0 {
      assert jobs[1..] == after;
      Read32Write32(c, []);
      assert Write32(c) + [] == Write32(c);
      SteadyRun(After(out, jobs[0]), after, c);
    } else {
      assert jobs[0] == before[0];
      assert jobs[1..] == before[1..] + [SetChunkSize(c)] + after;
      assert !Announces(before[0].msg) && |before[0].msg.body| <= Min(k, c);
      ChunkSizeSwitch(After(out, jobs[0]), before[1..], after, k, c);
    }
  }
}
