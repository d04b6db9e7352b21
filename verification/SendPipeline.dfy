/**
  The sending half of `RtmpContext`: packets queue up, `Send` turns up to ten of them into chunks whose
  headers live in one reused 4096-byte arena, and the connection drains the resulting list of memory
  ranges at its own pace. Only when it has run dry is the arena reused.
 */
module SendPipelines {
  import opened Bytes
  import opened ChunkFormat
  import opened ChunkWriter
  import opened HeaderArena
  import opened TcpConnections
  import opened Sequences
  import opened Wrappers

  const BATCH: nat := 10

  /** A packet: the header in its `ext_` slot, and its body. */
  datatype PacketPtr = PacketPtr(header: Option<Header>, data: array<byte>)

  /** What the pipeline needs of a packet: a header, and a body of the announced, non-zero length. */
  predicate Ready(p: PacketPtr) {
    p.header.Some? && 0 < p.header.value.msgLen <= p.data.Length && p.header.value.msgLen < 0x8000_0000
  }

  function JobFor(p: PacketPtr, timestamp: uint32, fmt0: bool): Job
    requires Ready(p)
    reads p.data
  {
    var h := p.header.value;
    Job(Message(h.csid, h.msgType, h.msgSid, timestamp, p.data[..h.msgLen]), fmt0)
  }

  /** The most arena a message can take: 18 bytes for the first header, 7 for each of the others. */
  function WorstCase(j: Job, c: nat): nat
    requires c > 0
  {
    18 + NextBytes(|j.msg.body|, c, 7)
  }

  function TotalWorst(jobs: seq<Job>, c: nat): nat
    requires c > 0
  {
    if |jobs| == 0 then 0 else TotalWorst(jobs[..|jobs| - 1], c) + WorstCase(jobs[|jobs| - 1], c)
  }

  /** Whatever ten consecutive messages end up in a batch, their headers fit in the arena. */
  ghost predicate BatchesFit(jobs: seq<Job>, c: nat)
    requires c > 0
  {
    forall i, k :: 0 <= i <= k <= |jobs| && k - i <= BATCH ==> TotalWorst(jobs[i..k], c) <= ARENA_SIZE
  }

  lemma EmptyFits(c: nat)
    requires c > 0
    ensures BatchesFit([], c)
  {
    var none: seq<Job> := [];
    forall i, k | 0 <= i <= k <= |none| && k - i <= BATCH ensures TotalWorst(none[i..k], c) <= ARENA_SIZE {
      assert none[i..k] == [];
    }
  }

  lemma TailFits(jobs: seq<Job>, c: nat)
    requires c > 0 && jobs != [] && BatchesFit(jobs, c)
    ensures BatchesFit(jobs[1..], c)
  {
    var rest := jobs[1..];
    forall i, k | 0 <= i <= k <= |rest| && k - i <= BATCH ensures TotalWorst(rest[i..k], c) <= ARENA_SIZE {
      assert rest[i..k] == jobs[i + 1..k + 1];
    }
  }

  /** The `i`th message of a batch still finds room. */
  lemma BatchRoom(jobs: seq<Job>, i: nat, c: nat)
    requires c > 0 && i < |jobs| && i < BATCH && BatchesFit(jobs, c)
    ensures TotalWorst(jobs[..i], c) + WorstCase(jobs[i], c) == TotalWorst(jobs[..i + 1], c) <= ARENA_SIZE
  {
    var some := jobs[..i + 1];
    assert some[..|some| - 1] == jobs[..i];
    assert jobs[0..i + 1] == some;
  }

  /** The headers of a message take at most the worst case, under any history. */
  lemma WorstCaseBounds(o: OutLane, j: Job, c: nat)
    requires c > 0 && |j.msg.body| < TWO32
    ensures HeaderBytes(o, j, c) <= WorstCase(j, c)
  {
    NextBytesMonotone(|j.msg.body|, c, |NextHeader(j.msg.csid, Field(o, j))|, 7);
  }

  /** Ranges in the arena end before `limit`. */
  predicate Below(vs: seq<IoVec>, arena: array<byte>, limit: nat) {
    forall v :: v in vs && v.base == arena ==> v.offset + v.length <= limit
  }

  lemma PrefixExtends(a: seq<byte>, b: seq<byte>, c: seq<byte>)
    ensures a <= b ==> a <= b + c
  {
  }

  lemma Slice(data: array<byte>, n: nat, from: nat, size: nat)
    requires n <= data.Length && from + size <= n
    ensures data[from..from + size] == data[..n][from..][..size]
  {
  }

  class RtmpSender {
    const arena: array<byte>
    const connection: TcpConnection
    const outChunkSize: nat := 4096

    var outCurrent: nat
    var outDeltas: map<uint32, uint32>
    var outMessageHeaders: map<uint32, Header>
    var outWaiting: seq<PacketPtr>
    var sendingBufs: seq<IoVec>
    var outSending: seq<PacketPtr>
    var sending: bool

    /** The connection's bytes from before this object, and the arrays that ranges among them refer to. */
    ghost const opening: seq<byte>
    ghost const earlier: set<array<byte>>

    /** The history as the encoder's specification sees it, and the bytes behind `sendingBufs`. */
    ghost var lanes: map<uint32, OutLane>
    ghost var staged: seq<seq<byte>>

    /** `out_message_headers_` and `out_deltas_` at one key. */
    function LaneAt(csid: uint32): OutLane
      reads `outMessageHeaders, `outDeltas
    {
      OutLane(if csid in outMessageHeaders then Some(outMessageHeaders[csid]) else None,
              if csid in outDeltas then outDeltas[csid] else 0)
    }

    ghost predicate History()
      reads `outMessageHeaders, `outDeltas, `lanes
    {
      forall csid: uint32 :: LaneAt(csid) == OutLaneOf(lanes, csid)
    }

    /** The staged ranges hold the staged bytes, and leave the arena from `outCurrent` on alone. */
    ghost predicate Staging()
      reads `sendingBufs, `staged, `outCurrent, set v | v in sendingBufs :: v.base
    {
      && arena.Length == ARENA_SIZE && outCurrent <= ARENA_SIZE
      && Backed(sendingBufs, staged) && Below(sendingBufs, arena, outCurrent)
    }

    // -------------------------------------------------------------------------------------------
    // Writing into the arena
    // -------------------------------------------------------------------------------------------

    /** Writes behind everything staged, and before nothing that is. */
    method Put(p: nat, bytes: seq<byte>) returns (q: nat)
      requires Staging() && outCurrent <= p && p + |bytes| <= ARENA_SIZE
      modifies arena
      ensures Staging() && q == p + |bytes| && arena[outCurrent..q] == old(arena[outCurrent..p]) + bytes
    {
      forall i | 0 <= i < |bytes| {
        arena[p + i] := bytes[i];
      }
      q := p + |bytes|;
    }

    method PutBasicHeader(p: nat, fmt: Fmt, csid: uint32) returns (q: nat)
      requires Staging() && outCurrent <= p && p + |BasicHeader(fmt, csid)| <= ARENA_SIZE
      modifies arena
      ensures Staging() && q == p + |BasicHeader(fmt, csid)|
      ensures arena[outCurrent..q] == old(arena[outCurrent..p]) + BasicHeader(fmt, csid)
    {
      if csid < 64 {
        q := Put(p, [fmt * 64 + csid]);
      } else if csid < 64 + 256 {
        q := Put(p, [fmt * 64, csid - 64]);
      } else {
        q := Put(p, [fmt * 64 + 1] + Copy16((csid - 64) % 0x1_0000));
      }
    }

    lemma StagedBelow()
      requires Staging()
      ensures arena.Length == ARENA_SIZE && outCurrent <= ARENA_SIZE
      ensures Backed(sendingBufs, staged) && Below(sendingBufs, arena, outCurrent)
    {
    }

    /** One more range is staged behind `vs`, which leave the arena from `limit` on alone. */
    lemma OneMore(vs: seq<IoVec>, pieces: seq<seq<byte>>, v: IoVec, limit: nat)
      requires arena.Length == ARENA_SIZE && limit <= outCurrent <= ARENA_SIZE
      requires Backed(vs, pieces) && Below(vs, arena, limit)
      requires v.length > 0 && v.offset + v.length <= v.base.Length
      requires v.base == arena ==> v.offset + v.length <= outCurrent
      requires sendingBufs == vs + [v] && staged == pieces + [v.base[v.offset..v.offset + v.length]]
      ensures Staging()
    {
    }

    /** The finished header becomes a range of its own, and the arena's free part starts behind it. */
    method StageHeader(q: nat)
      requires Staging() && outCurrent < q <= ARENA_SIZE
      modifies this`sendingBufs, this`staged, this`outCurrent
      ensures Staging() && outCurrent == q
      ensures Flatten(staged) == old(Flatten(staged)) + arena[old(outCurrent)..q]
      ensures sendingBufs == old(sendingBufs) + [IoVec(arena, old(outCurrent), q - old(outCurrent))]
    {
      StagedBelow();
      hide Staging, Backed, Below, Flatten;
      ghost var vs, pieces, v := sendingBufs, staged, IoVec(arena, outCurrent, q - outCurrent);
      FlattenSnoc(staged, arena[outCurrent..q]);
      sendingBufs := sendingBufs + [IoVec(arena, outCurrent, q - outCurrent)];
      staged := staged + [arena[outCurrent..q]];
      outCurrent := q;
      OneMore(vs, pieces, v, v.offset);
    }

    method StageBody(data: array<byte>, offset: nat, length: nat)
      requires Staging() && data != arena && 0 < length && offset + length <= data.Length
      modifies this`sendingBufs, this`staged
      ensures Staging()
      ensures Flatten(staged) == old(Flatten(staged)) + data[offset..offset + length]
      ensures sendingBufs == old(sendingBufs) + [IoVec(data, offset, length)]
    {
      StagedBelow();
      hide Staging, Backed, Below, Flatten;
      ghost var vs, pieces := sendingBufs, staged;
      FlattenSnoc(staged, data[offset..offset + length]);
      sendingBufs := sendingBufs + [IoVec(data, offset, length)];
      staged := staged + [data[offset..offset + length]];
      OneMore(vs, pieces, IoVec(data, offset, length), outCurrent);
    }

    // -------------------------------------------------------------------------------------------
    // Building chunks
    // -------------------------------------------------------------------------------------------

    /** Picks the header format, and turns the timestamp into a difference where the format wants one. */
    method ChooseFormat(h: Header, timestamp: uint32, fmt0: bool, ghost j: Job) returns (fmt: Fmt, field: uint32)
      requires Staging()
      requires j.msg == Message(h.csid, h.msgType, h.msgSid, timestamp, j.msg.body) && j.fmt0 == fmt0
      requires |j.msg.body| == h.msgLen
      ensures Staging()
      ensures fmt == PickFmt(LaneAt(h.csid), j) && field == Field(LaneAt(h.csid), j)
    {
      fmt, field := 0, timestamp;
      if !fmt0 && h.csid in outMessageHeaders {
        var prev := outMessageHeaders[h.csid];
        if timestamp >= prev.timestamp && h.msgSid == prev.msgSid {
          fmt, field := 1, timestamp - prev.timestamp;
          if h.msgLen == prev.msgLen && h.msgType == prev.msgType {
            fmt := 2;
            if field == (if h.csid in outDeltas then outDeltas[h.csid] else 0) {
              fmt := 3;
            }
          }
        }
      }
    }

    method PutMessageHeader(p: nat, fmt: Fmt, field: uint32, h: Header, ghost m: Message) returns (q: nat)
      requires Staging() && HeaderMatches(h, m) && outCurrent <= p && p + HeaderLength(fmt) <= ARENA_SIZE
      modifies arena
      ensures Staging() && q == p + HeaderLength(fmt)
      ensures arena[outCurrent..q] == old(arena[outCurrent..p]) + MessageHeader(fmt, field, m)
    {
      var ts: uint32 := if field >= EXTENDED then EXTENDED else field;
      if fmt == 0 {
        q := Put(p, Write24(ts) + Write24(h.msgLen) + [h.msgType] + Copy32(h.msgSid));
      } else if fmt == 1 {
        q := Put(p, Write24(ts) + Write24(h.msgLen) + [h.msgType]);
      } else if fmt == 2 {
        q := Put(p, Write24(ts));
      } else {
        q := Put(p, []);
      }
    }

    /** Basic header, message header, extended timestamp. */
    method PutFirstHeader(fmt: Fmt, field: uint32, h: Header, ghost m: Message) returns (q: nat)
      requires Staging() && HeaderMatches(h, m)
      requires outCurrent + |BasicHeader(fmt, h.csid)| + HeaderLength(fmt) + |ExtendedField(field)| <= ARENA_SIZE
      modifies arena
      ensures Staging() && outCurrent < q <= ARENA_SIZE
      ensures arena[outCurrent..q] == BasicHeader(fmt, m.csid) + MessageHeader(fmt, field, m) + ExtendedField(field)
    {
      hide Staging, BasicHeader, MessageHeader, ExtendedField;
      q := PutBasicHeader(outCurrent, fmt, h.csid);
      assert arena[outCurrent..q] == BasicHeader(fmt, h.csid);
      q := PutMessageHeader(q, fmt, field, h, m);
      q := PutExtended(q, field);
    }

    method PutExtended(p: nat, field: uint32) returns (q: nat)
      requires Staging() && outCurrent <= p && p + |ExtendedField(field)| <= ARENA_SIZE
      modifies arena
      ensures Staging() && q == p + |ExtendedField(field)|
      ensures arena[outCurrent..q] == old(arena[outCurrent..p]) + ExtendedField(field)
    {
      q := p;
      if field >= EXTENDED {
        q := Put(p, Copy32(field));
      }
    }

    /** The header of every chunk after the first. */
    method PutNextHeader(csid: uint32, field: uint32) returns (q: nat)
      requires Staging() && outCurrent + |NextHeader(csid, field)| <= ARENA_SIZE
      modifies arena
      ensures Staging() && outCurrent < q <= ARENA_SIZE && arena[outCurrent..q] == NextHeader(csid, field)
    {
      hide Staging, BasicHeader, ExtendedField;
      q := PutBasicHeader(outCurrent, 3, csid);
      assert arena[outCurrent..q] == BasicHeader(3, csid);
      q := PutExtended(q, field);
    }

    /** The stream's history after a message: its header, and the difference it was sent with. */
    method Remember(h: Header, fmt: Fmt, field: uint32, ghost j: Job)
      requires Staging() && History() && HeaderMatches(h, j.msg) && |j.msg.body| < TWO32
      requires fmt == PickFmt(LaneAt(h.csid), j) && field == Field(LaneAt(h.csid), j)
      modifies this`outDeltas, this`outMessageHeaders, this`lanes
      ensures Staging() && History() && lanes == After(old(lanes), j)
    {
      var prev := if h.csid in outMessageHeaders then outMessageHeaders[h.csid] else NO_HEADER;
      ghost var lane := LaneAt(h.csid);
      if fmt == 0 {
        outDeltas := outDeltas[h.csid := 0];
      } else if fmt <= 2 {
        outDeltas := outDeltas[h.csid := field];
      }
      var timestamp := if fmt == 0 then field else prev.timestamp + field;
      outMessageHeaders := outMessageHeaders[h.csid := Header(h.csid, timestamp, h.msgLen, h.msgType, h.msgSid)];
      assert LaneAt(h.csid) == LaneAfter(lane, j);
      lanes := After(lanes, j);
      forall csid: uint32 ensures LaneAt(csid) == OutLaneOf(lanes, csid) {
        assert csid != h.csid ==> LaneAt(csid) == old(LaneAt(csid));
      }
    }

    predicate HeaderMatches(h: Header, m: Message) {
      h.csid == m.csid && h.msgLen == |m.body| && h.msgType == m.msgType && h.msgSid == m.msgSid
    }

    /**
      The body in pieces, each in a range of its own, with a header staged between two pieces. The loop
      gives up where the arena is used up.
     */
    method StageChunks(data: array<byte>, msgLen: nat, csid: uint32, field: uint32)
      requires Staging() && data != arena && 0 < msgLen <= data.Length
      requires !NextHeaders(outCurrent, msgLen, outChunkSize, |NextHeader(csid, field)|).Overrun?
      modifies this`sendingBufs, this`staged, this`outCurrent, arena
      ensures Staging()
      ensures outCurrent == FreeFrom(NextHeaders(old(outCurrent), msgLen, outChunkSize, |NextHeader(csid, field)|))
      ensures Flatten(staged)
        == old(Flatten(staged)) + ChunksWithin(old(outCurrent), data[..msgLen], outChunkSize, NextHeader(csid, field))
      ensures forall v :: v in sendingBufs ==> v in old(sendingBufs) || v.base == arena || v.base == data
      ensures sendingBufs != []
    {
      hide Staging, BasicHeader, ExtendedField, NextHeader, Flatten;
      ghost var next := NextHeader(csid, field);
      ghost var body, c := data[..msgLen], outChunkSize;
      ghost var goal := Flatten(staged) + ChunksWithin(outCurrent, body, c, next);
      ghost var outcome := NextHeaders(outCurrent, msgLen, c, |next|);
      ArenaEnd();
      var bytesParsed: nat := 0;
      var more := true;
      assert body[0..] == body;
      while more
        invariant Staging() && outCurrent <= ARENA_SIZE && bytesParsed <= msgLen && data[..msgLen] == body
        invariant more ==> bytesParsed < msgLen
        invariant more ==> Flatten(staged) + ChunksWithin(outCurrent, body[bytesParsed..], c, next) == goal
        invariant more ==> NextHeaders(outCurrent, msgLen - bytesParsed, c, |next|) == outcome
        invariant !more ==> Flatten(staged) == goal && sendingBufs != [] && outCurrent == FreeFrom(outcome)
        invariant forall v :: v in sendingBufs ==> v in old(sendingBufs) || v.base == arena || v.base == data
        decreases more, msgLen - bytesParsed
      {
        var size := Min(msgLen - bytesParsed, outChunkSize);
        ghost var rest := body[bytesParsed..];
        Slice(data, msgLen, bytesParsed, size);
        ghost var before, position := Flatten(staged), outCurrent;
        StageBody(data, bytesParsed, size);
        bytesParsed := bytesParsed + size;
        assert rest[size..] == body[bytesParsed..];
        if bytesParsed < msgLen {
          if outCurrent >= ARENA_SIZE {
            more := false;
          } else {
            var q := PutNextHeader(csid, field);
            StageHeader(q);
            Assoc4(before, rest[..size], next, ChunksWithin(position + |next|, rest[size..], c, next));
          }
        } else {
          assert rest[..size] == rest;
          more := false;
        }
      }
    }

    lemma ArenaEnd()
      requires Staging()
      ensures arena.Length == ARENA_SIZE && outCurrent <= ARENA_SIZE
    {
    }

    /** Keeps the packet alive while the connection may still refer to its body. */
    method Retain(packet: PacketPtr)
      requires Staging() && History()
      modifies this`outSending
      ensures Staging() && History() && outSending == old(outSending) + [packet]
    {
      outSending := outSending + [packet];
    }

    /**
      One message becomes chunks, staged behind what was staged before, and the history moves on. What is
      staged is the message's encoding if the arena has room for its headers, and a part of it if the
      loop gives up; see `EncodeWithinIs`. No header may be written beyond the arena.
     */
    method BuildChunk(packet: PacketPtr, timestamp: uint32, fmt0: bool)
      requires Staging() && History() && Ready(packet) && packet.data != arena
      requires
        var j := JobFor(packet, timestamp, fmt0);
        !Headers(outCurrent, OutLaneOf(lanes, j.msg.csid), j, outChunkSize).Overrun?
      modifies `outCurrent, `outDeltas, `outMessageHeaders, `sendingBufs, `outSending, `lanes, `staged, arena
      ensures Staging() && History()
      ensures
        var j := old(JobFor(packet, timestamp, fmt0));
        var o := OutLaneOf(old(lanes), j.msg.csid);
        && Flatten(staged) == old(Flatten(staged)) + EncodeWithin(old(outCurrent), o, j, outChunkSize)
        && lanes == After(old(lanes), j)
        && outCurrent == FreeFrom(Headers(old(outCurrent), o, j, outChunkSize))
      ensures outSending == old(outSending) + [packet]
      ensures forall v :: v in sendingBufs ==> v in old(sendingBufs) || v.base == arena || v.base == packet.data
      ensures sendingBufs != []
    {
      hide Staging, BasicHeader, ExtendedField, MessageHeader, Flatten, ChunksWithin, NextHeaders, LaneAfter;
      var h := packet.header.value;
      ghost var j := JobFor(packet, timestamp, fmt0);
      ghost var o := OutLaneOf(lanes, h.csid);
      ghost var before, position := Flatten(staged), outCurrent;
      assert LaneAt(h.csid) == o;
      var fmt, field := ChooseFormat(h, timestamp, fmt0, j);
      hide PickFmt, Field;
      var q := PutFirstHeader(fmt, field, h, j.msg);
      ghost var first := arena[outCurrent..q];
      StageHeader(q);
      Remember(h, fmt, field, j);
      StageChunks(packet.data, h.msgLen, h.csid, field);
      Retain(packet);
      Assoc3(before, first, ChunksWithin(position + |first|, j.msg.body, outChunkSize, NextHeader(h.csid, field)));
    }

    // -------------------------------------------------------------------------------------------
    // The queue and the batches
    // -------------------------------------------------------------------------------------------

    /** The messages handed to `BuildChunk` so far, and those still waiting. */
    ghost var sent: seq<Job>
    ghost var queued: seq<Job>
    ghost var Repr: set<object>

    /** Every object the sender reads is owned; no packet's body is the arena. */
    ghost predicate Owned()
      reads `outWaiting, `outSending, `Repr
    {
      && this in Repr && arena in Repr && connection !in Repr
      && arena !in earlier && (forall a :: a in earlier ==> a in Repr)
      && (forall p :: p in outWaiting ==> p.data in Repr && p.data != arena && Ready(p))
      && (forall p :: p in outSending ==> p.data in Repr && p.data != arena)
    }

    /** The waiting packets still hold the messages they were queued with. */
    ghost predicate Waiting()
      reads `outWaiting, `outSending, `queued, `Repr, Repr - {this}
      ensures Waiting() ==> |queued| == |outWaiting| && BatchesFit(queued, outChunkSize)
    {
      && Owned()
      && |queued| == |outWaiting|
      && (forall i :: 0 <= i < |queued| ==> queued[i] == JobFor(outWaiting[i], 0, false))
      && BatchesFit(queued, outChunkSize)
    }

    /** A range refers to the used part of the arena, the body of a packet kept alive, or something earlier. */
    ghost predicate RefersTo(v: IoVec)
      reads `outCurrent, `outSending
    {
      Referred(v, outCurrent, outSending)
    }

    ghost predicate Referred(v: IoVec, limit: nat, packets: seq<PacketPtr>) {
      if v.base == arena then v.offset + v.length <= limit
      else v.base in earlier || exists p :: p in packets && p.data == v.base
    }

    ghost predicate Linked(vs: seq<IoVec>)
      reads `outCurrent, `outSending, `Repr
    {
      forall v :: v in vs ==> v.base in Repr && RefersTo(v)
    }

    /** The connection's earlier bytes and what has been built, as one stream. */
    ghost function Image(): seq<byte>
      requires Sized(sent)
      reads `sent
    {
      opening + EncodeAll(map[], sent, outChunkSize)
    }

    /** The stream grows by what is built. */
    lemma ImageGrows(base: seq<byte>, before: seq<byte>, encoded: seq<byte>, was: seq<Job>)
      requires Sized(was) && base + before == opening + EncodeAll(map[], was, outChunkSize)
      requires Sized(sent) && EncodeAll(map[], sent, outChunkSize) == EncodeAll(map[], was, outChunkSize) + encoded
      ensures base + (before + encoded) == Image()
    {
      hide EncodeAll;
      Assoc3(base, before, encoded);
      Assoc3(opening, EncodeAll(map[], was, outChunkSize), encoded);
    }

    ghost predicate Built()
      reads `outWaiting, `outSending, `outCurrent, `sendingBufs, `outMessageHeaders, `outDeltas
      reads `lanes, `staged, `sent, `Repr, Repr - {this}
      ensures Built() ==> Sized(sent)
    {
      && Owned() && Linked(sendingBufs) && Staging() && History()
      && Sized(sent) && lanes == LanesAfter(map[], sent)
      && |outSending| <= BATCH
    }

    method Dequeue() returns (packet: PacketPtr)
      requires Built() && Waiting() && outWaiting != []
      modifies `outWaiting, `queued
      ensures Built() && Waiting()
      ensures Ready(packet) && packet.data in Repr && packet.data != arena
      ensures old(queued)[0] == JobFor(packet, 0, false)
      ensures queued == old(queued)[1..]
    {
      packet := outWaiting[0];
      outWaiting := outWaiting[1..];
      TailFits(queued, outChunkSize);
      queued := queued[1..];
    }

    lemma StartsEmpty()
      requires Built() && Idle()
      ensures Flatten(staged) == []
    {
    }

    ghost method Record(j: Job)
      requires Staging() && History()
      modifies `sent
      ensures Staging() && History() && sent == old(sent) + [j]
    {
      sent := sent + [j];
    }

    /** The first waiting message has room in the arena: it is encoded whole. */
    lemma FrontFits(o: OutLane, j: Job)
      requires Built() && Waiting() && queued != [] && j == queued[0] && o == OutLaneOf(lanes, j.msg.csid)
      requires outCurrent + WorstCase(j, outChunkSize) <= ARENA_SIZE
      ensures |j.msg.body| < TWO32 && Headers(outCurrent, o, j, outChunkSize).Room?
      ensures Headers(outCurrent, o, j, outChunkSize).position <= outCurrent + WorstCase(j, outChunkSize)
      ensures EncodeWithin(outCurrent, o, j, outChunkSize) == Encode(o, j, outChunkSize)
      ensures Sized(sent + [j]) && LanesAfter(map[], sent + [j]) == After(lanes, j)
      ensures EncodeAll(map[], sent + [j], outChunkSize)
        == EncodeAll(map[], sent, outChunkSize) + Encode(o, j, outChunkSize)
    {
      hide BatchesFit, WorstCase, HeaderBytes, Encode, EncodeAll, LanesAfter, After, Headers, EncodeWithin;
      hide Linked, Flatten, Staging, History;
      assert Ready(outWaiting[0]);
      WorstCaseBounds(o, j, outChunkSize);
      ArenaIff(outCurrent, o, j, outChunkSize);
      EncodeWithinIs(outCurrent, o, j, outChunkSize);
      EncodeSnoc(map[], sent, j, outChunkSize);
    }

    /** The staged ranges refer to the arena, to the packet just built, or to what they referred to before. */
    lemma Relinked(vs: seq<IoVec>, limit: nat, packets: seq<PacketPtr>, packet: PacketPtr)
      requires Owned() && Below(sendingBufs, arena, outCurrent) && outSending == packets + [packet]
      requires forall v :: v in sendingBufs ==> v in vs || v.base == arena || v.base == packet.data
      requires forall v :: v in vs ==> v.base in Repr && Referred(v, limit, packets)
      ensures Linked(sendingBufs)
    {
      forall v | v in sendingBufs ensures v.base in Repr && RefersTo(v) {
        if v.base != arena && v.base !in earlier {
          if v in vs && v.base != packet.data {
            var p :| p in packets && p.data == v.base;
            assert p in outSending;
          } else {
            assert packet in outSending;
          }
        }
      }
    }

    lemma WereReferred()
      requires Linked(sendingBufs)
      ensures forall v :: v in sendingBufs ==> v.base in Repr && Referred(v, outCurrent, outSending)
    {
    }

    /** Takes the first waiting packet and builds its chunks. */
    method BuildFront(ghost o: OutLane, ghost j: Job)
      requires Built() && Waiting() && queued != [] && j == queued[0] && |outSending| < BATCH
      requires o == OutLaneOf(lanes, j.msg.csid) && |j.msg.body| < TWO32
      requires !Headers(outCurrent, o, j, outChunkSize).Overrun?
      requires Sized(sent + [j]) && LanesAfter(map[], sent + [j]) == After(lanes, j)
      modifies this, arena
      ensures Built() && Waiting() && unchanged(`Repr, `sending)
      ensures sent == old(sent) + [j] && queued == old(queued)[1..]
      ensures |outSending| == |old(outSending)| + 1 && sendingBufs != []
      ensures outCurrent == FreeFrom(Headers(old(outCurrent), o, j, outChunkSize))
      ensures Flatten(staged) == old(Flatten(staged)) + EncodeWithin(old(outCurrent), o, j, outChunkSize)
    {
      hide BatchesFit, LanesAfter, After, Flatten, Staging, Backed, Headers, EncodeWithin, Linked, Referred;
      hide History, Sized;
      ghost var vs, limit, packets := sendingBufs, outCurrent, outSending;
      WereReferred();
      var packet := Dequeue();
      BuildChunk(packet, 0, false);
      Record(j);
      StagedBelow();
      Relinked(vs, limit, packets, packet);
    }

    /** The same for a message that fits. `base` is what was built before the batch. */
    method BuildNext(ghost base: seq<byte>)
      requires Built() && Waiting() && outWaiting != [] && |outSending| < BATCH
      requires outCurrent + WorstCase(queued[0], outChunkSize) <= ARENA_SIZE
      requires base + Flatten(staged) == Image()
      modifies this, arena
      ensures Built() && Waiting() && unchanged(`Repr, `sending)
      ensures sent == old(sent) + [old(queued)[0]] && queued == old(queued)[1..]
      ensures |outSending| == |old(outSending)| + 1 && sendingBufs != []
      ensures outCurrent <= old(outCurrent) + WorstCase(old(queued)[0], outChunkSize)
      ensures base + Flatten(staged) == Image()
    {
      hide Built, Waiting, BatchesFit, WorstCase, HeaderBytes, Encode, EncodeAll, LanesAfter, After, Flatten;
      hide Headers, EncodeWithin, Sized;
      ghost var j, o := queued[0], OutLaneOf(lanes, queued[0].msg.csid);
      ghost var before, was := Flatten(staged), sent;
      FrontFits(o, j);
      BuildFront(o, j);
      ImageGrows(base, before, Encode(o, j, outChunkSize), was);
    }

    /** Nothing is staged and the arena is free. */
    predicate Idle()
      reads `outCurrent, `sendingBufs, `outSending
    {
      outCurrent == 0 && sendingBufs == [] && outSending == []
    }

    static lemma FrontMoves(a: seq<Job>, b: seq<Job>)
      requires b != []
      ensures a + [b[0]] + b[1..] == a + b
    {
    }

    /** Builds a batch: the first ten waiting packets, or all of them. */
    method BuildBatch()
      requires Built() && Waiting() && Idle() && outWaiting != []
      modifies this, arena
      ensures Built() && Waiting() && unchanged(`Repr, `sending)
      ensures sendingBufs != [] && sent + queued == old(sent + queued)
      ensures |sent| == |old(sent)| + Min(10, |old(queued)|)
      ensures old(Image()) + Flatten(staged) == Image()
    {
      hide Built, Waiting, BatchesFit, EncodeAll, Flatten, WorstCase;
      ghost var base, jobs, c := Image(), queued, outChunkSize;
      var i := 0;
      StartsEmpty();
      while i < BATCH && outWaiting != []
        invariant Built() && Waiting() && unchanged(`Repr, `sending)
        invariant i == |outSending| <= BATCH && i <= |jobs|
        invariant queued == jobs[i..] && sent + queued == old(sent + queued) && |queued| == |outWaiting|
        invariant outCurrent <= TotalWorst(jobs[..i], c)
        invariant base + Flatten(staged) == Image()
        invariant i > 0 ==> sendingBufs != []
      {
        BatchRoom(jobs, i, c);
        FrontMoves(sent, queued);
        assert queued[0] == jobs[i] && queued[1..] == jobs[i + 1..];
        BuildNext(base);
        i := i + 1;
      }
    }

    /** The invariant of every reachable state. */
    ghost predicate Valid()
      reads this, Repr, connection
      ensures Valid() ==> Sized(sent)
    {
      && Built() && Waiting()
      && Linked(connection.ioVecs) && connection.Valid()
      && (!sending ==> outWaiting == [] && Idle())
      && (sending && !connection.closed ==> connection.ioVecs != [])
      && (if connection.closed then connection.wire <= Image() else connection.Stream() == Image())
    }

    /** Takes over a connection with whatever it still has to write, such as the end of the handshake. */
    constructor Create(connection: TcpConnection)
      requires connection.Valid()
      ensures Valid() && this.connection == connection
      ensures opening == connection.Stream() && earlier == BasesOf(connection.ioVecs)
      ensures Repr == {this, arena} + earlier && fresh(arena)
      ensures sent == [] && queued == [] && !sending
    {
      this.connection := connection;
      arena := new byte[ARENA_SIZE](_ => 0);
      outCurrent := 0;
      outDeltas, outMessageHeaders := map[], map[];
      outWaiting, sendingBufs, outSending, sending := [], [], [], false;
      opening, earlier := connection.Stream(), BasesOf(connection.ioVecs);
      lanes, staged := map[], [];
      sent, queued := [], [];
      new;
      Repr := {this, arena} + earlier;
      NothingYet();
    }

    lemma NothingYet()
      requires connection.Valid() && opening == connection.Stream() && earlier == BasesOf(connection.ioVecs)
      requires Repr == {this, arena} + earlier && arena !in earlier && arena.Length == ARENA_SIZE
      requires Idle() && staged == [] && outWaiting == [] && !sending
      requires outMessageHeaders == map[] && outDeltas == map[] && lanes == map[] && sent == [] && queued == []
      ensures Valid()
    {
      EmptyFits(outChunkSize);
      assert EncodeAll(map[], sent, outChunkSize) == [] && Image() == opening + [];
      hide EncodeAll, BatchesFit, Flatten;
    }

    /** While nothing is being sent, the connection holds at most what it held from before. */
    ghost predicate Aloof()
      reads connection
    {
      forall v :: v in connection.ioVecs ==> v.base in earlier
    }

    lemma IdleIsAloof()
      requires Built() && Idle() && Linked(connection.ioVecs) && connection.Valid()
      ensures Aloof()
    {
      forall v | v in connection.ioVecs ensures v.base in earlier {
        assert RefersTo(v);
      }
    }

    /** Ready to hand over a batch. */
    ghost predicate Open()
      reads this, Repr, connection
      ensures Open() ==> Sized(sent)
    {
      && Built() && Waiting() && Aloof() && connection.Valid()
      && (if connection.closed then connection.wire <= Image() else connection.Stream() == Image())
    }

    /** The connection gets the staged ranges, or ignores them if it is closed. */
    method Flush(ghost base: seq<byte>)
      requires Built() && Waiting() && sending && sendingBufs != [] && Aloof() && connection.Valid()
      requires base + Flatten(staged) == Image()
      requires if connection.closed then connection.wire <= base else connection.Stream() == base
      modifies connection
      ensures Valid() && connection.wire == old(connection.wire) && connection.closed == old(connection.closed)
    {
      hide EncodeAll, Built, Waiting, Linked, Flatten, Backed, Valid, BatchesFit, Sized;
      BuiltRanges();
      PrefixExtends(connection.wire, base, Flatten(staged));
      ghost var image, vs, pending := Image(), connection.ioVecs, connection.pending;
      FlattenAppend(pending, staged);
      Assoc3(connection.wire, Flatten(pending), Flatten(staged));
      AloofIsLinked(vs);
      assert Quiet() && Linked(vs);
      connection.SendInLoop(sendingBufs, staged);
      assert Quiet() && Linked(vs);
      assert Image() == image;
      Assemble(base, image, vs);
    }

    lemma AloofIsLinked(vs: seq<IoVec>)
      requires Built() && forall v :: v in vs ==> v.base in earlier
      ensures Linked(vs)
    {
    }

    /** The part of the invariant that the connection's own state does not touch. */
    ghost predicate Quiet()
      reads this, Repr
    {
      Built() && Waiting() && Linked(sendingBufs) && connection !in Repr
    }

    lemma Assemble(base: seq<byte>, image: seq<byte>, vs: seq<IoVec>)
      requires Quiet() && sending && sendingBufs != [] && connection.Valid() && Linked(vs)
      requires Image() == image == base + Flatten(staged)
      requires if connection.closed then connection.wire <= image && connection.ioVecs == vs
               else connection.Stream() == image && connection.ioVecs == vs + sendingBufs
      ensures Valid()
    {
      hide EncodeAll, Built, Waiting, Flatten, Backed;
    }

    lemma BuiltRanges()
      requires Built()
      ensures connection !in Repr && Backed(sendingBufs, staged) && Linked(sendingBufs)
    {
    }

    /** Hands one batch to the connection. */
    method Send()
      requires outWaiting != [] && (if sending then Valid() else Open() && Idle())
      modifies this, arena, connection
      ensures Valid() && unchanged(`Repr) && sending
      ensures sent + queued == old(sent + queued)
      ensures |sent| == |old(sent)| + if old(sending) then 0 else Min(10, |old(queued)|)
      ensures connection.wire == old(connection.wire) && connection.closed == old(connection.closed)
      ensures old(sending) ==> sent == old(sent) && queued == old(queued)
    {
      if sending {
        return;
      }
      hide EncodeAll, Built, Waiting, Valid, Backed, Aloof, Flatten;
      MarkSending();
      ghost var base := Image();
      BuildBatch();
      Flush(base);
    }

    method MarkSending()
      requires Built() && Waiting()
      modifies `sending
      ensures Built() && Waiting() && sending
    {
      sending := true;
    }

    /** A packet joins the queue; a batch starts unless one is in flight. */
    method PushOutQueue(packet: PacketPtr)
      requires Valid() && Ready(packet) && packet.data != arena
      requires BatchesFit(queued + [JobFor(packet, 0, false)], outChunkSize)
      modifies this, arena, connection
      ensures Valid() && sending
      ensures sent + queued == old(sent + queued) + [old(JobFor(packet, 0, false))]
      ensures |queued| == if old(sending) then |old(queued)| + 1 else 0
      ensures connection.wire == old(connection.wire) && connection.closed == old(connection.closed)
      ensures old(sending) ==> sent == old(sent)
      ensures Repr == old(Repr) + {packet.data}
    {
      hide EncodeAll, BatchesFit;
      assert sent + (queued + [JobFor(packet, 0, false)]) == sent + queued + [JobFor(packet, 0, false)];
      Enqueue(packet);
      Send();
    }

    ghost method Adopt(data: array<byte>, vs: seq<IoVec>)
      requires Built() && Waiting() && Linked(vs)
      modifies `Repr
      ensures Built() && Waiting() && Linked(vs) && Repr == old(Repr) + {data}
    {
      hide EncodeAll, BatchesFit, Flatten, Backed, Staging, History, Image;
      Repr := Repr + {data};
    }

    method Enqueue(packet: PacketPtr)
      requires Valid() && Ready(packet) && packet.data != arena
      requires BatchesFit(queued + [JobFor(packet, 0, false)], outChunkSize)
      modifies `outWaiting, `queued, `Repr
      ensures Built() && Waiting() && outWaiting != [] && queued == old(queued) + [JobFor(packet, 0, false)]
      ensures Repr == old(Repr) + {packet.data}
      ensures if sending then Valid() else Open() && Idle()
    {
      hide EncodeAll, BatchesFit, Linked, Flatten, History, Image;
      if !sending {
        IdleIsAloof();
      }
      ghost var j := JobFor(packet, 0, false);
      Adopt(packet.data, connection.ioVecs);
      outWaiting := outWaiting + [packet];
      queued := queued + [j];
    }

    /** The connection has run dry: the arena, the ranges and the packets of the batch are given up. */
    method Reset()
      requires Built() && Waiting()
      modifies `sending, `outCurrent, `sendingBufs, `staged, `outSending
      ensures Built() && Waiting() && Idle() && !sending
    {
      hide EncodeAll, BatchesFit;
      sending := false;
      outCurrent := 0;
      sendingBufs, staged := [], [];
      outSending := [];
    }

    method CheckAndSend()
      requires Built() && Waiting()
      requires connection.ioVecs == [] && connection.pending == [] && !connection.closed && connection.Valid()
      requires connection.wire == Image()
      modifies this, arena, connection
      ensures Valid() && unchanged(`Repr) && sent + queued == old(sent + queued)
      ensures |sent| == |old(sent)| + Min(10, |old(queued)|) && (sending <==> old(queued) != [])
      ensures connection.wire == old(connection.wire) && !connection.closed
      ensures !sending ==> connection.ioVecs == []
    {
      hide EncodeAll, BatchesFit;
      Reset();
      assert connection.Stream() == connection.wire + [];
      if outWaiting != [] {
        Send();
      } else {
        Rested();
      }
    }

    /** Nothing is left to do: everything built has been written. */
    lemma Rested()
      requires Built() && Waiting() && Idle() && !sending && outWaiting == []
      requires connection.ioVecs == [] && connection.pending == [] && connection.Valid()
      requires !connection.closed && connection.wire == Image()
      ensures Valid()
    {
      hide Built, Waiting, EncodeAll;
      assert connection.Stream() == connection.wire + [];
    }

    lemma PartsStayLinked(vs: seq<IoVec>, us: seq<IoVec>)
      requires PartsOf(vs, us) && Linked(us)
      ensures Linked(vs)
    {
      forall v | v in vs ensures v.base in Repr && RefersTo(v) {
        var u :| u in us && Within(v, u);
      }
    }

    /** The invariant while part of the batch is still to go. */
    lemma StillValid()
      requires Quiet() && Linked(connection.ioVecs) && connection.Valid()
      requires !sending ==> outWaiting == [] && Idle()
      requires sending && !connection.closed ==> connection.ioVecs != []
      requires if connection.closed then connection.wire <= Image() else connection.Stream() == Image()
      ensures Valid()
    {
      hide Built, Waiting, Linked, EncodeAll, Flatten, Backed;
    }

    /** The socket is writable. When everything has gone out, the next batch starts. */
    method OnWritable(results: seq<WriteResult>)
      requires Valid()
      modifies this, arena, connection
      ensures Valid() && unchanged(`Repr) && sent + queued == old(sent + queued) && |queued| <= |old(queued)|
      ensures old(connection.wire) <= connection.wire <= old(connection.Stream())
      ensures old(connection.closed) || old(connection.ioVecs) == [] ==>
        unchanged(connection) && sent == old(sent) && queued == old(queued)
      ensures !old(connection.closed) && old(connection.ioVecs) != [] ==>
        var all, n := old(Flatten(connection.pending)), BytesAccepted(results);
        && connection.wire == old(connection.wire) + all[..Min(n, |all|)]
        && (connection.closed <==> n < |all| && Fails(results))
        && |sent| == |old(sent)| + (if n < |all| then 0 else Min(10, |old(queued)|))
        && (n >= |all| ==> (sending <==> old(queued) != []) && (!sending ==> connection.ioVecs == []))
    {
      BuiltRanges();
      hide EncodeAll, BatchesFit, Built, Waiting, Linked, PartsOf, Flatten, Backed;
      ghost var vs, image := connection.ioVecs, Image();
      assert Quiet() && Linked(vs);
      var complete := connection.OnWrite(results);
      assert Quiet() && Linked(vs) && Image() == image;
      if complete {
        CheckAndSend();
      } else {
        PartsStayLinked(connection.ioVecs, vs);
        assert connection.wire <= connection.Stream();
        StillValid();
      }
    }
  }
}
