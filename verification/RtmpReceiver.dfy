/** The receiving half of `RtmpContext`: `ParseMessage` and the acknowledgement counters, in place. */
module RtmpReceivers {
  import opened Bytes
  import opened ChunkFormat
  import opened ChunkParser
  import opened MsgBuffers
  import opened Sequences
  import opened Wrappers

  /** A packet under construction. Its body is filled in place, chunk by chunk. */
  class Packet {
    const capacity: int
    const data: array<byte>
    var header: Header
    var size: nat

    ghost predicate Valid()
      reads this
    {
      size <= data.Length && (size != 0 ==> size <= capacity) && capacity <= data.Length
    }

    ghost function Value(): Partial
      requires Valid()
      reads this, data
    {
      Partial(header, capacity, data[..size])
    }

    constructor (capacity: int, header: Header)
      ensures Valid() && fresh(data) && Value() == Partial(header, capacity, [])
    {
      this.capacity := capacity;
      this.header := header;
      this.data := new byte[if capacity < 0 then 0 else capacity](_ => 0);
      this.size := 0;
    }

    function Space(): int
      reads this
    {
      capacity - size
    }

    /** `memcpy` behind the bytes already there, and `UpdatePacketSize`. */
    method Extend(bytes: seq<byte>)
      requires Valid() && |bytes| <= Space()
      modifies this`size, data
      ensures Valid() && Value() == old(Value()).(data := old(Value()).data + bytes)
    {
      ghost var was := data[..size];
      forall i | 0 <= i < |bytes| {
        data[size + i] := bytes[i];
      }
      size := size + |bytes|;
      assert data[..size] == was + bytes;
    }
  }

  function Sum(ns: seq<int>): int {
    if |ns| == 0 then 0 else Sum(ns[..|ns| - 1]) + ns[|ns| - 1]
  }

  /** The values acknowledged over a series of reads with the window `w`, and what is counted at the end. */
  function AckRun(w: int, ns: seq<nat>): (seq<int>, int) {
    if |ns| == 0 then ([], 0)
    else
      var (acks, rest) := AckRun(w, ns[..|ns| - 1]);
      var x := rest + ns[|ns| - 1];
      if x < w then (acks, x) else (acks + [x], 0)
  }

  function Total(ns: seq<nat>): nat {
    if |ns| == 0 then 0 else Total(ns[..|ns| - 1]) + ns[|ns| - 1]
  }

  /**
    The window at work: after any reads less than a window is left unacknowledged, every value is at
    least the window, and acknowledged and counted bytes together are all that arrived.
   */
  lemma {:induction false} AcksOfRun(w: int, ns: seq<nat>)
    requires w > 0
    ensures
      var (acks, rest) := AckRun(w, ns);
      0 <= rest < w && Sum(acks) + rest == Total(ns) && AllAtLeast(acks, w)
    decreases |ns|
  {
    hide Sum, AllAtLeast;
    if |ns| == 0 {
      NoValues(w);
    } else {
      AcksOfRun(w, ns[..|ns| - 1]);
      var (acks, rest) := AckRun(w, ns[..|ns| - 1]);
      OneValueMore(acks, rest + ns[|ns| - 1], w);
    }
  }

  predicate AllAtLeast(acks: seq<int>, w: int) {
    forall i :: 0 <= i < |acks| ==> acks[i] >= w
  }

  lemma NoValues(w: int)
    ensures Sum([]) == 0 && AllAtLeast([], w)
  {
  }

  lemma OneValueMore(acks: seq<int>, x: int, w: int)
    requires AllAtLeast(acks, w)
    ensures Sum(acks + [x]) == Sum(acks) + x && (x >= w ==> AllAtLeast(acks + [x], w))
  {
    assert (acks + [x])[..|acks|] == acks;
  }

  /** Each acknowledgement says that everything up to some read has arrived. */
  lemma {:induction false} AckIsAll(w: int, ns: seq<nat>, i: nat) returns (m: nat)
    requires w > 0 && i <= |AckRun(w, ns).0|
    ensures m <= |ns| && Sum(AckRun(w, ns).0[..i]) == Total(ns[..m])
    decreases |ns|
  {
    var acks := AckRun(w, ns).0;
    if |ns| == 0 {
      m := 0;
    } else {
      var shorter := ns[..|ns| - 1];
      var before := AckRun(w, shorter).0;
      if i <= |before| {
        assert acks[..i] == before[..i];
        m := AckIsAll(w, shorter, i);
        assert shorter[..m] == ns[..m];
      } else {
        m := |ns|;
        AcksOfRun(w, ns);
        assert acks[..i] == acks && ns[..m] == ns;
      }
    }
  }

  lemma HeaderIgnoresPacket(l: Lane, x: Option<Partial>, open: Header, fmt: Fmt, t: seq<byte>)
    requires |t| >= HeaderLength(fmt)
    ensures ReadHeader(l.(partial := x), open, fmt, t) == ReadHeader(l, open, fmt, t)
  {
  }

  /** One turn of the parsing loop, with the messages `ms` completed before it. */
  lemma LoopTurn(st: InState, s: seq<byte>, ms: seq<Message>)
    requires |s| > 1
    ensures
      var c := ParseChunk(st, s);
      ParseAll(st, s).(msgs := ms + ParseAll(st, s).msgs) ==
        if c.Next? then
          var next := ParseAll(c.st, s[c.used..]);
          next.(msgs := ms + (if c.done.Some? then [c.done.value] else []) + next.msgs)
        else Outcome(c.st, s, ms)
  {
    hide ParseChunk, ParseAll;
    var c := ParseChunk(st, s);
    TurnIs(st, s);
    if c.Next? {
      var next := ParseAll(c.st, s[c.used..]).msgs;
      if c.done.Some? {
        Assoc3(ms, [c.done.value], next);
      } else {
        assert ms + [] == ms;
      }
    } else {
      assert ms + [] == ms;
    }
  }

  lemma TurnIs(st: InState, s: seq<byte>)
    requires |s| > 1
    ensures
      var c := ParseChunk(st, s);
      ParseAll(st, s) == if c.Next? then Cons(c.done, ParseAll(c.st, s[c.used..])) else Outcome(c.st, s, [])
  {
    hide ParseChunk, Cons;
  }

  lemma LoopEnds(st: InState, s: seq<byte>, ms: seq<Message>)
    ensures |s| <= 1 ==> ParseAll(st, s) == Outcome(st, s, [])
    ensures ms + [] == ms
  {
  }

  class RtmpReceiver {
    var inMessageHeaders: map<uint32, Header>
    var inPackets: map<uint32, Packet>
    var inDeltas: map<uint32, uint32>
    var inExt: map<uint32, bool>
    var inChunkSize: int

    var ackSize: int
    var inBytes: int
    var lastLeft: nat

    /** Completed messages, as handed to `MessageComplete`, and the values acknowledged to the peer. */
    var received: seq<Message>
    var acks: seq<int>

    ghost var lanes: map<uint32, Lane>
    ghost var delivered: int
    ghost var Repr: set<object>

    /** Open packets are distinct objects with distinct bodies, all owned by this receiver. */
    ghost predicate Separate()
      reads this`inPackets, this`Repr, Repr - {this}
    {
      && this in Repr
      && (forall c :: c in inPackets ==> inPackets[c] in Repr && inPackets[c].data in Repr && inPackets[c].Valid())
      && (forall c, d :: c in inPackets && d in inPackets && c != d ==>
            inPackets[c] != inPackets[d] && inPackets[c].data != inPackets[d].data)
    }

    /** The four maps at one key. */
    ghost function LaneAt(csid: uint32): Lane
      requires Separate()
      reads this`inMessageHeaders, this`inPackets, this`inDeltas, this`inExt, this`Repr, Repr - {this}
    {
      Lane(if csid in inMessageHeaders then inMessageHeaders[csid] else NO_HEADER,
           if csid in inPackets then Some(inPackets[csid].Value()) else None,
           if csid in inDeltas then inDeltas[csid] else 0,
           csid in inExt && inExt[csid])
    }

    ghost predicate Valid()
      reads this, Repr
    {
      && Separate()
      && (forall csid: uint32 :: LaneAt(csid) == LaneOf(lanes, csid))
      && Sum(acks) + inBytes == delivered
    }

    ghost function State(): InState
      reads this
    {
      InState(lanes, inChunkSize)
    }

    constructor ()
      ensures Valid() && fresh(Repr)
      ensures State() == InState(map[], 128) && received == [] && acks == [] && delivered == 0 && lastLeft == 0
      ensures ackSize == 2500000 && inBytes == 0
    {
      inMessageHeaders := map[];
      inPackets := map[];
      inDeltas := map[];
      inExt := map[];
      inChunkSize := 128;
      ackSize, inBytes, lastLeft := 2500000, 0, 0;
      received, acks := [], [];
      lanes := map[];
      delivered := 0;
      Repr := {this};
    }

    // -------------------------------------------------------------------------------------------
    // One chunk
    // -------------------------------------------------------------------------------------------

    /** `in_packets_[csid]` gets a packet of its own. */
    method Allocate(csid: uint32, msgLen: int)
      requires Separate() && csid !in inPackets
      modifies this`inPackets, this`Repr
      ensures Separate() && fresh(Repr - old(Repr)) && Repr >= old(Repr)
      ensures inPackets.Keys == old(inPackets).Keys + {csid}
      ensures
        var open := Partial(Header(csid, 0, msgLen % TWO32, 0, 0), msgLen, []);
        LaneAt(csid) == old(LaneAt(csid)).(partial := Some(open))
      ensures forall c: uint32 :: c != csid ==> LaneAt(c) == old(LaneAt(c))
    {
      hide Separate, LaneAt;
      var packet := new Packet(msgLen, Header(csid, 0, msgLen % TWO32, 0, 0));
      Own(csid, packet);
    }

    /** A packet that nothing else refers to becomes the stream's open one. */
    method Own(csid: uint32, packet: Packet)
      requires Separate() && csid !in inPackets
      requires packet.Valid() && packet !in Repr && packet.data !in Repr
      modifies this`inPackets, this`Repr
      ensures Separate() && Repr == old(Repr) + {packet, packet.data}
      ensures inPackets.Keys == old(inPackets).Keys + {csid}
      ensures LaneAt(csid) == old(LaneAt(csid)).(partial := Some(packet.Value()))
      ensures forall c: uint32 :: c != csid ==> LaneAt(c) == old(LaneAt(c))
    {
      inPackets := inPackets[csid := packet];
      Repr := Repr + {packet, packet.data};
    }

    /** `operator[]` on `in_message_headers_`: a missing entry appears, empty. */
    method HistoryFor(csid: uint32)
      requires Separate()
      modifies this`inMessageHeaders
      ensures Separate() && csid in inMessageHeaders
      ensures inMessageHeaders[csid] == LaneAt(csid).prev
      ensures forall c: uint32 :: LaneAt(c) == old(LaneAt(c))
    {
      if csid !in inMessageHeaders {
        inMessageHeaders := inMessageHeaders[csid := NO_HEADER];
      }
    }

    /** The stream's history and open packet, created where they are missing. */
    method OpenFor(csid: uint32, fmt: Fmt, t: seq<byte>)
      requires Separate() && |t| >= HeaderLength(fmt)
      modifies this`inMessageHeaders, this`inPackets, this`Repr
      ensures Separate() && fresh(Repr - old(Repr)) && Repr >= old(Repr)
      ensures csid in inPackets && csid in inMessageHeaders
      ensures
        var l := old(LaneAt(csid));
        LaneAt(csid) == l.(partial := Some(OpenPacket(l, csid, fmt, inChunkSize, t)))
      ensures forall c: uint32 :: c != csid ==> LaneAt(c) == old(LaneAt(c))
    {
      HistoryFor(csid);
      var msgLen: int := inMessageHeaders[csid].msgLen;
      if fmt == 0 || fmt == 1 {
        msgLen := Read24(t[3..]);
      } else if msgLen == 0 {
        msgLen := inChunkSize;
      }
      if csid !in inPackets {
        Allocate(csid, msgLen);
      }
    }

    /** Overwrites the header of the open packet, the delta and the extended-timestamp flag. */
    method Note(csid: uint32, packet: Packet, header: Header, delta: uint32, ext: bool)
      requires Separate() && csid in inPackets && packet == inPackets[csid]
      modifies packet`header, this`inDeltas, this`inExt
      ensures Separate()
      ensures LaneAt(csid) ==
        Lane(old(LaneAt(csid)).prev, Some(old(LaneAt(csid)).partial.value.(header := header)), delta, ext)
      ensures forall c: uint32 :: c != csid ==> LaneAt(c) == old(LaneAt(c))
    {
      packet.header := header;
      inDeltas := inDeltas[csid := delta];
      inExt := inExt[csid := ext];
    }

    /** Copies body bytes into the open packet and makes its header the stream's previous header. */
    method Fill(csid: uint32, packet: Packet, bytes: seq<byte>)
      requires Separate() && csid in inPackets && packet == inPackets[csid] && |bytes| <= packet.Space()
      modifies packet`size, packet.data, this`inMessageHeaders
      ensures Separate()
      ensures
        var l := old(LaneAt(csid));
        var p := l.partial.value;
        LaneAt(csid) == Lane(p.header, Some(p.(data := p.data + bytes)), l.delta, l.ext)
      ensures forall c: uint32 :: c != csid ==> LaneAt(c) == old(LaneAt(c))
    {
      packet.Extend(bytes);
      inMessageHeaders := inMessageHeaders[csid := packet.header];
    }

    /** Hands a full packet over and forgets it. */
    method Close(csid: uint32) returns (m: Message)
      requires Separate() && csid in inPackets
      modifies this`inPackets
      ensures Separate()
      ensures m == MessageOf(old(LaneAt(csid)).partial.value)
      ensures LaneAt(csid) == old(LaneAt(csid)).(partial := None)
      ensures forall c: uint32 :: c != csid ==> LaneAt(c) == old(LaneAt(c))
    {
      var packet := inPackets[csid];
      var h := packet.header;
      m := Message(h.csid, h.msgType, h.msgSid, h.timestamp, packet.data[..packet.size]);
      inPackets := map c | c in inPackets && c != csid :: inPackets[c];
    }

    /** The message header's fields, combined with the stream's history. */
    method HeaderFields(csid: uint32, fmt: Fmt, t: seq<byte>) returns (header: Header, delta: uint32)
      requires Separate() && csid in inPackets && csid in inMessageHeaders && |t| >= HeaderLength(fmt)
      ensures (header, delta) == ReadHeader(LaneAt(csid), inPackets[csid].header, fmt, t)
    {
      var prev := inMessageHeaders[csid];
      header := inPackets[csid].header;
      if fmt == 0 {
        delta := 0;
        header := header.(timestamp := Read24(t), msgLen := Read24(t[3..]), msgType := t[6], msgSid := Load32(t[7..]));
      } else if fmt == 1 {
        var ts := Read24(t);
        delta := ts;
        header := header.(timestamp := (ts as int + prev.timestamp) % TWO32, msgLen := Read24(t[3..]),
                          msgType := t[6], msgSid := prev.msgSid);
      } else if fmt == 2 {
        var ts := Read24(t);
        delta := ts;
        header := header.(timestamp := (ts as int + prev.timestamp) % TWO32, msgLen := prev.msgLen,
                          msgType := prev.msgType, msgSid := prev.msgSid);
      } else {
        delta := if csid in inDeltas then inDeltas[csid] else 0;
        if header.timestamp == 0 {
          header := header.(timestamp := (delta as int + prev.timestamp) % TWO32);
        }
        header := header.(msgLen := prev.msgLen, msgType := prev.msgType, msgSid := prev.msgSid);
      }
    }

    /** Copies the chunk's body, which starts at `t[n]`, and closes the packet once it is full. */
    method BodyBytes(csid: uint32, packet: Packet, t: seq<byte>, n: nat)
      returns (taken: bool, used: nat, done: Option<Message>)
      requires Separate() && csid in inPackets && packet == inPackets[csid] && n <= |t|
      modifies packet`size, packet.data, this`inMessageHeaders, this`inPackets
      ensures Separate()
      ensures
        var l := old(LaneAt(csid));
        var step := TakeBody(l.(partial := None), l.partial.value, inChunkSize, t, n);
        && taken == step.Taken? && !step.Short? && LaneAt(csid) == step.lane
        && (taken ==> used == step.used && done == step.done)
      ensures forall c: uint32 :: c != csid ==> LaneAt(c) == old(LaneAt(c))
    {
      taken, used, done := false, 0, None;
      var bytes := Min(packet.Space(), inChunkSize);
      if bytes < 0 || |t| - n < bytes {
        return;
      }
      Fill(csid, packet, t[n..n + bytes]);
      taken, used := true, n + bytes;
      if packet.Space() == 0 {
        var m := Close(csid);
        done := Some(m);
      }
    }

    /** Opens the packet and notes the message header in it, before any extended timestamp is read. */
    method Begin(csid: uint32, fmt: Fmt, t: seq<byte>) returns (packet: Packet, header: Header, ext: bool)
      requires Separate() && |t| > 0 && |t| >= HeaderLength(fmt)
      modifies this`inMessageHeaders, this`inPackets, this`inDeltas, this`inExt, this`Repr, Repr
      ensures Separate() && fresh(Repr - old(Repr)) && Repr >= old(Repr)
      ensures csid in inPackets && packet == inPackets[csid] && packet in Repr && packet.data in Repr
      ensures
        var l := old(LaneAt(csid));
        var open := OpenPacket(l, csid, fmt, inChunkSize, t);
        var (h, delta) := ReadHeader(l, open.header, fmt, t);
        && header == h && ext == (if fmt == 3 then l.ext else Read24(t) == EXTENDED)
        && LaneAt(csid) == Lane(l.prev, Some(open.(header := h)), delta, ext)
      ensures forall c: uint32 :: c != csid ==> LaneAt(c) == old(LaneAt(c))
      ensures unchanged(`inChunkSize, `ackSize, `inBytes, `lastLeft, `received, `acks, `lanes, `delivered)
    {
      hide OpenPacket, ReadHeader, Read24, Separate, LaneAt;
      ghost var l := LaneAt(csid);
      OpenFor(csid, fmt, t);
      packet := inPackets[csid];
      OpenFacts(csid);
      HeaderIgnoresPacket(l, LaneAt(csid).partial, packet.header, fmt, t);
      var delta;
      header, delta := HeaderFields(csid, fmt, t);
      ext := PreviousFlag(csid);
      if fmt != 3 {
        ext := Read24(t) == EXTENDED;
      }
      Note(csid, packet, header, delta, ext);
    }

    lemma OpenFacts(csid: uint32)
      requires Separate() && csid in inPackets
      ensures inPackets[csid] in Repr && inPackets[csid].data in Repr
      ensures LaneAt(csid).partial.Some? && LaneAt(csid).partial.value.header == inPackets[csid].header
    {
    }

    method PreviousFlag(csid: uint32) returns (ext: bool)
      requires Separate()
      ensures ext == LaneAt(csid).ext
    {
      ext := csid in inExt && inExt[csid];
    }

    /** The previous header of a stream with an open packet. */
    method PreviousHeader(csid: uint32) returns (prev: Header)
      requires Separate()
      ensures prev == LaneAt(csid).prev
    {
      prev := if csid in inMessageHeaders then inMessageHeaders[csid] else NO_HEADER;
    }

    /** The extended timestamp `ts` counts from the stream's previous one, and becomes its delta. */
    method NoteStamp(csid: uint32, packet: Packet, header: Header, ts: uint32)
      requires Separate() && csid in inPackets && packet == inPackets[csid]
      modifies packet`header, this`inDeltas, this`inExt
      ensures Separate()
      ensures
        var l := old(LaneAt(csid));
        var h := header.(timestamp := (ts as int + l.prev.timestamp) % TWO32);
        LaneAt(csid) == Lane(l.prev, Some(l.partial.value.(header := h)), ts, true)
      ensures forall c: uint32 :: c != csid ==> LaneAt(c) == old(LaneAt(c))
    {
      hide Separate, LaneAt;
      OpenFacts(csid);
      var prev := PreviousHeader(csid);
      Note(csid, packet, header.(timestamp := (ts as int + prev.timestamp) % TWO32), ts, true);
    }

    /** One chunk whose basic header has been read; `t` is what follows it. */
    method TakeChunk(csid: uint32, fmt: Fmt, t: seq<byte>) returns (taken: bool, used: nat, done: Option<Message>)
      requires Separate() && |t| > 0 && |t| >= HeaderLength(fmt)
      modifies this`inMessageHeaders, this`inPackets, this`inDeltas, this`inExt, this`Repr, Repr
      ensures Separate() && fresh(Repr - old(Repr))
      ensures
        var step := StepLane(old(LaneAt(csid)), csid, fmt, inChunkSize, t);
        && taken == step.Taken? && !step.Short? && LaneAt(csid) == step.lane
        && (taken ==> used == step.used && done == step.done)
      ensures forall c: uint32 :: c != csid ==> LaneAt(c) == old(LaneAt(c))
      ensures unchanged(`inChunkSize, `ackSize, `inBytes, `lastLeft, `received, `acks, `lanes, `delivered)
    {
      hide Separate, LaneAt, OpenPacket, ReadHeader, TakeBody, Read24, Read32, StepLane;
      taken, used, done := false, 0, None;
      ghost var l := LaneAt(csid);
      ghost var open := OpenPacket(l, csid, fmt, inChunkSize, t);
      ghost var delta := ReadHeader(l, open.header, fmt, t).1;
      var packet, header, ext := Begin(csid, fmt, t);
      var n := HeaderLength(fmt);
      if !ext {
        StepPlain(l, csid, fmt, inChunkSize, t, open, header, delta);
      } else if |t| - n < 4 {
        StepCutShort(l, csid, fmt, inChunkSize, t, open, header, delta);
        return;
      } else {
        StepExtended(l, csid, fmt, inChunkSize, t, open, header, delta);
        var ts := Read32(t[n..]);
        n := n + 4;
        if fmt != 0 {
          NoteStamp(csid, packet, header, ts);
        }
      }
      taken, used, done := BodyBytes(csid, packet, t, n);
    }

    // -------------------------------------------------------------------------------------------
    // The parsing loop
    // -------------------------------------------------------------------------------------------

    method HandleChunkSize(m: Message)
      requires m.msgType == SET_CHUNK_SIZE
      modifies this`inChunkSize
      ensures inChunkSize == ChunkSizeAfter(old(inChunkSize), m)
    {
      if |m.body| >= 4 {
        inChunkSize := Signed32(Read32(m.body));
      }
    }

    method HandleAckWindowSize(m: Message)
      modifies this`ackSize
      ensures ackSize == if |m.body| >= 4 then Signed32(Read32(m.body)) else old(ackSize)
    {
      if |m.body| >= 4 {
        ackSize := Signed32(Read32(m.body));
      }
    }

    lemma OnlyChunkSize(k: int, m: Message)
      ensures m.msgType != SET_CHUNK_SIZE ==> ChunkSizeAfter(k, m) == k
    {
    }

    method MessageComplete(m: Message)
      requires Valid()
      modifies this`received, this`inChunkSize, this`ackSize
      ensures Valid()
      ensures received == old(received) + [m]
      ensures inChunkSize == ChunkSizeAfter(old(inChunkSize), m)
      ensures ackSize ==
        if m.msgType == WINDOW_ACK_SIZE && |m.body| >= 4 then Signed32(Read32(m.body)) else old(ackSize)
    {
      hide Separate, LaneAt, ChunkSizeAfter, Sum, LaneOf;
      received := received + [m];
      if m.msgType == SET_CHUNK_SIZE {
        HandleChunkSize(m);
      } else if m.msgType == WINDOW_ACK_SIZE {
        HandleAckWindowSize(m);
      }
      OnlyChunkSize(old(inChunkSize), m);
    }

    /** Records in the abstract state what a step on `csid` did to the maps. */
    ghost method Adopt(csid: uint32, lane: Lane)
      requires Separate() && LaneAt(csid) == lane && Sum(acks) + inBytes == delivered
      requires forall c: uint32 :: c != csid ==> LaneAt(c) == LaneOf(lanes, c)
      modifies this`lanes
      ensures Valid() && lanes == old(lanes)[csid := lane]
    {
      ghost var was := lanes;
      lanes := lanes[csid := lane];
      forall c: uint32 ensures LaneAt(c) == LaneOf(lanes, c) {
        assert LaneAt(c) == old(LaneAt(c));
        assert c != csid ==> LaneOf(lanes, c) == LaneOf(was, c);
      }
    }

    /** One turn of the loop: `more` says whether a chunk was consumed. */
    method ReadChunk(buf: MsgBuffer) returns (more: bool)
      requires Valid() && buf.Valid() && {buf, buf.buffer} !! Repr && buf.ReadableBytes() > 1
      modifies this, Repr, buf
      ensures Valid() && fresh(Repr - old(Repr)) && buf.Valid() && buf.buffer == old(buf.buffer)
      ensures unchanged(`inBytes, `lastLeft, `acks, `delivered)
      ensures
        var c := ParseChunk(old(State()), old(buf.Contents()));
        && State() == c.st && more == c.Next?
        && (more ==> buf.Contents() == old(buf.Contents())[c.used..]
                     && received == old(received) + if c.done.Some? then [c.done.value] else [])
        && (!more ==> buf.Contents() == old(buf.Contents()) && received == old(received))
    {
      hide StepLane, ChunkSizeAfter, ParseBasic, Separate, LaneAt, Sum;
      more := false;
      var s := buf.buffer[buf.head..buf.tail];
      var cut, fmt, csid, parsed := ReadBasicHeader(s);
      if cut {
        return;
      }
      var t := s[parsed..];
      if |t| == 0 || |t| < HeaderLength(fmt) {
        StepTooShort(LaneAt(csid), csid, fmt, inChunkSize, t);
        return;
      }
      var taken, used, done := StepAndAdopt(csid, fmt, t);
      if !taken {
        return;
      }
      more := true;
      buf.Retrieve(parsed + used);
      if done.Some? {
        MessageComplete(done.value);
      }
    }

    method ReadBasicHeader(s: seq<byte>) returns (cut: bool, fmt: Fmt, csid: uint32, parsed: nat)
      requires |s| > 1
      ensures ParseBasic(s) == if cut then Cut else Basic(fmt, csid, parsed)
    {
      cut, fmt, csid, parsed := false, s[0] / 64, s[0] % 64, 1;
      if csid == 0 {
        csid := 64 + s[1] as int;
        parsed := 2;
      } else if csid == 1 {
        if |s| < 3 {
          cut := true;
          return;
        }
        csid := 64 + s[1] as int + s[2] as int * 0x100;
        parsed := 3;
      }
    }

    /** `TakeChunk`, together with its effect on the abstract state. */
    method StepAndAdopt(csid: uint32, fmt: Fmt, t: seq<byte>) returns (taken: bool, used: nat, done: Option<Message>)
      requires Valid() && |t| > 0 && |t| >= HeaderLength(fmt)
      modifies this, Repr
      ensures Valid() && fresh(Repr - old(Repr))
      ensures
        var step := StepLane(LaneOf(old(lanes), csid), csid, fmt, inChunkSize, t);
        && taken == step.Taken? && !step.Short? && lanes == old(lanes)[csid := step.lane]
        && (taken ==> used == step.used && done == step.done)
      ensures unchanged(`inChunkSize, `ackSize, `inBytes, `lastLeft, `received, `acks, `delivered)
    {
      hide StepLane, Separate, LaneAt;
      ghost var step := StepLane(LaneAt(csid), csid, fmt, inChunkSize, t);
      taken, used, done := TakeChunk(csid, fmt, t);
      Adopt(csid, step.lane);
    }

    lemma StepTooShort(l: Lane, csid: uint32, fmt: Fmt, k: int, t: seq<byte>)
      requires |t| == 0 || |t| < HeaderLength(fmt)
      ensures StepLane(l, csid, fmt, k, t).Short?
    {
    }

    /** With `x` bytes counted, exactly a full window is acknowledged, as a whole. */
    predicate Acknowledged(was: seq<int>, x: int, window: int)
      reads `acks, `inBytes
    {
      if x < window then acks == was && inBytes == x else acks == was + [x] && inBytes == 0
    }

    /** Acknowledges what has arrived, once a full window has. */
    method SendBytesRecv()
      requires Separate()
      modifies this`acks, this`inBytes
      ensures Separate() && Sum(acks) + inBytes == old(Sum(acks) + inBytes)
      ensures Acknowledged(old(acks), old(inBytes), ackSize)
      ensures forall c: uint32 :: LaneAt(c) == old(LaneAt(c))
    {
      if inBytes >= ackSize {
        assert (acks + [inBytes])[..|acks|] == acks;
        acks := acks + [inBytes];
        inBytes := 0;
      }
    }

    method CountArrival(n: int)
      requires Valid()
      modifies this`acks, this`inBytes, this`delivered
      ensures Valid() && delivered == old(delivered) + n
      ensures Acknowledged(old(acks), old(inBytes) + n, ackSize)
    {
      hide Separate, LaneAt, Sum, LaneOf;
      inBytes := inBytes + n;
      delivered := delivered + n;
      SendBytesRecv();
    }

    method ParseMessage(buf: MsgBuffer)
      requires Valid() && buf.Valid() && {buf, buf.buffer} !! Repr
      modifies this, Repr, buf
      ensures Valid() && fresh(Repr - old(Repr)) && buf.Valid() && buf.buffer == old(buf.buffer)
      ensures unchanged(`lastLeft)
      ensures
        var o := ParseAll(old(State()), old(buf.Contents()));
        State() == o.st && buf.Contents() == o.rest && received == old(received) + o.msgs
      ensures delivered == old(delivered) + |old(buf.Contents())| - old(lastLeft)
      ensures Acknowledged(old(acks), old(inBytes) + |old(buf.Contents())| - old(lastLeft), old(ackSize))
    {
      hide ParseChunk, ParseAll, LaneAt, Separate, Valid, Sum;
      CountArrival(buf.ReadableBytes() - lastLeft);
      ghost var goal := ParseAll(State(), buf.Contents());
      ghost var ms := [];
      var more := true;
      assert [] + goal.msgs == goal.msgs;
      while more && buf.ReadableBytes() > 1
        invariant Valid() && fresh(Repr - old(Repr)) && buf.Valid() && buf.buffer == old(buf.buffer)
        invariant {buf, buf.buffer} !! Repr
        invariant unchanged(`lastLeft)
        invariant delivered == old(delivered) + |old(buf.Contents())| - old(lastLeft)
        invariant Acknowledged(old(acks), old(inBytes) + |old(buf.Contents())| - old(lastLeft), old(ackSize))
        invariant received == old(received) + ms
        invariant more ==>
          goal == ParseAll(State(), buf.Contents()).(msgs := ms + ParseAll(State(), buf.Contents()).msgs)
        invariant !more ==> goal == Outcome(State(), buf.Contents(), ms)
        decreases more, buf.ReadableBytes()
      {
        ghost var s, st := buf.Contents(), State();
        ghost var c := ParseChunk(st, s);
        LoopTurn(st, s, ms);
        more := ReadChunk(buf);
        if more {
          ms := ms + if c.done.Some? then [c.done.value] else [];
        }
      }
      LoopEnds(State(), buf.Contents(), ms);
    }

    /** `Parse` once the handshake is over. */
    method Parse(buf: MsgBuffer)
      requires Valid() && buf.Valid() && {buf, buf.buffer} !! Repr
      modifies this, Repr, buf
      ensures Valid() && fresh(Repr - old(Repr)) && buf.Valid() && buf.buffer == old(buf.buffer)
      ensures
        var o := ParseAll(old(State()), old(buf.Contents()));
        State() == o.st && buf.Contents() == o.rest && received == old(received) + o.msgs
      ensures delivered == old(delivered) + |old(buf.Contents())| - old(lastLeft)
      ensures Acknowledged(old(acks), old(inBytes) + |old(buf.Contents())| - old(lastLeft), old(ackSize))
      ensures lastLeft == |buf.Contents()|
    {
      hide Separate, LaneAt, Sum, ParseAll;
      ParseMessage(buf);
      lastLeft := buf.ReadableBytes();
    }

    /** Everything observable about the receiver and its buffer. */
    ghost function Progress(buf: MsgBuffer): Outcome
      requires buf.Valid()
      reads this, buf, buf.buffer
    {
      Outcome(State(), buf.Contents(), received)
    }

    /** The connection read `incoming`: it goes through the buffer into the parser. */
    method OnRead(buf: MsgBuffer, incoming: seq<byte>)
      requires Valid() && buf.Valid() && {buf, buf.buffer} !! Repr && lastLeft == |buf.Contents()|
      requires |incoming| <= buf.ReadLimit()
      modifies this, Repr, buf, buf.buffer
      ensures Valid() && buf.Valid() && {buf, buf.buffer} !! Repr && lastLeft == |buf.Contents()|
      ensures fresh(Repr - old(Repr)) && (buf.buffer == old(buf.buffer) || fresh(buf.buffer))
      ensures
        var x := old(inBytes) + |incoming|;
        if x < old(ackSize) then acks == old(acks) && inBytes == x
        else acks == old(acks) + [x] && inBytes == 0
      ensures Progress(buf) == Continue(old(Progress(buf)), incoming)
      ensures delivered == old(delivered) + |incoming|
      ensures Sum(acks) + inBytes == delivered
    {
      hide ParseAll, LaneAt, Separate;
      buf.ReadFd(incoming);
      Parse(buf);
    }
  }
}
