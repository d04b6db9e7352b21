/** `RtmpHandShake` as an object: its blocks are built in place, and the connection refers to them. */
module RtmpHandShakes {
  import opened Bytes
  import opened HandShakes
  import opened HandShakeProtocol
  import opened MsgBuffers
  import opened TcpConnections
  import opened Sequences

  lemma OffsetFrame(a: seq<byte>, b: seq<byte>, off: nat)
    requires off + 4 <= |a| == |b| && a[off..off + 4] == b[off..off + 4]
    ensures GetDigestOffset(a, off) == GetDigestOffset(b, off)
  {
    var x, y := a[off..off + 4], b[off..off + 4];
    assert x[0] == y[0] && x[1] == y[1] && x[2] == y[2] && x[3] == y[3];
  }

  /** Where the zero time and the version are written does not touch what chooses the digest's place. */
  lemma SameOffset(client: bool, fill: seq<byte>, s: seq<byte>)
    requires |fill| == |s| == PACKET + 1 && s[9..] == fill[9..]
    ensures GetDigestOffset(s[1..], 8) == GetDigestOffset(Unsigned(client, fill)[1..], 8)
  {
    var u := Unsigned(client, fill);
    assert s[1..][8..12] == s[9..][..4] == u[9..][..4] == u[1..][8..12];
    OffsetFrame(s[1..], u[1..], 8);
  }

  method Put(a: array<byte>, at: nat, data: seq<byte>)
    requires at + |data| <= a.Length
    modifies a
    ensures a[..] == old(a[..at]) + data + old(a[at + |data|..])
  {
    forall i | 0 <= i < |data| {
      a[at + i] := data[i];
    }
  }

  method FillRandom(a: array<byte>, random: seq<byte>)
    requires |random| == a.Length
    modifies a
    ensures a[..] == random
  {
    for i := 0 to a.Length
      invariant a[..i] == random[..i]
    {
      a[i] := random[i];
    }
  }

  /** `HandShake` on a complete C0C1 or S0S1, by what the check says of it. */
  lemma FirstHandled(h: Hmac, keys: Keys, e: End, reply: seq<byte>, k: nat, stale: byte)
    requires |reply| == PACKET && |e.c1s1| == PACKET + 1 && e.hs in {WaitC0C1, WaitS0S1}
    requires |e.buf| >= if e.hs == WaitC0C1 then PACKET + 1 else PACKET
    ensures
      HandShake(h, keys, e, reply, k, stale) ==
        match CheckC1S1(h, keys, e.client, e.complex, Looked(e.buf, stale))
        case Rejected => (e, FAILED)
        case Accepted(_, c) =>
          var next := if e.hs == WaitC0C1 then PostS0S1 else PostC2;
          var answer := if e.hs == WaitC0C1 then e.c1s1 else reply;
          (Send(Retrieve(e.(complex := c), PACKET + 1).(hs := next), answer, k), NEED_MORE)
  {
    hide CheckC1S1, Send;
  }

  class RtmpHandShake {
    const h: Hmac
    const keys: Keys
    const client: bool
    const c1s1: array<byte>
    const c2s2: array<byte>
    const connection: TcpConnection
    const buf: MsgBuffer
    var complex: bool
    var state: HsState
    /** The state of the `RtmpContext` around it. */
    var context: ContextState
    ghost var used: nat

    /** Nothing refers to a block while the endpoint waits: it may be overwritten then. */
    ghost predicate Valid()
      reads this, connection, buf, buf.buffer, c1s1, c2s2
    {
      && c1s1.Length == PACKET + 1 && c2s2.Length == PACKET
      && buf.buffer != c1s1 && buf.buffer != c2s2 && c1s1 != c2s2
      && buf.Valid()
      && (forall v :: v in connection.ioVecs ==> v.base in {c1s1, c2s2})
      && connection.Valid()
      && (state in {NotStarted, WaitC0C1, WaitS0S1, WaitC2, WaitS2} ==> connection.ioVecs == [])
    }

    /** The endpoint of the protocol that this object is. */
    ghost function Endpoint(): End
      requires Valid()
      reads this, connection, buf, buf.buffer, c1s1, c2s2
    {
      End(client, state, context, complex, connection.closed, c1s1[..],
          connection.wire, Flatten(connection.pending), [], used + |buf.Contents()|, used, buf.Contents())
    }

    constructor (h: Hmac, keys: Keys, client: bool)
      ensures Valid() && !connection.closed && state == NotStarted && complex
      ensures fresh(connection) && fresh(buf) && fresh(buf.buffer) && fresh(c1s1) && fresh(c2s2)
      ensures Endpoint() == End(client, NotStarted, InHandShake, true, false, c1s1[..], [], [], [], 0, 0, [])
    {
      this.h, this.keys, this.client := h, keys, client;
      c1s1, c2s2 := new byte[PACKET + 1](_ => 0), new byte[PACKET](_ => 0);
      connection := new TcpConnection();
      buf := new MsgBuffer(1024);
      complex, state, context, used := true, NotStarted, InHandShake, 0;
    }

    /** The digest goes where the random bytes say, computed over the block around it. */
    method Sign(random: seq<byte>)
      requires |random| == PACKET + 1 == c1s1.Length && c1s1[..] == [3, 0, 0, 0, 0] + random[5..]
      modifies c1s1
      ensures c1s1[..] == Signed(h, keys, client, random)
    {
      hide GetDigestOffset, CalculateDigest;
      ghost var s := [3, 0, 0, 0, 0] + random[5..];
      assert c1s1[1..] == s[1..] && s[9..] == random[9..];
      SameOffset(client, random, s);
      DigestRange(c1s1[1..]);
      var offset := GetDigestOffset(c1s1[1..], 8);
      var version := if client then CLIENT_VERSION else SERVER_VERSION;
      Put(c1s1, 5, version);
      assert s[..5] + version + s[9..] == Unsigned(client, random);
      assert c1s1[1..] == c1s1[..][1..];
      var digest := CalculateDigest(h, c1s1[1..], offset, if client then keys.player else keys.server);
      Put(c1s1, 1 + offset, digest);
    }

    method CreateC1S1(random: seq<byte>)
      requires Valid() && state == NotStarted && |random| == PACKET + 1
      modifies c1s1
      ensures Valid() && c1s1[..] == FirstBlock(h, keys, client, complex, random)
    {
      hide Signed;
      FillRandom(c1s1, random);
      Put(c1s1, 0, [3, 0, 0, 0, 0]);
      if !complex {
        Put(c1s1, 5, [0, 0, 0, 0]);
      } else {
        Sign(random);
      }
    }

    method CheckC1S1(data: seq<byte>) returns (offset: int)
      requires |data| == PACKET + 1
      modifies `complex
      ensures
        match HandShakes.CheckC1S1(h, keys, client, old(complex), data)
        case Rejected => offset == -1 && complex == old(complex)
        case Accepted(at, c) => offset == at && complex == c && at + DIGEST <= PACKET
    {
      hide GetDigestOffset, CalculateDigest, VerifyDigest;
      if data[0] != 3 {
        return -1;
      }
      if data[5] == data[6] == data[7] == data[8] == 0 {
        complex := false;
        return 0;
      }
      offset := 0;
      if complex {
        var block := data[1..];
        var key := if client then keys.server else keys.player;
        DigestRange(block);
        offset := GetDigestOffset(block, 8);
        if !VerifyDigest(h, block, offset, key) {
          offset := GetDigestOffset(block, 772);
          if !VerifyDigest(h, block, offset, key) {
            return -1;
          }
        }
      }
    }

    method CreateC2S2(block: seq<byte>, offset: nat, random: seq<byte>, now: uint32)
      requires |block| == |random| == PACKET == c2s2.Length && offset + DIGEST <= PACKET
      modifies c2s2
      ensures c2s2[..] == SecondBlock(h, keys, client, complex, block, offset, random, now)
    {
      FillRandom(c2s2, random);
      Put(c2s2, 0, block[..8]);
      Put(c2s2, 0, Write32(now));
      assert c2s2[..] == Write32(now) + block[4..8] + random[8..];
      if complex {
        var own := if client then keys.playerFull else keys.serverFull;
        var key := CalculateDigest(h, block[offset..offset + DIGEST], 0, own);
        var digest := CalculateDigest(h, c2s2[..PACKET - DIGEST], 0, key);
        Put(c2s2, PACKET - DIGEST, digest);
      }
    }

    method WriteComplete()
      requires Valid() && connection.ioVecs == []
      modifies `state
      ensures Valid() && Endpoint() == HandShakeProtocol.WriteComplete(old(Endpoint()))
    {
      match state
      case PostS0S1 => state := WaitC2;
      case PostS2 => state := Done;
      case PostC0C1 => state := WaitS0S1;
      case PostC2 => state := WaitS2;
      case Doning => state := Done;
      case _ =>
    }

    method OnWriteComplete()
      requires Valid() && connection.ioVecs == []
      modifies `state, `context
      ensures Valid() && Endpoint() == HandShakeProtocol.OnWriteComplete(old(Endpoint()))
    {
      match context
      case InHandShake => WriteComplete();
      case WaitingDone => context := InMessages;
      case InMessages =>
    }

    /** Hands a block to the connection, as it lies in memory. */
    method Transmit(block: array<byte>, k: nat) returns (complete: bool)
      requires Valid() && (block == c1s1 || block == c2s2)
      requires state !in {NotStarted, WaitC0C1, WaitS0S1, WaitC2, WaitS2}
      modifies connection
      ensures Valid()
      ensures complete <==> !old(Endpoint()).closed && old(Endpoint()).unsent == [] && k >= block.Length
      ensures complete ==> connection.ioVecs == []
      ensures
        var e := old(Endpoint());
        var n := if e.unsent == [] then Min(k, block.Length) else 0;
        Endpoint() == if e.closed then e else e.(sent := e.sent + block[..n], unsent := e.unsent + block[n..])
    {
      hide Flatten;
      BackedBytes(connection.ioVecs, connection.pending);
      ghost var n := if Endpoint().unsent == [] then Min(k, block.Length) else 0;
      assert block[0..n] == block[..n] && block[n..block.Length] == block[n..];
      complete := connection.SendBlock(IoVec(block, 0, block.Length), k);
    }

    /** Sends one of the two blocks from where it is; the socket takes up to `k` bytes at once. */
    method SendBlock(block: array<byte>, k: nat)
      requires Valid() && (block == c1s1 || block == c2s2)
      requires state !in {NotStarted, WaitC0C1, WaitS0S1, WaitC2, WaitS2}
      modifies `state, `context, connection
      ensures Valid()
      ensures Endpoint() == Send(old(Endpoint()), old(block[..]), k)
    {
      hide Valid, Endpoint;
      var complete := Transmit(block, k);
      assert block[block.Length..] == [] && block[..block.Length] == block[..] && block[0..] == block[..];
      if complete {
        OnWriteComplete();
      }
    }

    method Start(random: seq<byte>, k: nat)
      requires Valid() && state == NotStarted && context == InHandShake && |random| == PACKET + 1
      requires connection.wire == [] && used == 0 && buf.Contents() == []
      modifies `state, `context, connection, c1s1
      ensures Valid()
      ensures
        var block := FirstBlock(h, keys, client, complex, random);
        Endpoint() ==
          var hs := if client then PostC0C1 else WaitC0C1;
          var e := End(client, hs, InHandShake, complex, connection.closed, block, [], [], [], 0, 0, []);
          if client then Send(e, block, k) else e
    {
      hide FirstBlock;
      CreateC1S1(random);
      if client {
        state := PostC0C1;
        SendBlock(c1s1, k);
      } else {
        state := WaitC0C1;
      }
    }

    /** `Retrieve` on the receive buffer. */
    method Discard(n: nat)
      requires Valid()
      modifies buf, `used
      ensures Valid() && Endpoint() == Retrieve(old(Endpoint()), n)
    {
      hide Endpoint, Valid, Flatten, Retrieve;
      ghost var e := Endpoint();
      Buffered();
      TakeBytes(n);
      Retrieved(e, n);
      Buffered();
    }

    lemma Buffered()
      requires Valid()
      ensures Endpoint().buf == buf.Contents() && Endpoint().used == used
    {
    }

    method TakeBytes(n: nat)
      requires Valid()
      modifies buf, `used
      ensures Valid()
      ensures
        var data := old(buf.Contents());
        var m := Min(n, |data|);
        && Endpoint() == old(Endpoint()).(buf := data[m..], used := old(used) + m)
    {
      hide TcpConnection.Valid, Flatten, Backed;
      used := used + Min(n, buf.ReadableBytes());
      Emptied(n);
    }

    /** The bytes themselves; nothing else of the object changes. */
    method Emptied(n: nat)
      requires buf.Valid()
      modifies buf
      ensures buf.Valid() && buf.buffer == old(buf.buffer)
      ensures buf.Contents() == old(buf.Contents())[Min(n, |old(buf.Contents())|)..]
    {
      ghost var data := buf.Contents();
      assert data[|data|..] == [];
      buf.Retrieve(n);
    }

    lemma Retrieved(e: End, n: nat)
      ensures
        var m := Min(n, |e.buf|);
        Retrieve(e, n) == e.(buf := e.buf[m..], used := e.used + m)
    {
      assert e.buf[|e.buf|..] == [];
    }

    /** Checks the peer's first block and, if it is good, makes up the answer to it. */
    method Examine(data: seq<byte>, random: seq<byte>, now: uint32) returns (offset: int)
      requires Valid() && connection.ioVecs == [] && |data| == PACKET + 1 && |random| == PACKET
      modifies `complex, c2s2
      ensures Valid() && connection.ioVecs == []
      ensures
        match HandShakes.CheckC1S1(h, keys, client, old(complex), data)
        case Rejected => offset < 0 && Endpoint() == old(Endpoint()) && c2s2[..] == old(c2s2[..])
        case Accepted(at, c) =>
          && offset == at && Endpoint() == old(Endpoint()).(complex := c) && at + DIGEST <= PACKET
          && c2s2[..] == SecondBlock(h, keys, client, c, data[1..], at, random, now)
    {
      hide HandShakes.CheckC1S1, SecondBlock;
      offset := CheckC1S1(data);
      if offset >= 0 {
        CreateC2S2(data[1..], offset, random, now);
      }
    }

    /** The bytes the check looks at; `stale` is what lies behind the readable ones. */
    method Peek(stale: byte) returns (data: seq<byte>)
      requires Valid() && buf.ReadableBytes() >= PACKET
      ensures data == Looked(Endpoint().buf, stale)
    {
      data := buf.buffer[buf.head..buf.tail];
      data := if |data| == PACKET then data + [stale] else data[..PACKET + 1];
    }

    /** Consumes a block, moves on to `next` and only then sends the answer. */
    method Answer(n: nat, next: HsState, block: array<byte>, k: nat)
      requires Valid() && connection.ioVecs == []
      requires next in {PostS0S1, PostC2, PostS2} && (block == c1s1 || block == c2s2)
      modifies `state, `context, `used, buf, connection
      ensures Valid()
      ensures Endpoint() == Send(Retrieve(old(Endpoint()), n).(hs := next), old(block[..]), k)
    {
      hide Send, Retrieve, TcpConnection.Valid, Flatten;
      Discard(n);
      state := next;
      hide Valid, Endpoint;
      SendBlock(block, k);
    }

    /** What the fields say about the endpoint. */
    lemma EndpointIs()
      requires Valid()
      ensures
        var e := Endpoint();
        && e.hs == state && e.context == context && e.complex == complex && e.client == client
        && e.closed == connection.closed
        && |e.buf| == buf.ReadableBytes() && e.c1s1 == c1s1[..] && |e.c1s1| == PACKET + 1 && |c2s2[..]| == PACKET
    {
    }

    /** `Examine` on the bytes in the buffer. */
    method ExamineFirst(random: seq<byte>, now: uint32, stale: byte) returns (good: bool)
      requires Valid() && connection.ioVecs == [] && buf.ReadableBytes() >= PACKET && |random| == PACKET
      modifies `complex, c2s2
      ensures Valid() && connection.ioVecs == [] && |c2s2[..]| == PACKET
      ensures
        var e := old(Endpoint());
        |e.buf| >= PACKET &&
        var check := HandShakes.CheckC1S1(h, keys, e.client, e.complex, Looked(e.buf, stale));
        && good == check.Accepted?
        && Endpoint() == if good then e.(complex := check.complex) else e
    {
      hide HandShakes.CheckC1S1, SecondBlock, TcpConnection.Valid, MsgBuffer.ReadableBytes, Valid, Endpoint, Looked;
      EndpointIs();
      var data := Peek(stale);
      var offset := Examine(data, random, now);
      EndpointIs();
      good := offset >= 0;
    }

    /** The server answers C0C1 with its own block, the client S0S1 with C2. */
    method AnswerFirst(k: nat)
      requires Valid() && state in {WaitC0C1, WaitS0S1} && connection.ioVecs == []
      modifies `state, `context, `used, buf, connection
      ensures Valid()
      ensures
        var e := old(Endpoint());
        var next := if e.hs == WaitC0C1 then PostS0S1 else PostC2;
        Endpoint() == Send(Retrieve(e, PACKET + 1).(hs := next), if e.hs == WaitC0C1 then e.c1s1 else c2s2[..], k)
    {
      hide Send, Retrieve, TcpConnection.Valid, Valid, Endpoint;
      EndpointIs();
      if state == WaitC0C1 {
        Answer(PACKET + 1, PostS0S1, c1s1, k);
      } else {
        Answer(PACKET + 1, PostC2, c2s2, k);
      }
    }

    /** The server has room for C0C1, or the client for S0S1. */
    method TakeFirst(random: seq<byte>, now: uint32, k: nat, stale: byte) returns (ret: int)
      requires Valid() && |random| == PACKET
      requires state in {WaitC0C1, WaitS0S1}
      requires buf.ReadableBytes() >= if state == WaitC0C1 then PACKET + 1 else PACKET
      modifies `state, `context, `complex, `used, buf, connection, c2s2
      ensures Valid() && |c2s2[..]| == PACKET
      ensures (Endpoint(), ret) == HandShakeProtocol.HandShake(h, keys, old(Endpoint()), c2s2[..], k, stale)
    {
      assert connection.ioVecs == [];
      assert buf.ReadableBytes() >= PACKET;
      hide HandShakes.CheckC1S1, SecondBlock, Send, Retrieve, TcpConnection.Valid, MsgBuffer.ReadableBytes;
      hide Valid, Endpoint;
      hide HandShakeProtocol.HandShake, Looked;
      EndpointIs();
      ghost var e := Endpoint();
      var good := ExamineFirst(random, now, stale);
      FirstHandled(h, keys, e, c2s2[..], k, stale);
      if !good {
        return FAILED;
      }
      AnswerFirst(k);
      ret := NEED_MORE;
    }

    /**
      `HandShake` on the bytes received so far. The random bytes and the clock go into the C2 or S2 made
      up on the way; whatever they are, the endpoint moves as the protocol says.
     */
    method HandShake(random: seq<byte>, now: uint32, k: nat, stale: byte) returns (ret: int)
      requires Valid() && |random| == PACKET
      modifies `state, `context, `complex, `used, buf, connection, c2s2
      ensures Valid() && |c2s2[..]| == PACKET
      ensures (Endpoint(), ret) == HandShakeProtocol.HandShake(h, keys, old(Endpoint()), c2s2[..], k, stale)
    {
      EndpointIs();
      hide HandShakes.CheckC1S1, Send, Retrieve, TcpConnection.Valid, Endpoint;
      match state
      case WaitC0C1 =>
        if buf.ReadableBytes() < PACKET + 1 {
          return NEED_MORE;
        }
        ret := TakeFirst(random, now, k, stale);
      case WaitC2 =>
        if buf.ReadableBytes() < PACKET {
          return NEED_MORE;
        }
        Answer(PACKET, PostS2, c2s2, k);
        ret := FINISHED;
      case WaitS0S1 =>
        if buf.ReadableBytes() < PACKET {
          return NEED_MORE;
        }
        ret := TakeFirst(random, now, k, stale);
      case WaitS2 =>
        if buf.ReadableBytes() < PACKET {
          return NEED_MORE;
        }
        Discard(PACKET);
        SetState(Done);
        ret := FINISHED;
      case _ =>
        ret := NEED_MORE;
    }

    method SetState(next: HsState)
      requires Valid() && next == Done
      modifies `state
      ensures Valid() && Endpoint() == old(Endpoint()).(hs := next)
    {
      state := next;
    }

    method SetContext(next: ContextState)
      requires Valid()
      modifies `context
      ensures Valid() && Endpoint() == old(Endpoint()).(context := next)
    {
      context := next;
    }

    /** `RtmpContext::Parse` while the handshake lasts. */
    method Parse(random: seq<byte>, now: uint32, k: nat, stale: byte) returns (ret: int)
      requires Valid() && |random| == PACKET
      modifies `state, `context, `complex, `used, buf, connection, c2s2
      ensures Valid() && |c2s2[..]| == PACKET
      ensures (Endpoint(), ret) == HandShakeProtocol.Parse(h, keys, old(Endpoint()), c2s2[..], k, stale)
    {
      EndpointIs();
      hide HandShakeProtocol.HandShake, Endpoint, Valid;
      if context != InHandShake {
        return NEED_MORE;
      }
      ret := HandShake(random, now, k, stale);
      if ret == FINISHED {
        SetContext(InMessages);
      } else if ret == HALFWAY {
        SetContext(WaitingDone);
      }
    }

    /** Bytes arrive: a move of the network, `Receive` in the protocol. */
    method OnMessage(data: seq<byte>, random: seq<byte>, now: uint32, k: nat, stale: byte) returns (ret: int)
      requires Valid() && |random| == PACKET
      modifies this, buf, buf.buffer, connection, c2s2
      ensures Valid() && |c2s2[..]| == PACKET
      ensures (Endpoint(), ret) == Receive(h, keys, old(Endpoint()), data, c2s2[..], k, stale)
    {
      EndpointIs();
      hide HandShakeProtocol.Parse, Endpoint, Valid;
      AppendData(data);
      ret := Parse(random, now, k, stale);
    }

    method AppendData(data: seq<byte>)
      requires Valid()
      modifies buf, buf.buffer
      ensures Valid() && (buf.buffer == old(buf.buffer) || fresh(buf.buffer))
      ensures
        var e := old(Endpoint());
        Endpoint() == e.(buf := e.buf + data, got := e.got + |data|)
    {
      hide TcpConnection.Valid, Flatten;
      buf.Append(data);
    }

    /** The socket is writable: `n` more bytes go out, `Write` in the protocol. */
    method OnWritable(results: seq<WriteResult>)
      requires Valid()
      modifies `state, `context, connection
      ensures Valid() && |old(Endpoint()).sent| <= |Endpoint().sent|
      ensures
        var e := old(Endpoint());
        var n := if e.closed then 0 else Min(BytesAccepted(results), |e.unsent|);
        && Endpoint() == (if n == 0 then e else Write(e, n)).(closed := connection.closed)
        && (connection.closed <==> e.closed || (n < |e.unsent| && Fails(results)))
    {
      hide Valid, Endpoint, Write, HandShakeProtocol.OnWriteComplete;
      ghost var e := Endpoint();
      var complete := Drain(results);
      ghost var n := if e.closed then 0 else Min(BytesAccepted(results), |e.unsent|);
      if complete {
        WriteAll(e);
        assert e.unsent[..|e.unsent|] == e.unsent && e.unsent[|e.unsent|..] == [];
        assert Endpoint() == e.(sent := e.sent + e.unsent, unsent := []);
        OnWriteComplete();
        EndpointIs();
      } else {
        WriteSome(e, n);
      }
    }

    /** The connection writes; nothing else of the endpoint changes. */
    method WriteOut(results: seq<WriteResult>) returns (complete: bool)
      requires Valid()
      modifies connection
      ensures Valid()
      ensures
        Endpoint() == old(Endpoint()).(
          sent := connection.wire, unsent := Flatten(connection.pending), closed := connection.closed)
      ensures old(connection.wire) <= connection.wire
      ensures connection.wire + Flatten(connection.pending) == old(connection.wire + Flatten(connection.pending))
      ensures complete ==> connection.ioVecs == [] && !connection.closed && !old(connection.closed)
      ensures complete <==> connection.ioVecs == [] && old(connection.ioVecs) != []
      ensures old(connection.closed) || old(connection.ioVecs) == [] ==> unchanged(connection)
      ensures !old(connection.closed) && old(connection.ioVecs) != [] ==>
        var waiting, n := |old(Flatten(connection.pending))|, BytesAccepted(results);
        && |connection.wire| == |old(connection.wire)| + Min(n, waiting)
        && (connection.closed <==> n < waiting && Fails(results))
    {
      hide Flatten, Backed, PartsOf;
      ghost var vs := connection.ioVecs;
      complete := connection.OnWrite(results);
      PartsKeepBases(connection.ioVecs, vs, {c1s1, c2s2});
    }

    /** The list of ranges is empty exactly if no byte waits. */
    lemma NothingWaits()
      requires Valid()
      ensures connection.ioVecs == [] <==> Flatten(connection.pending) == []
    {
      hide Flatten, Backed;
      BackedBytes(connection.ioVecs, connection.pending);
    }

    lemma EndpointStreams()
      requires Valid()
      ensures
        var e := Endpoint();
        e.sent == connection.wire && e.unsent == Flatten(connection.pending) && e.closed == connection.closed
    {
    }

    method Drain(results: seq<WriteResult>) returns (complete: bool)
      requires Valid()
      modifies connection
      ensures Valid()
      ensures
        var e := old(Endpoint());
        var n := if e.closed then 0 else Min(BytesAccepted(results), |e.unsent|);
        && (connection.closed <==> e.closed || (n < |e.unsent| && Fails(results)))
        && Endpoint() == e.(sent := e.sent + e.unsent[..n], unsent := e.unsent[n..], closed := connection.closed)
      ensures complete <==> Endpoint().unsent == [] && old(Endpoint()).unsent != []
      ensures complete ==> connection.ioVecs == [] && Endpoint().closed == old(Endpoint()).closed
    {
      hide Flatten, Valid, Endpoint, BytesAccepted, Fails, TcpConnection.Stream;
      ghost var e := Endpoint();
      EndpointStreams();
      NothingWaits();
      complete := WriteOut(results);
      EndpointStreams();
      NothingWaits();
      Drained(e, results, connection.wire, Flatten(connection.pending), connection.closed);
    }
  }

  /** Where the waiting bytes are after the writes. */
  lemma Drained(e: End, results: seq<WriteResult>, wire: seq<byte>, waiting: seq<byte>, closed: bool)
    requires e.sent <= wire && wire + waiting == e.sent + e.unsent
    requires |wire| == |e.sent| + if e.closed then 0 else Min(BytesAccepted(results), |e.unsent|)
    ensures
      var n := if e.closed then 0 else Min(BytesAccepted(results), |e.unsent|);
      e.(sent := wire, unsent := waiting, closed := closed)
      == e.(sent := e.sent + e.unsent[..n], unsent := e.unsent[n..], closed := closed)
  {
    hide BytesAccepted;
    Moved(e.sent, e.unsent, wire, waiting);
  }

  /** Writing the last of the waiting bytes runs the callback. */
  lemma WriteAll(e: End)
    requires e.unsent != []
    ensures Write(e, |e.unsent|) == HandShakeProtocol.OnWriteComplete(e.(sent := e.sent + e.unsent, unsent := []))
    ensures |Write(e, |e.unsent|).sent| == |e.sent| + |e.unsent|
  {
    assert e.unsent[..|e.unsent|] == e.unsent;
  }

  /** Writing less does not. */
  lemma WriteSome(e: End, n: nat)
    requires n < |e.unsent| || n == |e.unsent| == 0
    ensures (if n == 0 then e else Write(e, n)) == e.(sent := e.sent + e.unsent[..n], unsent := e.unsent[n..])
  {
    if n == 0 {
      assert e.sent + e.unsent[..0] == e.sent && e.unsent[0..] == e.unsent;
    }
  }

  /** Bytes that leave the queue are the ones added to the wire. */
  lemma Moved(sent: seq<byte>, unsent: seq<byte>, sent': seq<byte>, unsent': seq<byte>)
    requires sent + unsent == sent' + unsent' && sent <= sent'
    ensures
      var n := |sent'| - |sent|;
      n <= |unsent| && sent' == sent + unsent[..n] && unsent' == unsent[n..]
  {
    assert forall i :: 0 <= i < |unsent| ==> unsent[i] == (sent + unsent)[|sent| + i];
  }
}
