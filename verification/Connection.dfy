/** The handshake and the messages after it on one connection. */
module Connection {
  import opened Bytes
  import opened ChunkWriter
  import opened HandShakes
  import opened HandShakeProtocol
  import opened PipelineTheorems
  import opened SendPipelines
  import opened Sequences
  import opened TcpConnections
  import ChunkParser
  import RoundTrip
  import Session

  /** `s` sends the messages of endpoint `e`: it took over the connection behind the two blocks. */
  ghost predicate Speaks(s: RtmpSender, e: End)
    reads s, s.connection
  {
    && !s.connection.closed && s.connection.wire == e.sent && Flatten(s.connection.pending) == e.unsent
    && |s.opening| == TOTAL
  }

  /** What the peer holds for its parser is what the sender has written since the handshake. */
  lemma HeldIsWritten(s: RtmpSender, from: End, to: End, pieces: seq<seq<byte>>)
    requires s.Valid() && Speaks(s, from) && SaidAll(from)
    requires HandShakeProtocol.Stream(from, to) && HandedOver(from, to) && to.context == InMessages
    requires Flatten(pieces) == to.buf
    ensures s.opening + Flatten(pieces) <= s.connection.wire
    ensures from.unsent == [] && to.got == |from.sent| ==> RunDry(s) && s.opening + Flatten(pieces) == s.connection.wire
  {
    BackedBytes(s.connection.ioVecs, s.connection.pending);
    FrontOf(s.opening, EncodeAll(map[], s.sent, s.outChunkSize), from.sent, from.unsent);
    Cut(from.sent, TOTAL, to.got);
  }

  lemma FrontOf<T>(a: seq<T>, b: seq<T>, c: seq<T>, d: seq<T>)
    requires a + b == c + d && |a| <= |c|
    ensures a == c[..|a|]
  {
    assert a == (a + b)[..|a|] == (c + d)[..|a|];
  }

  lemma Cut<T>(s: seq<T>, n: nat, m: nat)
    requires n <= m <= |s|
    ensures s[..n] + s[n..m] <= s && (m == |s| ==> s[..n] + s[n..m] == s)
  {
    assert s[..n] + s[n..m] == s[..m];
  }

  /** A run of the handshake and beyond, at the end of which both sides are past it. */
  ghost predicate Met(h: Hmac, keys: Keys, ys: seq<Sys>, ms: seq<Move>, cfill: seq<byte>, sfill: seq<byte>, k: nat)
    ensures Met(h, keys, ys, ms, cfill, sfill, k) ==> |ys| == |ms| + 1
  {
    && |cfill| == |sfill| == PACKET + 1 && IsRun(h, keys, ys, ms)
    && ys[0] == Init(h, keys, cfill, sfill, k)
    && ys[|ms|].c.context == ys[|ms|].s.context == InMessages
  }

  /** The network has nothing left to do. */
  ghost predicate OnlyTalk(y: Sys) {
    forall m :: Enabled(y, m) ==> IsTalk(m)
  }

  /** Where the two sides stand at the end of such a run. */
  lemma EndOfRun(
    h: Hmac, keys: Keys, ys: seq<Sys>, ms: seq<Move>, cfill: seq<byte>, sfill: seq<byte>, k: nat)
    requires Met(h, keys, ys, ms, cfill, sfill, k)
    ensures
      var c, s := ys[|ms|].c, ys[|ms|].s;
      && c.context == s.context == InMessages && SaidAll(c) && SaidAll(s)
      && HandShakeProtocol.Stream(c, s) && HandShakeProtocol.Stream(s, c) && HandedOver(c, s) && HandedOver(s, c)
      && (OnlyTalk(ys[|ms|]) ==> c.unsent == s.unsent == [] && s.got == |c.sent| && c.got == |s.sent|)
  {
    EveryRun(h, keys, ys, ms, cfill, sfill, k);
    assert Safe(ys[|ms|]);
    hide IsRun, Init, Enabled, SaidAll, Returned;
  }

  /**
    From the first byte of the handshake to the last message: in every run of the two endpoints in which
    the client's pipeline took over its connection once the handshake was done, the server's parser,
    fed in any pieces with what the handshake left it, has completed a prefix of the client's messages;
    the second of them is understood as the connect command; and where the network has nothing left to
    do, it has completed them all.
   */
  lemma ServerHears(
    h: Hmac, keys: Keys, ys: seq<Sys>, ms: seq<Move>, cfill: seq<byte>, sfill: seq<byte>, k: nat,
    s: RtmpSender, app: seq<byte>, tcUrl: seq<byte>, rest: seq<Job>, pieces: seq<seq<byte>>)
    requires Met(h, keys, ys, ms, cfill, sfill, k)
    requires s.Valid() && Speaks(s, ys[|ms|].c) && Session.ClientRun(s.sent, app, tcUrl, rest)
    requires Flatten(pieces) == ys[|ms|].s.buf
    ensures
      var r := ChunkParser.FeedAll(ChunkParser.Outcome(ChunkParser.InState(map[], 128), [], []), pieces);
      && r.msgs <= RoundTrip.Messages(s.sent)
      && (|r.msgs| >= 2 ==> Session.Understood(r.msgs[1].body, app, tcUrl))
      && (OnlyTalk(ys[|ms|]) ==> r.msgs == RoundTrip.Messages(s.sent) && r.rest == [])
  {
    hide Met, OnlyTalk, ChunkParser.FeedAll, Flatten, SaidAll, Session.Understood, Session.ClientRun, RtmpSender.Valid;
    hide Speaks, HandedOver, HandShakeProtocol.Stream;
    var y := ys[|ms|];
    EndOfRun(h, keys, ys, ms, cfill, sfill, k);
    HeldIsWritten(s, y.c, y.s, pieces);
    Session.ClientSessionDelivers(s, app, tcUrl, rest, pieces);
    Session.ServerLearnsNames(s, app, tcUrl, rest, pieces);
  }

  /** The same the other way round, for a server's pipeline and the client's parser. */
  lemma ClientHears(
    h: Hmac, keys: Keys, ys: seq<Sys>, ms: seq<Move>, cfill: seq<byte>, sfill: seq<byte>, k: nat,
    s: RtmpSender, early: seq<Job>, result: seq<byte>, rest: seq<Job>, pieces: seq<seq<byte>>)
    requires Met(h, keys, ys, ms, cfill, sfill, k)
    requires s.Valid() && Speaks(s, ys[|ms|].s) && Session.ServerRun(s.sent, early, result, rest)
    requires Flatten(pieces) == ys[|ms|].c.buf
    ensures
      var r := ChunkParser.FeedAll(ChunkParser.Outcome(ChunkParser.InState(map[], 128), [], []), pieces);
      && r.msgs <= RoundTrip.Messages(s.sent)
      && (OnlyTalk(ys[|ms|]) ==> r.msgs == RoundTrip.Messages(s.sent) && r.rest == [])
  {
    hide Met, OnlyTalk, ChunkParser.FeedAll, Flatten, SaidAll, Session.ServerRun, RtmpSender.Valid;
    hide Speaks, HandedOver, HandShakeProtocol.Stream;
    var y := ys[|ms|];
    EndOfRun(h, keys, ys, ms, cfill, sfill, k);
    HeldIsWritten(s, y.s, y.c, pieces);
    Session.ServerSessionDelivers(s, early, result, rest, pieces);
  }

  /** The socket takes `n` bytes, in as many moves as it likes; once messages are spoken, no callback minds. */
  function WriteSome(e: End, n: nat): End
    requires n <= |e.unsent|
  {
    if n == 0 then e else Write(e, n)
  }

  /** Taking the bytes in two moves comes to the same. */
  lemma WriteTwice(e: End, m: nat, n: nat)
    requires e.context == InMessages && m + n <= |e.unsent|
    ensures WriteSome(WriteSome(e, m), n) == WriteSome(e, m + n)
  {
    hide WriteSome;
    var some := WriteSome(e, m);
    Written(e, m);
    Written(some, n);
    Written(e, m + n);
    TakeMore(e.unsent, m, n);
    Assoc3(e.sent, e.unsent[..m], e.unsent[m..][..n]);
  }

  lemma Written(e: End, n: nat)
    requires e.context == InMessages && n <= |e.unsent|
    ensures WriteSome(e, n) == e.(sent := e.sent + e.unsent[..n], unsent := e.unsent[n..])
  {
    if n == 0 {
      assert e.sent + e.unsent[..0] == e.sent && e.unsent[0..] == e.unsent;
    }
  }

  /** What arrives does not concern what is sent. */
  lemma HearingKeeps(h: Hmac, keys: Keys, s: RtmpSender, e: End, data: seq<byte>, reply: seq<byte>, k: nat, stale: byte)
    requires Speaks(s, e) && e.context == InMessages && |reply| == PACKET && |e.c1s1| == PACKET + 1
    ensures Speaks(s, Receive(h, keys, e, data, reply, k, stale).0)
  {
    hide HandShake;
  }

  /** Bytes have moved from what waits to what is accepted, and others have joined what waits. */
  lemma MovedAndTalked(sent: seq<byte>, unsent: seq<byte>, sent': seq<byte>, unsent': seq<byte>) returns (n: nat)
    requires sent <= sent' <= sent + unsent <= sent' + unsent'
    ensures n == |sent'| - |sent| <= |unsent| && sent' == sent + unsent[..n]
    ensures unsent[n..] <= unsent' && unsent' == unsent[n..] + (sent' + unsent')[|sent + unsent|..]
  {
    n := |sent'| - |sent|;
    assert sent' == (sent + unsent)[..|sent'|] == sent + unsent[..n];
    assert sent + unsent == sent' + unsent[n..];
    assert unsent[n..] == (sent' + unsent')[|sent'|..|sent + unsent|];
  }

  lemma NoWrite(e: End)
    ensures WriteSome(e, 0) == e
  {
  }

  /** The moves that take an endpoint there. */
  lemma MovesTo(e: End, n: nat, sent: seq<byte>, unsent: seq<byte>) returns (data: seq<byte>)
    requires e.context == InMessages && e.sent <= sent <= e.sent + e.unsent <= sent + unsent
    requires n == |sent| - |e.sent|
    ensures
      var e' := Talk(WriteSome(e, n), data);
      n <= |e.unsent| && e'.sent == sent && e'.unsent == unsent && e'.context == InMessages
  {
    var m := MovedAndTalked(e.sent, e.unsent, sent, unsent);
    data := (sent + unsent)[|e.sent + e.unsent|..];
    Written(e, n);
  }

  /**
    One side after the handshake: the sender, and the endpoint of the protocol that it plays. Each call of
    the sender is a series of moves of that endpoint.
   */
  class Speaker {
    const sender: RtmpSender
    ghost var end: End

    ghost predicate Valid()
      reads this, sender, sender.Repr, sender.connection
    {
      && this !in sender.Repr + {sender.connection, sender.arena}
      && sender.Valid() && Speaks(sender, end) && end.context == InMessages
    }

    /** Takes over where the handshake left the connection, with both blocks handed over. */
    constructor (connection: TcpConnection, ghost e: End)
      requires connection.Valid() && !connection.closed && e.context == InMessages
      requires connection.wire == e.sent && Flatten(connection.pending) == e.unsent && |e.sent + e.unsent| == TOTAL
      ensures Valid() && sender.connection == connection && end == e && sender.sent + sender.queued == []
    {
      hide RtmpSender.Valid, TcpConnection.Valid, Flatten;
      sender := new RtmpSender.Create(connection);
      end := e;
    }

    /** A packet is queued: message bytes are handed over, none if a batch is in flight. */
    method PushOutQueue(packet: PacketPtr) returns (ghost data: seq<byte>)
      requires Valid() && SendPipelines.Ready(packet) && packet.data != sender.arena
      requires BatchesFit(sender.queued + [JobFor(packet, 0, false)], sender.outChunkSize)
      modifies this, sender, sender.arena, sender.connection
      ensures Valid() && end == Talk(old(end), data)
    {
      hide BatchesFit, Flatten, WriteSome, Talk;
      ghost var was, waiting := sender.sent, sender.queued;
      ghost var image, j := sender.Image(), JobFor(packet, 0, false);
      StreamIs(sender);
      hide RtmpSender.Valid;
      sender.PushOutQueue(packet);
      Assoc3(was, waiting, [j]);
      Grown(sender, was, waiting + [j], image);
      StreamIs(sender);
      NoWrite(end);
      data := MovesTo(end, 0, sender.connection.wire, Flatten(sender.connection.pending));
      end := Talk(end, data);
    }

    /** The socket is writable: some bytes are written, and when they were the last, a batch is handed over. */
    method OnWritable(results: seq<WriteResult>) returns (ghost n: nat, ghost data: seq<byte>)
      requires Valid()
      modifies this, sender, sender.arena, sender.connection
      ensures sender.Valid() && (!sender.connection.closed ==> Valid())
      ensures n == Min(BytesAccepted(results), |old(end).unsent|)
      ensures sender.connection.closed <==> n < |old(end).unsent| && Fails(results)
      ensures !sender.connection.closed ==> end == Talk(WriteSome(old(end), n), data)
    {
      hide BatchesFit, Flatten, Talk, WriteSome;
      n, data := Min(BytesAccepted(results), |end.unsent|), [];
      PendingIff(sender);
      ghost var was, waiting, image := sender.sent, sender.queued, sender.Image();
      StreamIs(sender);
      hide RtmpSender.Valid;
      sender.OnWritable(results);
      if !sender.connection.closed {
        Grown(sender, was, waiting, image);
        StreamIs(sender);
        data := MovesTo(end, n, sender.connection.wire, Flatten(sender.connection.pending));
        end := Talk(WriteSome(end, n), data);
      }
    }
  }

  lemma PendingIff(s: RtmpSender)
    requires s.Valid()
    ensures s.connection.ioVecs == [] <==> Flatten(s.connection.pending) == []
  {
    BackedBytes(s.connection.ioVecs, s.connection.pending);
  }

  lemma StreamIs(s: RtmpSender)
    requires s.Valid() && !s.connection.closed
    ensures s.connection.Stream() == s.Image()
  {
  }

  /** What has been built only grows, and so does the stream. */
  lemma Grown(s: RtmpSender, was: seq<Job>, waiting: seq<Job>, image: seq<byte>)
    requires s.Valid() && s.sent + s.queued == was + waiting && |s.queued| <= |waiting|
    requires Sized(was) && image == s.opening + EncodeAll(map[], was, s.outChunkSize)
    ensures image <= s.Image()
  {
    hide RtmpSender.Built, RtmpSender.Waiting, EncodeAll, Flatten;
    assert s.sent == (was + waiting)[..|s.sent|] && was == (was + waiting)[..|was|];
    EncodePrefix(map[], was, s.sent, s.outChunkSize);
  }
}
