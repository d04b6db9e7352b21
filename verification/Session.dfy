/** Whole sessions: what each side sends first, and that everything it sends then arrives. */
module Session {
  import opened Bytes
  import opened ChunkFormat
  import opened ChunkWriter
  import opened ChunkTheorems
  import opened PipelineTheorems
  import opened SendPipelines
  import opened Sequences
  import Amf
  import AmfCommands
  import ChunkParser
  import RoundTrip

  const COMMAND_STREAM: uint32 := 2
  const AMF_STREAM: uint32 := 3
  const ACK_SIZE: uint32 := 2500000

  function Control(msgType: byte, body: seq<byte>): Job {
    Job(Message(COMMAND_STREAM, msgType, 0, 0, body), false)
  }

  function Command(body: seq<byte>): Job {
    Job(Message(AMF_STREAM, AMF_COMMAND, 0, 0, body), false)
  }

  /** `SendConnect`: the chunk size, then the connect command. */
  function ClientGreeting(app: seq<byte>, tcUrl: seq<byte>): seq<Job> {
    [SetChunkSize(4096), Command(Amf.EncodeAll(AmfCommands.Connect(app, tcUrl)))]
  }

  /** `HandleConnect`: acknowledgement window, peer bandwidth, chunk size, and the result. */
  function ServerGreeting(result: seq<byte>): seq<Job> {
    [ Control(WINDOW_ACK_SIZE, Write32(ACK_SIZE)),
      Control(SET_PEER_BANDWIDTH, Write32(ACK_SIZE) + [2]),
      SetChunkSize(4096),
      Command(result) ]
  }

  /** The client's side of a session: the greeting first, which must fit, and no other chunk size later. */
  lemma ClientInScope(app: seq<byte>, tcUrl: seq<byte>, rest: seq<Job>)
    requires |app| + |tcUrl| <= 884
    requires (forall j :: j in rest ==> Carried(j)) && AnnouncesOnly(rest, 4096)
    ensures RoundTrip.RunInScope(map[], ClientGreeting(app, tcUrl) + rest, 128, 4096)
  {
    NotEmpty(AmfCommands.Connect(app, tcUrl));
    AmfCommands.ConnectFitsIff(app, tcUrl);
    hide Amf.EncodeAll, AmfCommands.Connect, RoundTrip.RunInScope, SetChunkSize;
    ConnectFirst(Amf.EncodeAll(AmfCommands.Connect(app, tcUrl)), rest, 4096);
    assert ClientGreeting(app, tcUrl) + rest
      == [SetChunkSize(4096), Command(Amf.EncodeAll(AmfCommands.Connect(app, tcUrl)))] + rest;
  }

  lemma ConnectFirst(body: seq<byte>, rest: seq<Job>, c: nat)
    requires 128 <= c < 0x8000_0000 && 0 < |body| < 0x100_0000
    requires (forall j :: j in rest ==> Carried(j)) && AnnouncesOnly(rest, c)
    ensures RoundTrip.RunInScope(map[], [SetChunkSize(c), Command(body)] + rest, 128, c)
  {
    hide RoundTrip.RunInScope, Carried;
    var after := [Command(body)] + rest;
    var jobs := [SetChunkSize(c), Command(body)] + rest;
    assert jobs == [] + [SetChunkSize(c)] + after;
    GreetingCarried(c);
    CommandCarried(body);
    AnnouncesCons(Command(body), rest, c);
    hide SetChunkSize, Command;
    forall j | j in jobs ensures Carried(j) {
      assert j == SetChunkSize(c) || j == Command(body) || j in rest;
    }
    GreetedInScope([], after, c);
  }

  lemma CommandCarried(body: seq<byte>)
    requires 0 < |body| < 0x100_0000
    ensures Carried(Command(body))
  {
  }

  /** What holds for a whole run holds for what has been built of it so far. */
  lemma {:induction false} RunSoFar(out: map<uint32, OutLane>, some: seq<Job>, jobs: seq<Job>, k: int, c: nat)
    requires some <= jobs && RoundTrip.RunInScope(out, jobs, k, c)
    ensures RoundTrip.RunInScope(out, some, k, c)
    decreases |some|
  {
    hide RoundTrip.CutAlike, After;
    if |some| > 0 {
      RunSoFar(After(out, jobs[0]), some[1..], jobs[1..], ChunkSizeAfter(k, jobs[0].msg), c);
    }
  }

  lemma NotEmpty(vs: seq<Amf.Value>)
    requires |vs| > 0
    ensures |Amf.EncodeAll(vs)| > 0
  {
  }

  lemma GreetingCarried(c: uint32)
    ensures Carried(SetChunkSize(c))
    ensures Carried(Control(WINDOW_ACK_SIZE, Write32(c))) && Carried(Control(SET_PEER_BANDWIDTH, Write32(c) + [2]))
  {
  }

  lemma AnnouncesCons(j: Job, rest: seq<Job>, c: int)
    requires ChunkSizeAfter(c, j.msg) == c && AnnouncesOnly(rest, c)
    ensures AnnouncesOnly([j] + rest, c)
  {
    var jobs := [j] + rest;
    forall i | 0 <= i < |jobs| ensures ChunkSizeAfter(c, jobs[i].msg) == c {
      assert i > 0 ==> jobs[i] == rest[i - 1];
    }
  }

  /**
    The server's side: before the greeting it may have sent acknowledgements and other short messages,
    and the two control messages at the head of the greeting are short as well.
   */
  lemma ServerInScope(early: seq<Job>, result: seq<byte>, rest: seq<Job>)
    requires 0 < |result| <= AmfCommands.PACKET_CAPACITY
    requires Short(early, 128) && AnnouncesOnly(rest, 4096)
    requires (forall j :: j in early ==> Carried(j)) && (forall j :: j in rest ==> Carried(j))
    ensures RoundTrip.RunInScope(map[], early + ServerGreeting(result) + rest, 128, 4096)
  {
    hide RoundTrip.RunInScope;
    var window := Control(WINDOW_ACK_SIZE, Write32(ACK_SIZE));
    var bandwidth := Control(SET_PEER_BANDWIDTH, Write32(ACK_SIZE) + [2]);
    var before, after := early + [window, bandwidth], [Command(result)] + rest;
    var jobs := early + ServerGreeting(result) + rest;
    assert jobs == before + [SetChunkSize(4096)] + after;
    GreetingCarried(4096);
    GreetingCarried(ACK_SIZE);
    forall j | j in jobs ensures Carried(j) {
      assert j in early || j in ServerGreeting(result) || j in rest;
    }
    forall i | 0 <= i < |before| ensures |before[i].msg.body| <= 128 && !Announces(before[i].msg) {
      assert i < |early| ==> before[i] == early[i];
    }
    AnnouncesCons(Command(result), rest, 4096);
    GreetedInScope(before, after, 4096);
  }

  /** What a client has sent so far: its greeting, and messages that stay within the announced chunk size. */
  predicate ClientRun(sent: seq<Job>, app: seq<byte>, tcUrl: seq<byte>, rest: seq<Job>) {
    && sent <= ClientGreeting(app, tcUrl) + rest && |app| + |tcUrl| <= 884
    && (forall j :: j in rest ==> Carried(j)) && AnnouncesOnly(rest, 4096)
  }

  /** What a server has sent so far: short messages, its greeting, and any messages after that. */
  predicate ServerRun(sent: seq<Job>, early: seq<Job>, result: seq<byte>, rest: seq<Job>) {
    && sent <= early + ServerGreeting(result) + rest && 0 < |result| <= AmfCommands.PACKET_CAPACITY
    && (forall j :: j in early ==> Carried(j)) && Short(early, 128)
    && (forall j :: j in rest ==> Carried(j)) && AnnouncesOnly(rest, 4096)
  }

  lemma ClientRunInScope(sent: seq<Job>, app: seq<byte>, tcUrl: seq<byte>, rest: seq<Job>)
    requires ClientRun(sent, app, tcUrl, rest)
    ensures RoundTrip.RunInScope(map[], sent, 128, 4096)
  {
    hide RoundTrip.RunInScope, ClientGreeting;
    ClientInScope(app, tcUrl, rest);
    RunSoFar(map[], sent, ClientGreeting(app, tcUrl) + rest, 128, 4096);
  }

  lemma ServerRunInScope(sent: seq<Job>, early: seq<Job>, result: seq<byte>, rest: seq<Job>)
    requires ServerRun(sent, early, result, rest)
    ensures RoundTrip.RunInScope(map[], sent, 128, 4096)
  {
    hide RoundTrip.RunInScope, ServerGreeting;
    ServerInScope(early, result, rest);
    RunSoFar(map[], sent, early + ServerGreeting(result) + rest, 128, 4096);
  }

  /**
    A client session from the first byte after the handshake: whatever the sender's pipeline has put on
    the wire behind it and however that is cut, a fresh receiver has completed a prefix of the messages;
    once the connection has run dry it has completed all of them, the connect command among them.
   */
  lemma ClientSessionDelivers(
    s: RtmpSender, app: seq<byte>, tcUrl: seq<byte>, rest: seq<Job>, pieces: seq<seq<byte>>)
    requires s.Valid() && ClientRun(s.sent, app, tcUrl, rest)
    requires s.opening + Flatten(pieces) <= s.connection.wire
    ensures
      var r := ChunkParser.FeedAll(ChunkParser.Outcome(ChunkParser.InState(map[], 128), [], []), pieces);
      && r.msgs <= RoundTrip.Messages(s.sent)
      && (RunDry(s) && s.opening + Flatten(pieces) == s.connection.wire ==>
          r.msgs == RoundTrip.Messages(s.sent) && r.rest == [])
  {
    hide RoundTrip.RunInScope, ClientRun;
    ClientRunInScope(s.sent, app, tcUrl, rest);
    PipelineDelivers(s, ChunkParser.InState(map[], 128), pieces);
  }

  /**
    End to end: as soon as a fresh receiver of a client session has completed two messages, however the
    wire was cut, the second is the connect command, and decoding it yields the names the client was given.
   */
  lemma ServerLearnsNames(
    s: RtmpSender, app: seq<byte>, tcUrl: seq<byte>, rest: seq<Job>, pieces: seq<seq<byte>>)
    requires s.Valid() && ClientRun(s.sent, app, tcUrl, rest)
    requires s.opening + Flatten(pieces) <= s.connection.wire
    ensures
      var r := ChunkParser.FeedAll(ChunkParser.Outcome(ChunkParser.InState(map[], 128), [], []), pieces);
      |r.msgs| >= 2 ==> r.msgs[1].msgType == AMF_COMMAND && Understood(r.msgs[1].body, app, tcUrl)
  {
    hide ChunkParser.FeedAll, Flatten, RoundTrip.Messages, Carried, AnnouncesOnly, ClientGreeting;
    ClientSessionDelivers(s, app, tcUrl, rest, pieces);
    ConnectUnderstood(app, tcUrl);
    var r := ChunkParser.FeedAll(ChunkParser.Outcome(ChunkParser.InState(map[], 128), [], []), pieces);
    if |r.msgs| >= 2 {
      hide Understood, Amf.EncodeAll, AmfCommands.Connect;
      SecondMessage(r.msgs, s.sent, app, tcUrl, rest);
    }
  }

  lemma ConnectUnderstood(app: seq<byte>, tcUrl: seq<byte>)
    requires |app| < 0x1_0000 && |tcUrl| < 0x1_0000
    ensures Understood(Amf.EncodeAll(AmfCommands.Connect(app, tcUrl)), app, tcUrl)
  {
    hide Amf.Decode, Amf.EncodeAll, AmfCommands.Connect, AmfCommands.Announced;
    AmfCommands.ConnectArrives(app, tcUrl);
  }

  lemma SecondMessage(msgs: seq<Message>, sent: seq<Job>, app: seq<byte>, tcUrl: seq<byte>, rest: seq<Job>)
    requires 2 <= |msgs| && msgs <= RoundTrip.Messages(sent) && sent <= ClientGreeting(app, tcUrl) + rest
    ensures msgs[1] == Command(Amf.EncodeAll(AmfCommands.Connect(app, tcUrl))).msg
  {
    hide Amf.EncodeAll, AmfCommands.Connect;
    var ms := RoundTrip.Messages(sent);
    assert ms == [sent[0].msg] + ([sent[1].msg] + RoundTrip.Messages(sent[1..][1..]));
    assert sent[1] == (ClientGreeting(app, tcUrl) + rest)[1];
  }

  /** A message body that `HandleAmfCommand` takes for a connect command with these names. */
  predicate Understood(body: seq<byte>, app: seq<byte>, tcUrl: seq<byte>) {
    var r := Amf.Decode(body, false);
    && r.Ok? && |r.props| == 3
    && r.props[0].value == Amf.Text(AmfCommands.Ascii("connect"))
    && r.props[2].value.Object? && AmfCommands.Announced(r.props[2].value.props, app, tcUrl)
  }

  /** Likewise for the server. */
  lemma ServerSessionDelivers(
    s: RtmpSender, early: seq<Job>, result: seq<byte>, rest: seq<Job>, pieces: seq<seq<byte>>)
    requires s.Valid() && ServerRun(s.sent, early, result, rest)
    requires s.opening + Flatten(pieces) <= s.connection.wire
    ensures
      var r := ChunkParser.FeedAll(ChunkParser.Outcome(ChunkParser.InState(map[], 128), [], []), pieces);
      && r.msgs <= RoundTrip.Messages(s.sent)
      && (RunDry(s) && s.opening + Flatten(pieces) == s.connection.wire ==>
          r.msgs == RoundTrip.Messages(s.sent) && r.rest == [])
  {
    hide RoundTrip.RunInScope, ServerRun;
    ServerRunInScope(s.sent, early, result, rest);
    PipelineDelivers(s, ChunkParser.InState(map[], 128), pieces);
  }
}
