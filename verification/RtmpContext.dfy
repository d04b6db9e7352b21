/** The two halves of `RtmpContext` at work together: what the receiver acknowledges, the sender sends. */
module RtmpContexts {
  import opened Bytes
  import opened ChunkFormat
  import opened ChunkWriter
  import opened MsgBuffers
  import opened PipelineTheorems
  import opened RtmpReceivers
  import opened SendPipelines
  import opened Sequences
  import opened TcpConnections
  import opened Wrappers
  import ChunkParser
  import RoundTrip

  /** The values that the BytesRead messages of a run carry. */
  function AckValues(ms: seq<Message>): seq<int> {
    if |ms| == 0 then []
    else AckIn(ms[0]) + AckValues(ms[1..])
  }

  function AckIn(m: Message): seq<int> {
    if m.msgType == BYTES_READ && |m.body| >= 4 then [Read32(m.body)] else []
  }

  /** Values as 32 bits hold them. */
  function Wrapped(ns: seq<int>): seq<int> {
    if |ns| == 0 then [] else Wrapped(ns[..|ns| - 1]) + [ns[|ns| - 1] % TWO32]
  }

  lemma {:induction false} AckValuesAppend(a: seq<Message>, b: seq<Message>)
    ensures AckValues(a + b) == AckValues(a) + AckValues(b)
  {
    hide AckIn;
    if |a| == 0 {
      assert a + b == b;
    } else {
      assert (a + b)[0] == a[0] && (a + b)[1..] == a[1..] + b;
      AckValuesAppend(a[1..], b);
      Assoc3(AckIn(a[0]), AckValues(a[1..]), AckValues(b));
    }
  }

  lemma {:induction false} MessagesAppend(a: seq<Job>, b: seq<Job>)
    ensures RoundTrip.Messages(a + b) == RoundTrip.Messages(a) + RoundTrip.Messages(b)
  {
    if |a| == 0 {
      assert a + b == b;
    } else {
      assert (a + b)[1..] == a[1..] + b;
      MessagesAppend(a[1..], b);
    }
  }

  /** One more message adds its value, if it is an acknowledgement. */
  lemma OneMore(jobs: seq<Job>, j: Job)
    ensures
      AckValues(RoundTrip.Messages(jobs + [j]))
      == AckValues(RoundTrip.Messages(jobs))
         + if j.msg.msgType == BYTES_READ && |j.msg.body| >= 4 then [Read32(j.msg.body)] else []
  {
    hide Read32;
    MessagesAppend(jobs, [j]);
    assert RoundTrip.Messages([j]) == [j.msg];
    AckValuesAppend(RoundTrip.Messages(jobs), [j.msg]);
    assert [j.msg][1..] == [];
  }

  lemma TailOf<T>(a: seq<T>, b: seq<T>, c: seq<T>, d: seq<T>)
    requires a + b == c + d && |d| <= |b|
    ensures d == b[|b| - |d|..]
  {
    assert d == (c + d)[|c|..] == (a + b)[|c|..];
  }

  /** Messages leave the queue at its front only. */
  lemma StaysRoomy(was: seq<Job>, waiting: seq<Job>, sent: seq<Job>, queued: seq<Job>, c: nat)
    requires c > 0 && was + waiting == sent + queued && |queued| <= |waiting| && Roomy(waiting, c)
    ensures Roomy(queued, c)
  {
    hide Roomy;
    TailOf(was, waiting, sent, queued);
    RoomyTail(waiting, |waiting| - |queued|, c);
  }

  /** The message that acknowledges `value` bytes. */
  function AckJob(value: int): Job {
    Job(Message(2, BYTES_READ, 0, 0, Write32(value % TWO32)), false)
  }

  class RtmpContext {
    const receiver: RtmpReceiver
    const sender: RtmpSender
    const buf: MsgBuffer

    /** The messages handed to the sender so far. */
    ghost function Queue(): seq<Job>
      reads sender`sent, sender`queued
    {
      sender.sent + sender.queued
    }

    /** The two halves and the receive buffer share no object. */
    ghost predicate Apart()
      reads receiver`Repr, sender`Repr, buf`buffer
    {
      && receiver in receiver.Repr && sender in sender.Repr
      && receiver.Repr !! {buf, buf.buffer} !! (sender.Repr + {sender.arena, sender.connection})
    }

    ghost predicate Valid()
      reads receiver, receiver.Repr, sender, sender.Repr, sender.connection, buf
    {
      && Apart() && receiver.Valid() && sender.Valid() && buf.Valid()
      && receiver.lastLeft == buf.ReadableBytes()
      && AckValues(RoundTrip.Messages(Queue())) == Wrapped(receiver.acks)
      && Roomy(sender.queued, sender.outChunkSize)
    }

    constructor Create(connection: TcpConnection)
      requires connection.Valid()
      ensures Valid() && sender.connection == connection && sender.opening == connection.Stream()
      ensures receiver.delivered == 0 && receiver.acks == [] && Queue() == []
    {
      hide RtmpSender.Valid, TcpConnection.Valid, TcpConnection.Stream;
      ghost var bases := BasesOf(connection.ioVecs);
      receiver := new RtmpReceiver();
      sender := new RtmpSender.Create(connection);
      buf := new MsgBuffer(2048);
      new;
      assert Queue() == [];
      assert sender.earlier == bases;
    }

    /** Any other message: it joins the queue. */
    method PushOutQueue(packet: PacketPtr)
      requires Valid() && Ready(packet)
      requires Roomy(sender.queued + [JobFor(packet, 0, false)], sender.outChunkSize)
      requires packet.header.value.msgType != BYTES_READ
      requires packet.data !in receiver.Repr && packet.data != buf.buffer && packet.data != sender.arena
      modifies sender, sender.arena, sender.connection
      ensures Valid() && sender.sending
      ensures Queue() == old(Queue()) + [old(JobFor(packet, 0, false))]
    {
      hide RtmpReceiver.Valid, RtmpSender.Valid, AckValues, RoundTrip.Messages, Roomy;
      Push(packet);
    }

    /** The part that any message shares: the queue of the sender grows by one. */
    method Push(packet: PacketPtr)
      requires Apart() && sender.Valid() && Ready(packet)
      requires Roomy(sender.queued + [JobFor(packet, 0, false)], sender.outChunkSize)
      requires packet.data !in receiver.Repr && packet.data != buf.buffer && packet.data != sender.arena
      modifies sender, sender.arena, sender.connection
      ensures Apart() && sender.Valid() && sender.sending
      ensures Queue() == old(Queue()) + [old(JobFor(packet, 0, false))]
      ensures Roomy(sender.queued, sender.outChunkSize)
      ensures AckValues(RoundTrip.Messages(Queue()))
        == old(AckValues(RoundTrip.Messages(Queue())))
           + if packet.header.value.msgType == BYTES_READ && packet.header.value.msgLen >= 4
             then [old(Read32(packet.data[..packet.header.value.msgLen]))] else []
    {
      ghost var j, jobs := JobFor(packet, 0, false), Queue();
      ghost var waiting, was := sender.queued + [j], sender.sent;
      RoomyFits(waiting, sender.outChunkSize);
      OneMore(jobs, j);
      hide BatchesFit, AckValues, RoundTrip.Messages, Roomy, RtmpSender.Valid, Read32;
      Assoc3(was, sender.queued, [j]);
      sender.PushOutQueue(packet);
      StaysRoomy(was, waiting, sender.sent, sender.queued, sender.outChunkSize);
    }

    /** `SendBytesRecv`'s message: the value, in a packet of its own. */
    method SendBytesRead(value: int)
      requires Apart() && sender.Valid()
      requires Roomy(sender.queued, sender.outChunkSize)
      modifies sender, sender.arena, sender.connection
      ensures Apart() && sender.Valid() && Queue() == old(Queue()) + [AckJob(value)]
      ensures Roomy(sender.queued, sender.outChunkSize)
      ensures AckValues(RoundTrip.Messages(Queue()))
        == old(AckValues(RoundTrip.Messages(Queue()))) + [value % TWO32]
    {
      var body := Write32(value % TWO32);
      var data := new byte[4](i requires 0 <= i < 4 => body[i]);
      assert data[..4] == body && body + [] == body && |body| == 4;
      Read32Write32(value % TWO32, []);
      hide Write32, Read32, AckValues, RoundTrip.Messages, Roomy;
      RoomForOne(sender.queued, AckJob(value), sender.outChunkSize);
      Push(PacketPtr(Some(Header(2, 0, 4, BYTES_READ, 0)), data));
    }

    /** The socket has delivered `incoming`: it is parsed, and acknowledged if a window is full. */
    method OnRead(incoming: seq<byte>)
      requires Valid() && |incoming| <= buf.ReadLimit()
      modifies receiver, receiver.Repr, buf, buf.buffer, sender, sender.arena, sender.connection
      ensures Valid() && receiver.delivered == old(receiver.delivered) + |incoming| && old(Queue()) <= Queue()
      ensures
        var x := old(receiver.inBytes) + |incoming|;
        if x < old(receiver.ackSize) then receiver.acks == old(receiver.acks) && Queue() == old(Queue())
        else receiver.acks == old(receiver.acks) + [x] && Queue() == old(Queue()) + [AckJob(x)]
      ensures receiver.Progress(buf) == ChunkParser.Continue(old(receiver.Progress(buf)), incoming)
    {
      hide Apart, AckValues, RoundTrip.Messages, RtmpSender.Valid, RtmpReceiver.Valid, ChunkParser.Continue, Roomy;
      var acks := receiver.acks;
      Receive(incoming);
      if |receiver.acks| > |acks| {
        ghost var now := receiver.acks;
        Acknowledge(receiver.acks[|acks|]);
        assert now[..|now| - 1] == acks;
      } else {
        assert receiver.acks == acks;
      }
    }

    /** The parsing half. */
    method Receive(incoming: seq<byte>)
      requires Valid() && |incoming| <= buf.ReadLimit()
      modifies receiver, receiver.Repr, buf, buf.buffer
      ensures Apart() && receiver.Valid() && sender.Valid() && buf.Valid() && receiver.lastLeft == buf.ReadableBytes()
      ensures receiver.delivered == old(receiver.delivered) + |incoming| && unchanged(sender)
      ensures
        var x := old(receiver.inBytes) + |incoming|;
        if x < old(receiver.ackSize) then receiver.acks == old(receiver.acks) && receiver.inBytes == x
        else receiver.acks == old(receiver.acks) + [x] && receiver.inBytes == 0
      ensures receiver.Progress(buf) == ChunkParser.Continue(old(receiver.Progress(buf)), incoming)
    {
      hide RtmpSender.Valid, ChunkParser.Continue, Roomy, AckValues, RoundTrip.Messages;
      receiver.OnRead(buf, incoming);
    }

    /** The sending half; the receiver does not notice. */
    method Acknowledge(value: int)
      requires Apart() && receiver.Valid() && sender.Valid() && buf.Valid()
      requires Roomy(sender.queued, sender.outChunkSize)
      modifies sender, sender.arena, sender.connection
      ensures Apart() && receiver.Valid() && sender.Valid() && buf.Valid()
      ensures Queue() == old(Queue()) + [AckJob(value)]
      ensures receiver.Progress(buf) == old(receiver.Progress(buf)) && unchanged(receiver)
      ensures buf.ReadableBytes() == old(buf.ReadableBytes())
      ensures Roomy(sender.queued, sender.outChunkSize)
      ensures AckValues(RoundTrip.Messages(Queue()))
        == old(AckValues(RoundTrip.Messages(Queue()))) + [value % TWO32]
    {
      hide AckValues, RoundTrip.Messages, RtmpSender.Valid, RtmpReceiver.Valid, Roomy;
      SendBytesRead(value);
    }

    /** The socket takes more of what is queued. */
    method OnWritable(results: seq<WriteResult>)
      requires Valid()
      modifies sender, sender.arena, sender.connection
      ensures Valid() && Queue() == old(Queue())
    {
      hide Roomy, AckValues, RoundTrip.Messages, RtmpSender.Valid, RtmpReceiver.Valid;
      ghost var was, waiting := sender.sent, sender.queued;
      sender.OnWritable(results);
      StaysRoomy(was, waiting, sender.sent, sender.queued, sender.outChunkSize);
    }
  }

  lemma PrefixValues(a: seq<Message>, b: seq<Message>)
    requires a <= b
    ensures AckValues(a) <= AckValues(b)
  {
    assert b == a + b[|a|..];
    AckValuesAppend(a, b[|a|..]);
  }

  lemma {:induction false} WrappedIs(ns: seq<int>, n: nat)
    requires n <= |ns| && forall i :: 0 <= i < |ns| ==> 0 <= ns[i] < TWO32
    ensures Wrapped(ns[..n]) == ns[..n]
    decreases n
  {
    if n > 0 {
      WrappedIs(ns, n - 1);
      assert ns[..n][..n - 1] == ns[..n - 1] && ns[..n] == ns[..n - 1] + [ns[n - 1]];
    }
  }

  lemma FittingWrapped(ns: seq<int>)
    requires forall n :: n in ns ==> 0 <= n < TWO32
    ensures Wrapped(ns) == ns
  {
    forall i | 0 <= i < |ns| ensures 0 <= ns[i] < TWO32 {
      assert ns[i] in ns;
    }
    WrappedIs(ns, |ns|);
    assert ns[..|ns|] == ns;
  }

  /** The peer has seen some of the messages that were sent, and others are queued behind them. */
  lemma SeenValues(ms: seq<Message>, sent: seq<Job>, queued: seq<Job>)
    requires ms <= RoundTrip.Messages(sent)
    ensures AckValues(ms) <= AckValues(RoundTrip.Messages(sent + queued))
    ensures queued == [] && ms == RoundTrip.Messages(sent) ==>
      AckValues(ms) == AckValues(RoundTrip.Messages(sent + queued))
  {
    MessagesAppend(sent, queued);
    assert queued == [] ==> sent + queued == sent;
    hide RoundTrip.Messages, AckValues;
    PrefixValues(ms, RoundTrip.Messages(sent + queued));
  }

  /**
    Acknowledgements, end to end: a peer fed any part of what the connection has written, however cut,
    has seen a prefix of the values this side acknowledged, cut to 32 bits, and all of them once the
    connection has run dry and the peer has read it all. If they fit in 32 bits, the values seen then and
    what is counted but not yet acknowledged make up exactly the bytes that were delivered to this side.
   */
  lemma AcksArrive(c: RtmpContext, st: ChunkParser.InState, pieces: seq<seq<byte>>)
    requires c.Valid() && RoundTrip.RunInScope(map[], c.sender.sent, st.chunkSize, c.sender.outChunkSize)
    requires RoundTrip.AllSynced(map[], st.lanes)
    requires c.sender.opening + Flatten(pieces) <= c.sender.connection.wire
    ensures
      var r := ChunkParser.FeedAll(ChunkParser.Outcome(st, [], []), pieces);
      var all := RunDry(c.sender) && c.sender.opening + Flatten(pieces) == c.sender.connection.wire;
      && AckValues(r.msgs) <= Wrapped(c.receiver.acks)
      && (all ==> AckValues(r.msgs) == Wrapped(c.receiver.acks))
      && ((forall n :: n in c.receiver.acks ==> 0 <= n < TWO32) ==>
          && AckValues(r.msgs) <= c.receiver.acks
          && (all ==> Sum(AckValues(r.msgs)) + c.receiver.inBytes == c.receiver.delivered))
  {
    var s := c.sender;
    var r := ChunkParser.FeedAll(ChunkParser.Outcome(st, [], []), pieces);
    PipelineDelivers(s, st, pieces);
    SeenValues(r.msgs, s.sent, s.queued);
    if forall n :: n in c.receiver.acks ==> 0 <= n < TWO32 {
      FittingWrapped(c.receiver.acks);
    }
    hide ChunkParser.FeedAll, RoundTrip.Messages, RoundTrip.RunInScope, AckValues, Wrapped;
  }
}
