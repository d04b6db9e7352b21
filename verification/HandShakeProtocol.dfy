/**
  The handshake as a two-party protocol: a client and a server, each with a receive buffer and bytes its
  socket has not accepted yet, joined by two reliable byte streams that deliver in pieces of any size.
 */
module HandShakeProtocol {
  import opened Bytes
  import opened HandShakes
  import opened Sequences

  datatype HsState =
    | NotStarted
    | PostC0C1 | WaitS0S1 | PostC2 | WaitS2 | Doning    // client
    | WaitC0C1 | PostS0S1 | WaitC2 | PostS2             // server
    | Done

  /** `RtmpContext`'s own state. The middle value is never entered. */
  datatype ContextState = InHandShake | WaitingDone | InMessages

  /**
    One endpoint. `sent` is everything its socket has accepted, `unsent` what still waits for that;
    `got` counts the bytes received, `used` those the handshake consumed, and `buf` holds the ones in
    between. `said` is what has been handed over for sending once the handshake was done.
   */
  datatype End = End(
    client: bool, hs: HsState, context: ContextState, complex: bool, closed: bool,
    c1s1: seq<byte>, sent: seq<byte>, unsent: seq<byte>, said: seq<byte>, got: nat, used: nat, buf: seq<byte>)

  /** What `HandShake` returns. */
  const NEED_MORE := 1
  const FAILED := -1
  const FINISHED := 0
  const HALFWAY := 2

  function WriteComplete(e: End): End {
    match e.hs
    case PostS0S1 => e.(hs := WaitC2)
    case PostS2 => e.(hs := Done)
    case PostC0C1 => e.(hs := WaitS0S1)
    case PostC2 => e.(hs := WaitS2)
    case Doning => e.(hs := Done)
    case _ => e
  }

  /** The write-complete callback of the connection: only the handshake phase concerns the handshake. */
  function OnWriteComplete(e: End): End {
    match e.context
    case InHandShake => WriteComplete(e)
    case WaitingDone => e.(context := InMessages)
    case InMessages => e
  }

  /** `SendInLoop`: the socket accepts up to `k` bytes at once if nothing is queued; a closed one drops all. */
  function Send(e: End, data: seq<byte>, k: nat): End {
    if e.closed then e
    else if e.unsent != [] then e.(unsent := e.unsent + data)
    else if k >= |data| then OnWriteComplete(e.(sent := e.sent + data))
    else e.(sent := e.sent + data[..k], unsent := data[k..])
  }

  /** `Retrieve`: asking for more than there is takes everything. */
  function Retrieve(e: End, n: nat): End {
    if n >= |e.buf| then e.(buf := [], used := e.used + |e.buf|) else e.(buf := e.buf[n..], used := e.used + n)
  }

  /** The bytes `CheckC1S1` looks at; one byte beyond the readable ones is whatever the memory holds. */
  function Looked(buf: seq<byte>, stale: byte): seq<byte>
    requires |buf| >= PACKET
    ensures |Looked(buf, stale)| == PACKET + 1
  {
    if |buf| == PACKET then buf + [stale] else buf[..PACKET + 1]
  }

  /**
    `HandShake` on the bytes received so far. `reply` is the C2 or S2 made up for the occasion, `k` how
    much of the answer the socket accepts at once.
   */
  function HandShake(h: Hmac, keys: Keys, e: End, reply: seq<byte>, k: nat, stale: byte): (End, int)
    requires |reply| == PACKET && |e.c1s1| == PACKET + 1
  {
    match e.hs
    case WaitC0C1 =>
      if |e.buf| < PACKET + 1 then (e, NEED_MORE)
      else
        (match CheckC1S1(h, keys, e.client, e.complex, e.buf[..PACKET + 1])
         case Rejected => (e, FAILED)
         case Accepted(_, complex) =>
           (Send(Retrieve(e, PACKET + 1).(complex := complex, hs := PostS0S1), e.c1s1, k), NEED_MORE))
    case WaitC2 =>
      if |e.buf| < PACKET then (e, NEED_MORE)
      else (Send(Retrieve(e, PACKET).(hs := PostS2), reply, k), FINISHED)
    case WaitS0S1 =>
      if |e.buf| < PACKET then (e, NEED_MORE)
      else
        (match CheckC1S1(h, keys, e.client, e.complex, Looked(e.buf, stale))
         case Rejected => (e, FAILED)
         case Accepted(_, complex) =>
           (Send(Retrieve(e, PACKET + 1).(complex := complex, hs := PostC2), reply, k), NEED_MORE))
    case WaitS2 =>
      if |e.buf| < PACKET then (e, NEED_MORE)
      else (Retrieve(e, PACKET).(hs := Done), FINISHED)
    case _ => (e, NEED_MORE)
  }

  /** `Parse` in the handshake phase. What is left in the buffer afterwards belongs to the messages. */
  function Parse(h: Hmac, keys: Keys, e: End, reply: seq<byte>, k: nat, stale: byte): (End, int)
    requires |reply| == PACKET && |e.c1s1| == PACKET + 1
  {
    if e.context != InHandShake then (e, NEED_MORE)
    else
      var (e', ret) := HandShake(h, keys, e, reply, k, stale);
      if ret == FINISHED then (e'.(context := InMessages), ret)
      else if ret == HALFWAY then (e'.(context := WaitingDone), ret)
      else (e', ret)
  }

  /** Bytes arrive and are parsed. */
  function Receive(h: Hmac, keys: Keys, e: End, data: seq<byte>, reply: seq<byte>, k: nat, stale: byte): (End, int)
    requires |reply| == PACKET && |e.c1s1| == PACKET + 1
  {
    Parse(h, keys, e.(buf := e.buf + data, got := e.got + |data|), reply, k, stale)
  }

  /** The socket accepts `n` more of the waiting bytes; when it has all of them, the callback runs. */
  function Write(e: End, n: nat): End
    requires 0 < n <= |e.unsent|
  {
    var e' := e.(sent := e.sent + e.unsent[..n], unsent := e.unsent[n..]);
    if e'.unsent == [] then OnWriteComplete(e') else e'
  }

  /** Message bytes join what waits for the socket. */
  function Talk(e: End, data: seq<byte>): End {
    e.(unsent := e.unsent + data, said := e.said + data)
  }

  // ---------------------------------------------------------------------------------------------
  // The two endpoints together
  // ---------------------------------------------------------------------------------------------

  datatype Sys = Sys(c: End, s: End)

  /** `Talk` moves hand message bytes to the connection, once the handshake is over on that side. */
  datatype Move =
    | ClientTalks(data: seq<byte>)
    | ServerTalks(data: seq<byte>)
    | ClientWrites(n: nat)
    | ServerWrites(n: nat)
    | ClientReceives(n: nat, reply: seq<byte>, k: nat, stale: byte)
    | ServerReceives(n: nat, reply: seq<byte>, k: nat, stale: byte)

  /** The bytes on their way to an endpoint that has received `got`. */
  function InFlight(from: End, to: End): seq<byte>
    requires to.got <= |from.sent|
  {
    from.sent[to.got..]
  }

  /**
    A move the network may make. The client's test for S0S1 is one byte short, so a delivery that
    leaves it with exactly 1536 bytes is excluded; see `ShortTest`.
   */
  predicate Enabled(y: Sys, m: Move) {
    match m
    case ClientWrites(n) => 0 < n <= |y.c.unsent|
    case ServerWrites(n) => 0 < n <= |y.s.unsent|
    case ClientTalks(_) => y.c.context == InMessages
    case ServerTalks(_) => y.s.context == InMessages
    case ClientReceives(n, reply, _, _) =>
      && 0 < n && y.c.got + n <= |y.s.sent| && |reply| == PACKET
      && !(y.c.hs == WaitS0S1 && |y.c.buf| + n == PACKET)
    case ServerReceives(n, reply, _, _) =>
      0 < n && y.s.got + n <= |y.c.sent| && |reply| == PACKET
  }

  function Next(h: Hmac, keys: Keys, y: Sys, m: Move): Sys
    requires Enabled(y, m) && |y.c.c1s1| == |y.s.c1s1| == PACKET + 1
  {
    match m
    case ClientWrites(n) => y.(c := Write(y.c, n))
    case ServerWrites(n) => y.(s := Write(y.s, n))
    case ClientTalks(data) => y.(c := Talk(y.c, data))
    case ServerTalks(data) => y.(s := Talk(y.s, data))
    case ClientReceives(n, reply, k, stale) =>
      y.(c := Receive(h, keys, y.c, y.s.sent[y.c.got..y.c.got + n], reply, k, stale).0)
    case ServerReceives(n, reply, k, stale) =>
      y.(s := Receive(h, keys, y.s, y.c.sent[y.s.got..y.s.got + n], reply, k, stale).0)
  }

  /** `Start` on both sides, with any random bytes; `k` of the client's block go out at once. */
  function Init(h: Hmac, keys: Keys, cfill: seq<byte>, sfill: seq<byte>, k: nat): Sys
    requires |cfill| == |sfill| == PACKET + 1
  {
    var c1, s1 := Signed(h, keys, true, cfill), Signed(h, keys, false, sfill);
    Sys(Send(End(true, PostC0C1, InHandShake, true, false, c1, [], [], [], 0, 0, []), c1, k),
        End(false, WaitC0C1, InHandShake, true, false, s1, [], [], [], 0, 0, []))
  }

  /** What every endpoint keeps: consumption follows reception, reception follows what was sent. */
  predicate Stream(from: End, to: End) {
    && to.used <= to.got <= |from.sent|
    && to.buf == from.sent[to.used..to.got]
  }

  /** Everything the handshake makes one endpoint send: its first block and its second. */
  const TOTAL: nat := 2 * PACKET + 1

  /** Both blocks have been handed over, and after them nothing but messages. */
  predicate SaidAll(e: End) {
    |e.sent + e.unsent| >= TOTAL && (e.sent + e.unsent)[TOTAL..] == e.said
  }

  predicate ClientOk(c: End) {
    && c.client && c.complex && !c.closed && |c.c1s1| == PACKET + 1
    && (c.context == if c.hs == Done then InMessages else InHandShake)
    && (c.context == InHandShake ==> c.said == [])
    && match c.hs
       case PostC0C1 => c.sent + c.unsent == c.c1s1 && c.unsent != [] && c.used == 0
       case WaitS0S1 => c.sent == c.c1s1 && c.unsent == [] && c.used == 0 && |c.buf| < PACKET
       case PostC2 => |c.sent + c.unsent| == TOTAL && c.c1s1 <= c.sent && c.unsent != [] && c.used == PACKET + 1
       case WaitS2 =>
         |c.sent| == TOTAL && c.c1s1 <= c.sent && c.unsent == [] && c.used == PACKET + 1 && |c.buf| < PACKET
       case Done => |c.sent| >= TOTAL && SaidAll(c) && c.c1s1 <= c.sent && c.used == TOTAL
       case _ => false
  }

  predicate ServerOk(s: End) {
    && !s.client && s.complex && !s.closed && |s.c1s1| == PACKET + 1
    && (s.context == if s.hs in {PostS2, Done} then InMessages else InHandShake)
    && (s.context == InHandShake ==> s.said == [])
    && match s.hs
       case WaitC0C1 => s.sent == [] && s.unsent == [] && s.used == 0 && |s.buf| < PACKET + 1
       case PostS0S1 => s.sent + s.unsent == s.c1s1 && s.unsent != [] && s.used == PACKET + 1
       case WaitC2 => s.sent == s.c1s1 && s.unsent == [] && s.used == PACKET + 1 && |s.buf| < PACKET
       case PostS2 => SaidAll(s) && s.c1s1 <= s.sent && s.used == TOTAL
       case Done => |s.sent| >= TOTAL && SaidAll(s) && s.c1s1 <= s.sent && s.used == TOTAL
       case _ => false
  }

  /** The invariant of every reachable state. */
  predicate Inv(h: Hmac, keys: Keys, y: Sys, cfill: seq<byte>, sfill: seq<byte>)
    requires |cfill| == |sfill| == PACKET + 1
  {
    && ClientOk(y.c) && ServerOk(y.s)
    && y.c.c1s1 == Signed(h, keys, true, cfill) && y.s.c1s1 == Signed(h, keys, false, sfill)
    && Stream(y.c, y.s) && Stream(y.s, y.c)
  }

  // ---------------------------------------------------------------------------------------------
  // Safety
  // ---------------------------------------------------------------------------------------------

  /** A server with bytes of S0S1 or S2 still to go. */
  predicate StillPosting(s: End) {
    s.hs == PostS0S1 || (s.hs == PostS2 && |s.sent| < TOTAL)
  }

  /** The same bytes at the same places, whatever is sent after them. */
  lemma StreamGrows(from: End, from': End, to: End)
    requires Stream(from, to) && from.sent <= from'.sent
    ensures Stream(from', to)
  {
  }

  lemma InitOk(h: Hmac, keys: Keys, cfill: seq<byte>, sfill: seq<byte>, k: nat)
    requires |cfill| == |sfill| == PACKET + 1
    ensures Inv(h, keys, Init(h, keys, cfill, sfill, k), cfill, sfill)
  {
    hide Signed;
  }

  /**
    While an endpoint is still sending a block, the peer has nothing on its way to it and nothing in its
    buffer: the bytes of the next phase never meet an endpoint in a Post state. A server that has turned
    to messages before S2 was out stays in that state after it is; what matters is that S2 is not out.
   */
  lemma PostIsQuiet(h: Hmac, keys: Keys, y: Sys, cfill: seq<byte>, sfill: seq<byte>)
    requires |cfill| == |sfill| == PACKET + 1 && Inv(h, keys, y, cfill, sfill)
    ensures y.c.hs in {PostC0C1, PostC2} ==> InFlight(y.s, y.c) == [] && y.c.buf == []
    ensures StillPosting(y.s) ==> InFlight(y.c, y.s) == [] && y.s.buf == []
  {
    hide Signed;
  }

  /** Writing moves bytes from what waits to what is sent, and touches nothing that was received. */
  lemma WriteMoves(e: End, n: nat)
    requires 0 < n <= |e.unsent|
    ensures
      var e' := Write(e, n);
      && e.sent <= e'.sent && e'.sent + e'.unsent == e.sent + e.unsent && e'.c1s1 == e.c1s1
      && e'.used == e.used && e'.got == e.got && e'.buf == e.buf
  {
    assert e.sent + e.unsent[..n] + e.unsent[n..] == e.sent + e.unsent;
  }

  lemma ClientWroteOk(c: End, n: nat)
    requires ClientOk(c) && 0 < n <= |c.unsent| && (c.hs in {PostC0C1, PostC2} ==> c.buf == [])
    ensures ClientOk(Write(c, n))
  {
    WriteMoves(c, n);
  }

  lemma ServerWroteOk(s: End, n: nat)
    requires ServerOk(s) && 0 < n <= |s.unsent| && (StillPosting(s) ==> s.buf == [])
    ensures ServerOk(Write(s, n))
  {
    WriteMoves(s, n);
  }

  lemma ClientWritesKeeps(h: Hmac, keys: Keys, y: Sys, n: nat, cfill: seq<byte>, sfill: seq<byte>)
    requires |cfill| == |sfill| == PACKET + 1 && Inv(h, keys, y, cfill, sfill)
    requires 0 < n <= |y.c.unsent|
    ensures Inv(h, keys, y.(c := Write(y.c, n)), cfill, sfill)
  {
    PostIsQuiet(h, keys, y, cfill, sfill);
    hide Signed, Write, Stream, ClientOk, ServerOk, StillPosting;
    ClientWroteOk(y.c, n);
    WriteMoves(y.c, n);
    StreamGrows(y.c, Write(y.c, n), y.s);
    SameReception(y.s, y.c, Write(y.c, n));
  }

  lemma ServerWritesKeeps(h: Hmac, keys: Keys, y: Sys, n: nat, cfill: seq<byte>, sfill: seq<byte>)
    requires |cfill| == |sfill| == PACKET + 1 && Inv(h, keys, y, cfill, sfill)
    requires 0 < n <= |y.s.unsent|
    ensures Inv(h, keys, y.(s := Write(y.s, n)), cfill, sfill)
  {
    PostIsQuiet(h, keys, y, cfill, sfill);
    hide Signed, Write, Stream, ClientOk, ServerOk, StillPosting;
    ServerWroteOk(y.s, n);
    WriteMoves(y.s, n);
    StreamGrows(y.s, Write(y.s, n), y.c);
    SameReception(y.c, y.s, Write(y.s, n));
  }

  /** The length of the block an endpoint waits for. */
  function Block(hs: HsState): nat {
    if hs in {WaitC0C1, WaitS0S1} then PACKET + 1 else PACKET
  }

  /** `to` with `n` more bytes delivered and not yet looked at. */
  function Deliver(from: End, to: End, n: nat): (e: End)
    requires to.got + n <= |from.sent|
  {
    to.(buf := to.buf + from.sent[to.got..to.got + n], got := to.got + n)
  }

  lemma DeliverKeepsStream(from: End, to: End, n: nat)
    requires Stream(from, to) && to.got + n <= |from.sent|
    ensures Stream(from, Deliver(from, to, n))
  {
  }

  lemma RetrieveKeepsStream(from: End, to: End, n: nat)
    requires Stream(from, to)
    ensures Stream(from, Retrieve(to, n))
  {
  }

  /** Sending only adds to what the peer will receive. */
  lemma SendGrows(e: End, data: seq<byte>, k: nat)
    ensures e.sent <= Send(e, data, k).sent
    ensures !e.closed ==> Send(e, data, k).sent + Send(e, data, k).unsent == e.sent + e.unsent + data
  {
  }

  /** Too little has arrived: the bytes stay where they are. */
  lemma ServerWaits(h: Hmac, keys: Keys, y: Sys, n: nat, cfill: seq<byte>, sfill: seq<byte>)
    requires |cfill| == |sfill| == PACKET + 1 && Inv(h, keys, y, cfill, sfill)
    requires y.s.got + n <= |y.c.sent|
    requires y.s.hs in {WaitC0C1, WaitC2} && |y.s.buf| + n < Block(y.s.hs)
    ensures Inv(h, keys, y.(s := Deliver(y.c, y.s, n)), cfill, sfill)
  {
    hide Signed;
    DeliverKeepsStream(y.c, y.s, n);
  }

  /** The server's state after it has taken C0C1, or C2. */
  function ServerTook(d: End, reply: seq<byte>, k: nat): End {
    if d.hs == WaitC0C1 then Send(Retrieve(d, PACKET + 1).(complex := true, hs := PostS0S1), d.c1s1, k)
    else Send(Retrieve(d, PACKET).(hs := PostS2), reply, k).(context := InMessages)
  }

  lemma ServerTookStream(from: End, s: End, n: nat, reply: seq<byte>, k: nat)
    requires Stream(from, s) && s.got + n <= |from.sent|
    ensures Stream(from, ServerTook(Deliver(from, s, n), reply, k))
  {
    hide Stream, Send, Retrieve, Deliver;
    var d := Deliver(from, s, n);
    DeliverKeepsStream(from, s, n);
    if d.hs == WaitC0C1 {
      RetrieveKeepsStream(from, d, PACKET + 1);
      SendReceivesNothing(Retrieve(d, PACKET + 1).(complex := true, hs := PostS0S1), d.c1s1, k);
      SameReception(from, Retrieve(d, PACKET + 1), ServerTook(d, reply, k));
    } else {
      RetrieveKeepsStream(from, d, PACKET);
      SendReceivesNothing(Retrieve(d, PACKET).(hs := PostS2), reply, k);
      SameReception(from, Retrieve(d, PACKET), ServerTook(d, reply, k));
    }
  }

  lemma SendReceivesNothing(e: End, data: seq<byte>, k: nat)
    ensures var e' := Send(e, data, k); e'.used == e.used && e'.got == e.got && e'.buf == e.buf
  {
  }

  lemma SameReception(from: End, to: End, to': End)
    requires Stream(from, to) && to'.used == to.used && to'.got == to.got && to'.buf == to.buf
    ensures Stream(from, to')
  {
  }

  lemma ServerTookOk(from: End, s: End, n: nat, reply: seq<byte>, k: nat)
    requires ServerOk(s) && s.got + n <= |from.sent| && |reply| == PACKET
    requires Stream(from, s) && s.hs in {WaitC0C1, WaitC2} && |s.buf| + n >= Block(s.hs)
    requires |from.sent| <= if s.hs == WaitC0C1 then PACKET + 1 else TOTAL
    ensures
      var s' := ServerTook(Deliver(from, s, n), reply, k);
      ServerOk(s') && s'.c1s1 == s.c1s1 && s.sent <= s'.sent
  {
    var d := Deliver(from, s, n);
    if s.hs == WaitC0C1 {
      SendGrows(Retrieve(d, PACKET + 1).(hs := PostS0S1), d.c1s1, k);
    } else {
      SendGrows(Retrieve(d, PACKET).(hs := PostS2), reply, k);
    }
  }

  lemma ServerTakes(
    h: Hmac, keys: Keys, y: Sys, n: nat, reply: seq<byte>, k: nat, cfill: seq<byte>, sfill: seq<byte>)
    requires |cfill| == |sfill| == PACKET + 1 && Inv(h, keys, y, cfill, sfill)
    requires y.s.got + n <= |y.c.sent| && |reply| == PACKET
    requires y.s.hs in {WaitC0C1, WaitC2} && |y.s.buf| + n >= Block(y.s.hs)
    ensures Inv(h, keys, y.(s := ServerTook(Deliver(y.c, y.s, n), reply, k)), cfill, sfill)
  {
    hide Signed, ServerTook, Deliver, Retrieve;
    assert |y.c.sent| <= if y.s.hs == WaitC0C1 then PACKET + 1 else TOTAL;
    hide ClientOk, ServerOk, Stream;
    ServerTookOk(y.c, y.s, n, reply, k);
    ServerTookStream(y.c, y.s, n, reply, k);
    StreamGrows(y.s, ServerTook(Deliver(y.c, y.s, n), reply, k), y.c);
  }

  /** C0C1 as it comes out of the stream is the client's block, which the server accepts. */
  lemma GenuineC0C1(h: Hmac, keys: Keys, y: Sys, n: nat, cfill: seq<byte>, sfill: seq<byte>)
    requires |cfill| == |sfill| == PACKET + 1 && Inv(h, keys, y, cfill, sfill)
    requires y.s.hs == WaitC0C1 && y.s.got + n <= |y.c.sent| && |y.s.buf| + n >= PACKET + 1
    ensures
      var check := CheckC1S1(h, keys, false, true, Deliver(y.c, y.s, n).buf[..PACKET + 1]);
      check.Accepted? && check.complex
  {
    hide Signed, CheckC1S1;
    DeliverKeepsStream(y.c, y.s, n);
    assert Deliver(y.c, y.s, n).buf[..PACKET + 1] == y.c.c1s1;
    SelfVerifies(h, keys, true, cfill);
  }

  /** Bytes only ever reach a server that waits for them, or that has turned to messages. */
  lemma ServerExpects(h: Hmac, keys: Keys, y: Sys, n: nat, cfill: seq<byte>, sfill: seq<byte>)
    requires |cfill| == |sfill| == PACKET + 1 && Inv(h, keys, y, cfill, sfill)
    requires 0 < n && y.s.got + n <= |y.c.sent|
    ensures !y.s.client && y.s.complex
    ensures y.s.context == InMessages || (y.s.hs in {WaitC0C1, WaitC2} && y.s.context == InHandShake)
  {
    PostIsQuiet(h, keys, y, cfill, sfill);
  }

  /** What `Receive` makes of a block that is complete and, if it is C0C1, genuine. */
  lemma ServerStep(h: Hmac, keys: Keys, e: End, data: seq<byte>, reply: seq<byte>, k: nat, stale: byte)
    requires e.hs in {WaitC0C1, WaitC2} && e.context == InHandShake && !e.client && e.complex
    requires |e.c1s1| == PACKET + 1 && |reply| == PACKET && |e.buf + data| >= Block(e.hs)
    requires e.hs == WaitC0C1 ==>
      var check := CheckC1S1(h, keys, false, true, (e.buf + data)[..PACKET + 1]);
      check.Accepted? && check.complex
    ensures
      Receive(h, keys, e, data, reply, k, stale)
      == (ServerTook(e.(buf := e.buf + data, got := e.got + |data|), reply, k),
          if e.hs == WaitC2 then FINISHED else NEED_MORE)
    ensures ServerTook(e.(buf := e.buf + data, got := e.got + |data|), reply, k).context
      == if e.hs == WaitC2 then InMessages else InHandShake
  {
    hide CheckC1S1;
  }

  /** Message bytes pile up for the parser of messages. */
  lemma ServerHears(h: Hmac, keys: Keys, y: Sys, n: nat, cfill: seq<byte>, sfill: seq<byte>)
    requires |cfill| == |sfill| == PACKET + 1 && Inv(h, keys, y, cfill, sfill)
    requires y.s.got + n <= |y.c.sent| && y.s.context == InMessages
    ensures Inv(h, keys, y.(s := Deliver(y.c, y.s, n)), cfill, sfill)
  {
    hide Signed;
    DeliverKeepsStream(y.c, y.s, n);
  }

  /** The server takes C0C1 and C2 as they come, accepts them, and answers each with one block. */
  lemma ServerReceivesKeeps(
    h: Hmac, keys: Keys, y: Sys, n: nat, reply: seq<byte>, k: nat, stale: byte, cfill: seq<byte>, sfill: seq<byte>)
    requires |cfill| == |sfill| == PACKET + 1 && Inv(h, keys, y, cfill, sfill)
    requires 0 < n && y.s.got + n <= |y.c.sent| && |reply| == PACKET && |y.s.c1s1| == PACKET + 1
    ensures
      var (s', ret) := Receive(h, keys, y.s, y.c.sent[y.s.got..y.s.got + n], reply, k, stale);
      && Inv(h, keys, y.(s := s'), cfill, sfill)
      && ret == if s'.context == y.s.context then NEED_MORE else FINISHED
  {
    hide Inv, CheckC1S1, Signed, ServerTook;
    ServerExpects(h, keys, y, n, cfill, sfill);
    if y.s.context == InMessages {
      ServerHears(h, keys, y, n, cfill, sfill);
    } else if |y.s.buf| + n < Block(y.s.hs) {
      ServerWaits(h, keys, y, n, cfill, sfill);
    } else {
      hide Receive;
      if y.s.hs == WaitC0C1 {
        GenuineC0C1(h, keys, y, n, cfill, sfill);
      }
      ServerStep(h, keys, y.s, y.c.sent[y.s.got..y.s.got + n], reply, k, stale);
      ServerTakes(h, keys, y, n, reply, k, cfill, sfill);
    }
  }

  lemma ClientWaits(h: Hmac, keys: Keys, y: Sys, n: nat, cfill: seq<byte>, sfill: seq<byte>)
    requires |cfill| == |sfill| == PACKET + 1 && Inv(h, keys, y, cfill, sfill)
    requires y.c.got + n <= |y.s.sent|
    requires y.c.hs in {WaitS0S1, WaitS2} && |y.c.buf| + n < PACKET
    ensures Inv(h, keys, y.(c := Deliver(y.s, y.c, n)), cfill, sfill)
  {
    hide Signed;
    DeliverKeepsStream(y.s, y.c, n);
  }

  /** The client's state after it has taken S0S1, or S2. */
  function ClientTook(d: End, reply: seq<byte>, k: nat): End {
    if d.hs == WaitS0S1 then Send(Retrieve(d, PACKET + 1).(complex := true, hs := PostC2), reply, k)
    else Retrieve(d, PACKET).(hs := Done, context := InMessages)
  }

  lemma ClientTakes(
    h: Hmac, keys: Keys, y: Sys, n: nat, reply: seq<byte>, k: nat, cfill: seq<byte>, sfill: seq<byte>)
    requires |cfill| == |sfill| == PACKET + 1 && Inv(h, keys, y, cfill, sfill)
    requires y.c.got + n <= |y.s.sent| && |reply| == PACKET
    requires y.c.hs in {WaitS0S1, WaitS2} && |y.c.buf| + n >= Block(y.c.hs)
    ensures Inv(h, keys, y.(c := ClientTook(Deliver(y.s, y.c, n), reply, k)), cfill, sfill)
  {
    hide Signed;
    var d := Deliver(y.s, y.c, n);
    var c' := ClientTook(d, reply, k);
    DeliverKeepsStream(y.s, y.c, n);
    assert y.c.hs == WaitS0S1 ==> |y.s.sent| <= PACKET + 1;
    if y.c.hs == WaitS0S1 {
      RetrieveKeepsStream(y.s, d, PACKET + 1);
      SendGrows(Retrieve(d, PACKET + 1).(hs := PostC2), reply, k);
    } else {
      RetrieveKeepsStream(y.s, d, PACKET);
    }
    StreamGrows(y.c, c', y.s);
  }

  lemma GenuineS0S1(h: Hmac, keys: Keys, y: Sys, n: nat, cfill: seq<byte>, sfill: seq<byte>)
    requires |cfill| == |sfill| == PACKET + 1 && Inv(h, keys, y, cfill, sfill)
    requires y.c.hs == WaitS0S1 && y.c.got + n <= |y.s.sent| && |y.c.buf| + n >= PACKET + 1
    ensures
      var check := CheckC1S1(h, keys, true, true, Deliver(y.s, y.c, n).buf[..PACKET + 1]);
      check.Accepted? && check.complex
  {
    hide Signed, CheckC1S1;
    DeliverKeepsStream(y.s, y.c, n);
    assert Deliver(y.s, y.c, n).buf[..PACKET + 1] == y.s.c1s1;
    SelfVerifies(h, keys, false, sfill);
  }

  lemma ClientHears(h: Hmac, keys: Keys, y: Sys, n: nat, cfill: seq<byte>, sfill: seq<byte>)
    requires |cfill| == |sfill| == PACKET + 1 && Inv(h, keys, y, cfill, sfill)
    requires y.c.got + n <= |y.s.sent| && y.c.context == InMessages
    ensures Inv(h, keys, y.(c := Deliver(y.s, y.c, n)), cfill, sfill)
  {
    hide Signed;
    DeliverKeepsStream(y.s, y.c, n);
  }

  /** Bytes only ever reach a client that waits for them, or that has turned to messages. */
  lemma ClientExpects(h: Hmac, keys: Keys, y: Sys, n: nat, cfill: seq<byte>, sfill: seq<byte>)
    requires |cfill| == |sfill| == PACKET + 1 && Inv(h, keys, y, cfill, sfill)
    requires 0 < n && y.c.got + n <= |y.s.sent|
    ensures y.c.client && y.c.complex
    ensures y.c.context == InMessages || (y.c.hs in {WaitS0S1, WaitS2} && y.c.context == InHandShake)
  {
    PostIsQuiet(h, keys, y, cfill, sfill);
  }

  lemma ClientStep(h: Hmac, keys: Keys, e: End, data: seq<byte>, reply: seq<byte>, k: nat, stale: byte)
    requires e.hs in {WaitS0S1, WaitS2} && e.context == InHandShake && e.client && e.complex
    requires |e.c1s1| == PACKET + 1 && |reply| == PACKET && |e.buf + data| >= Block(e.hs)
    requires e.hs == WaitS0S1 ==>
      var check := CheckC1S1(h, keys, true, true, (e.buf + data)[..PACKET + 1]);
      check.Accepted? && check.complex
    ensures
      Receive(h, keys, e, data, reply, k, stale)
      == (ClientTook(e.(buf := e.buf + data, got := e.got + |data|), reply, k),
          if e.hs == WaitS2 then FINISHED else NEED_MORE)
    ensures ClientTook(e.(buf := e.buf + data, got := e.got + |data|), reply, k).context
      == if e.hs == WaitS2 then InMessages else InHandShake
  {
    hide CheckC1S1;
  }

  /** The client takes S0S1 and S2 likewise, unless a delivery stops one byte short of S0S1. */
  lemma ClientReceivesKeeps(
    h: Hmac, keys: Keys, y: Sys, n: nat, reply: seq<byte>, k: nat, stale: byte, cfill: seq<byte>, sfill: seq<byte>)
    requires |cfill| == |sfill| == PACKET + 1 && Inv(h, keys, y, cfill, sfill)
    requires Enabled(y, ClientReceives(n, reply, k, stale)) && |y.c.c1s1| == PACKET + 1
    ensures
      var (c', ret) := Receive(h, keys, y.c, y.s.sent[y.c.got..y.c.got + n], reply, k, stale);
      && Inv(h, keys, y.(c := c'), cfill, sfill)
      && ret == if c'.context == y.c.context then NEED_MORE else FINISHED
  {
    hide Inv, CheckC1S1, Signed, ClientTook;
    ClientExpects(h, keys, y, n, cfill, sfill);
    if y.c.context == InMessages {
      ClientHears(h, keys, y, n, cfill, sfill);
    } else if |y.c.buf| + n < PACKET {
      ClientWaits(h, keys, y, n, cfill, sfill);
    } else {
      hide Receive;
      if y.c.hs == WaitS0S1 {
        GenuineS0S1(h, keys, y, n, cfill, sfill);
      }
      ClientStep(h, keys, y.c, y.s.sent[y.c.got..y.c.got + n], reply, k, stale);
      ClientTakes(h, keys, y, n, reply, k, cfill, sfill);
    }
  }

  // ---------------------------------------------------------------------------------------------
  // Whole runs
  // ---------------------------------------------------------------------------------------------

  predicate Ready(y: Sys) {
    |y.c.c1s1| == |y.s.c1s1| == PACKET + 1
  }

  /** What is returned to the endpoint that receives bytes in a move. */
  function Returned(h: Hmac, keys: Keys, y: Sys, m: Move): int
    requires Enabled(y, m) && Ready(y)
  {
    match m
    case ClientReceives(n, reply, k, stale) =>
      Receive(h, keys, y.c, y.s.sent[y.c.got..y.c.got + n], reply, k, stale).1
    case ServerReceives(n, reply, k, stale) =>
      Receive(h, keys, y.s, y.c.sent[y.s.got..y.s.got + n], reply, k, stale).1
    case _ => NEED_MORE
  }

  lemma TalkKeepsSaid(e: End, data: seq<byte>)
    requires SaidAll(e)
    ensures SaidAll(Talk(e, data))
  {
    var e' := Talk(e, data);
    Assoc3(e.sent, e.unsent, data);
    assert (e.sent + e.unsent + data)[TOTAL..] == (e.sent + e.unsent)[TOTAL..] + data;
  }

  lemma ClientTalksKeeps(h: Hmac, keys: Keys, y: Sys, data: seq<byte>, cfill: seq<byte>, sfill: seq<byte>)
    requires |cfill| == |sfill| == PACKET + 1 && Inv(h, keys, y, cfill, sfill) && y.c.context == InMessages
    ensures Inv(h, keys, y.(c := Talk(y.c, data)), cfill, sfill)
  {
    hide Signed, SaidAll;
    TalkKeepsSaid(y.c, data);
    StreamGrows(y.c, Talk(y.c, data), y.s);
  }

  lemma ServerTalksKeeps(h: Hmac, keys: Keys, y: Sys, data: seq<byte>, cfill: seq<byte>, sfill: seq<byte>)
    requires |cfill| == |sfill| == PACKET + 1 && Inv(h, keys, y, cfill, sfill) && y.s.context == InMessages
    ensures Inv(h, keys, y.(s := Talk(y.s, data)), cfill, sfill)
  {
    hide Signed, SaidAll;
    TalkKeepsSaid(y.s, data);
    StreamGrows(y.s, Talk(y.s, data), y.c);
  }

  /** Every step keeps the invariant; no check fails, and the middle result 2 is never returned. */
  lemma NextKeeps(h: Hmac, keys: Keys, y: Sys, m: Move, cfill: seq<byte>, sfill: seq<byte>)
    requires |cfill| == |sfill| == PACKET + 1 && Inv(h, keys, y, cfill, sfill)
    requires Ready(y) && Enabled(y, m)
    ensures Inv(h, keys, Next(h, keys, y, m), cfill, sfill) && Ready(Next(h, keys, y, m))
    ensures Returned(h, keys, y, m) in {NEED_MORE, FINISHED}
  {
    hide Signed, Receive, Write;
    match m
    case ClientWrites(n) => ClientWritesKeeps(h, keys, y, n, cfill, sfill);
    case ServerWrites(n) => ServerWritesKeeps(h, keys, y, n, cfill, sfill);
    case ClientTalks(data) => ClientTalksKeeps(h, keys, y, data, cfill, sfill);
    case ServerTalks(data) => ServerTalksKeeps(h, keys, y, data, cfill, sfill);
    case ClientReceives(n, reply, k, stale) => ClientReceivesKeeps(h, keys, y, n, reply, k, stale, cfill, sfill);
    case ServerReceives(n, reply, k, stale) => ServerReceivesKeeps(h, keys, y, n, reply, k, stale, cfill, sfill);
  }

  /** Both sides speak messages now, and everything handed over has arrived. */
  predicate Settled(y: Sys) {
    && y.c.context == y.s.context == InMessages
    && y.c.unsent == y.s.unsent == []
    && y.c.got == |y.s.sent| && y.s.got == |y.c.sent|
  }

  /**
    An endpoint that has finished has consumed exactly 1537 and 1536 bytes, and has in its buffer, for the
    parser of messages, the message bytes of its peer from the first one on, as far as they have come.
   */
  predicate HandedOver(from: End, to: End) {
    to.context == InMessages ==> to.used == TOTAL && to.buf <= from.said
  }

  lemma FinishedExactly(h: Hmac, keys: Keys, y: Sys, cfill: seq<byte>, sfill: seq<byte>)
    requires |cfill| == |sfill| == PACKET + 1 && Inv(h, keys, y, cfill, sfill)
    ensures HandedOver(y.c, y.s) && HandedOver(y.s, y.c)
    ensures Settled(y) ==> y.s.buf == y.c.said && y.c.buf == y.s.said
  {
    hide Signed;
    if y.s.context == InMessages {
      MessagesOnly(y.c, y.s);
    }
    if y.c.context == InMessages {
      MessagesOnly(y.s, y.c);
    }
  }

  lemma MessagesOnly(from: End, to: End)
    requires Stream(from, to) && to.used == TOTAL
    requires SaidAll(from) || (|from.sent| <= TOTAL && from.said == [])
    ensures to.buf <= from.said
    ensures from.unsent == [] && to.got == |from.sent| ==> to.buf == from.said
  {
    if SaidAll(from) {
      Window(from.sent, from.unsent, TOTAL, to.got);
    }
  }

  lemma Window(a: seq<byte>, b: seq<byte>, from: nat, to: nat)
    requires from <= to <= |a|
    ensures a[from..to] <= (a + b)[from..]
    ensures b == [] && to == |a| ==> a[from..to] == (a + b)[from..]
  {
  }

  predicate IsTalk(m: Move) {
    m.ClientTalks? || m.ServerTalks?
  }

  /** Until everything has settled, some move of the handshake or the network is possible. */
  lemma Progress(h: Hmac, keys: Keys, y: Sys, cfill: seq<byte>, sfill: seq<byte>) returns (m: Move)
    requires |cfill| == |sfill| == PACKET + 1 && Inv(h, keys, y, cfill, sfill)
    ensures !Settled(y) ==> Enabled(y, m) && !IsTalk(m)
  {
    hide Signed;
    var reply: seq<byte> := seq(PACKET, _ => 0);
    if y.c.unsent != [] {
      m := ClientWrites(1);
    } else if y.s.unsent != [] {
      m := ServerWrites(1);
    } else if y.s.got < |y.c.sent| {
      m := ServerReceives(1, reply, 0, 0);
    } else {
      m := ClientReceives(|y.s.sent| - y.c.got, reply, 0, 0);
    }
  }

  function Weight(e: End): nat {
    2 * |e.sent| + |e.unsent|
  }

  /** Bytes still to be made up count three, bytes waiting for the socket two, bytes on their way one. */
  function Measure(y: Sys): int {
    6 * TOTAL - Weight(y.c) - y.s.got - Weight(y.s) - y.c.got
  }

  /** The measure falls below zero only by what the messages add. */
  lemma MeasureBounded(h: Hmac, keys: Keys, y: Sys, cfill: seq<byte>, sfill: seq<byte>)
    requires |cfill| == |sfill| == PACKET + 1 && Inv(h, keys, y, cfill, sfill)
    ensures Measure(y) + 3 * (|y.c.said| + |y.s.said|) >= 0
  {
    hide Signed;
  }

  /** Nothing received is forgotten, nothing sent taken back. */
  predicate Pays(e: End, e': End) {
    e'.got == e.got && Weight(e') >= Weight(e)
  }

  lemma SendPays(e: End, data: seq<byte>, k: nat)
    ensures Pays(e, Send(e, data, k))
  {
  }

  lemma HandShakePays(h: Hmac, keys: Keys, e: End, reply: seq<byte>, k: nat, stale: byte)
    requires |reply| == PACKET && |e.c1s1| == PACKET + 1
    ensures Pays(e, HandShake(h, keys, e, reply, k, stale).0)
  {
    hide CheckC1S1, Send;
    forall c, hs, n: nat, data ensures Pays(e, Send(Retrieve(e, n).(complex := c, hs := hs), data, k)) {
      SendPays(Retrieve(e, n).(complex := c, hs := hs), data, k);
    }
    SendPays(Retrieve(e, PACKET).(hs := PostS2), reply, k);
  }

  lemma ReceiveProgresses(h: Hmac, keys: Keys, e: End, data: seq<byte>, reply: seq<byte>, k: nat, stale: byte)
    requires |reply| == PACKET && |e.c1s1| == PACKET + 1
    ensures Pays(e.(got := e.got + |data|), Receive(h, keys, e, data, reply, k, stale).0)
  {
    hide HandShake;
    HandShakePays(h, keys, e.(buf := e.buf + data, got := e.got + |data|), reply, k, stale);
  }

  lemma WriteProgresses(e: End, n: nat)
    requires 0 < n <= |e.unsent|
    ensures Write(e, n).got == e.got && Weight(Write(e, n)) == Weight(e) + n
  {
    hide OnWriteComplete;
    var e' := e.(sent := e.sent + e.unsent[..n], unsent := e.unsent[n..]);
    CallbackMovesNothing(e');
  }

  lemma CallbackMovesNothing(e: End)
    ensures var e' := OnWriteComplete(e); e'.sent == e.sent && e'.unsent == e.unsent && e'.got == e.got
  {
  }

  /** Every move but talk takes the measure down, and talk does not take it up. */
  lemma MeasureDecreases(h: Hmac, keys: Keys, y: Sys, m: Move)
    requires Ready(y) && Enabled(y, m)
    ensures Measure(Next(h, keys, y, m)) + (if IsTalk(m) then 0 else 1) <= Measure(y)
  {
    hide Receive, Write;
    match m
    case ClientWrites(n) => WriteProgresses(y.c, n);
    case ServerWrites(n) => WriteProgresses(y.s, n);
    case ClientTalks(data) =>
    case ServerTalks(data) =>
    case ClientReceives(n, reply, k, stale) =>
      ReceiveProgresses(h, keys, y.c, y.s.sent[y.c.got..y.c.got + n], reply, k, stale);
    case ServerReceives(n, reply, k, stale) =>
      ReceiveProgresses(h, keys, y.s, y.c.sent[y.s.got..y.s.got + n], reply, k, stale);
  }

  /** The states of a run: each move is enabled where it is made. */
  ghost predicate IsRun(h: Hmac, keys: Keys, ys: seq<Sys>, ms: seq<Move>) {
    && |ys| == |ms| + 1
    && forall i :: 0 <= i < |ms| ==> Ready(ys[i]) && Enabled(ys[i], ms[i]) && ys[i + 1] == Next(h, keys, ys[i], ms[i])
  }

  /** The moves of a run that are not talk. */
  function Steps(ms: seq<Move>): nat {
    if |ms| == 0 then 0 else Steps(ms[..|ms| - 1]) + if IsTalk(ms[|ms| - 1]) then 0 else 1
  }

  lemma {:induction false} RunKeeps(
    h: Hmac, keys: Keys, ys: seq<Sys>, ms: seq<Move>, n: nat, cfill: seq<byte>, sfill: seq<byte>)
    requires |cfill| == |sfill| == PACKET + 1 && IsRun(h, keys, ys, ms) && n < |ys|
    requires Inv(h, keys, ys[0], cfill, sfill)
    ensures Inv(h, keys, ys[n], cfill, sfill) && Measure(ys[n]) + Steps(ms[..n]) <= Measure(ys[0])
  {
    hide Inv, Next, Enabled, Measure;
    if n > 0 {
      RunKeeps(h, keys, ys, ms, n - 1, cfill, sfill);
      NextKeeps(h, keys, ys[n - 1], ms[n - 1], cfill, sfill);
      MeasureDecreases(h, keys, ys[n - 1], ms[n - 1]);
      assert ms[..n][..n - 1] == ms[..n - 1];
    }
  }

  /** What holds at every moment of every run. */
  ghost predicate Safe(y: Sys) {
    && y.c.context != WaitingDone && y.s.context != WaitingDone
    && Stream(y.c, y.s) && Stream(y.s, y.c)
    && (y.c.context == InMessages ==> SaidAll(y.c)) && (y.s.context == InMessages ==> SaidAll(y.s))
    && (y.c.hs in {PostC0C1, PostC2} ==> InFlight(y.s, y.c) == y.c.buf == [])
    && (StillPosting(y.s) ==> InFlight(y.c, y.s) == y.s.buf == [])
    && HandedOver(y.c, y.s) && HandedOver(y.s, y.c)
  }

  /**
    Every run of two endpoints, however the streams are cut, whatever the random bytes and the HMAC, and
    whatever messages follow: no check fails and the waiting-done state is never entered; an endpoint
    still sending a block has nothing to receive; each consumes exactly 1537 and 1536 bytes and keeps the
    peer's message bytes for the parser; besides the messages themselves there are at most 18438 moves,
    and three more per byte of a message; and where only talk is left, both have everything.
   */
  lemma EveryRun(h: Hmac, keys: Keys, ys: seq<Sys>, ms: seq<Move>, cfill: seq<byte>, sfill: seq<byte>, k: nat)
    requires |cfill| == |sfill| == PACKET + 1 && IsRun(h, keys, ys, ms)
    requires ys[0] == Init(h, keys, cfill, sfill, k)
    ensures Steps(ms) <= 6 * TOTAL + 3 * (|ys[|ms|].c.said| + |ys[|ms|].s.said|)
    ensures forall i {:trigger ms[i]} :: 0 <= i < |ms| ==> Returned(h, keys, ys[i], ms[i]) in {NEED_MORE, FINISHED}
    ensures forall y :: y in ys ==> Safe(y)
    ensures
      var y := ys[|ms|];
      (forall m :: Enabled(y, m) ==> IsTalk(m)) ==> Settled(y) && y.s.buf == y.c.said && y.c.buf == y.s.said
  {
    hide Signed, Next, Returned;
    InitOk(h, keys, cfill, sfill, k);
    var last := |ms|;
    RunKeeps(h, keys, ys, ms, last, cfill, sfill);
    assert ms[..last] == ms;
    MeasureBounded(h, keys, ys[last], cfill, sfill);
    FinishedExactly(h, keys, ys[last], cfill, sfill);
    var m := Progress(h, keys, ys[last], cfill, sfill);
    assert !Settled(ys[last]) ==> Enabled(ys[last], m);
    hide Init, Enabled, Inv, Measure, Safe;
    forall i | 0 <= i < |ms| ensures Returned(h, keys, ys[i], ms[i]) in {NEED_MORE, FINISHED} {
      RunKeeps(h, keys, ys, ms, i, cfill, sfill);
      NextKeeps(h, keys, ys[i], ms[i], cfill, sfill);
    }
    forall y | y in ys ensures Safe(y) {
      var i :| 0 <= i < |ys| && ys[i] == y;
      RunKeeps(h, keys, ys, ms, i, cfill, sfill);
      InvIsSafe(h, keys, y, cfill, sfill);
    }
  }

  lemma InvIsSafe(h: Hmac, keys: Keys, y: Sys, cfill: seq<byte>, sfill: seq<byte>)
    requires |cfill| == |sfill| == PACKET + 1 && Inv(h, keys, y, cfill, sfill)
    ensures Safe(y)
  {
    PostIsQuiet(h, keys, y, cfill, sfill);
    FinishedExactly(h, keys, y, cfill, sfill);
    InContexts(h, keys, y, cfill, sfill);
    hide Inv, HandedOver, SaidAll;
  }

  lemma InContexts(h: Hmac, keys: Keys, y: Sys, cfill: seq<byte>, sfill: seq<byte>)
    requires |cfill| == |sfill| == PACKET + 1 && Inv(h, keys, y, cfill, sfill)
    ensures y.c.context != WaitingDone && y.s.context != WaitingDone
    ensures Stream(y.c, y.s) && Stream(y.s, y.c)
    ensures (y.c.context == InMessages ==> SaidAll(y.c)) && (y.s.context == InMessages ==> SaidAll(y.s))
  {
    hide Signed;
  }

  /**
    Why `Enabled` excludes it: a client that holds any part of a genuine S0S1 either waits or takes all
    1537 bytes of it exactly when it does not hold 1536 of them. With 1536 it rejects the block or
    leaves its last byte behind as the first of S2, whatever byte lies beyond the buffer.
   */
  lemma ShortTest(h: Hmac, keys: Keys, e: End, sfill: seq<byte>, reply: seq<byte>, k: nat, stale: byte)
    requires |sfill| == PACKET + 1 && |reply| == PACKET && |e.c1s1| == PACKET + 1
    requires e.client && e.complex && e.context == InHandShake && e.hs == WaitS0S1
    requires e.buf <= Signed(h, keys, false, sfill)
    ensures
      var (e', ret) := HandShake(h, keys, e, reply, k, stale);
      |e.buf| != PACKET <==>
        ret == NEED_MORE && (e' == e || (e'.used == e.used + PACKET + 1 && e'.buf == [] && e'.hs in {PostC2, WaitS2}))
  {
    hide Signed, CheckC1S1;
    if |e.buf| == PACKET + 1 {
      assert Looked(e.buf, stale) == Signed(h, keys, false, sfill);
      SelfVerifies(h, keys, false, sfill);
    }
  }

  /**
    Which first blocks end the handshake: those without the version byte, and, where digests are asked for
    and the version is not zero, those whose digest fits neither place. Nothing is consumed then; any other
    block is taken off the buffer whole.
   */
  lemma RefusesIff(h: Hmac, keys: Keys, e: End, reply: seq<byte>, k: nat, stale: byte)
    requires |reply| == PACKET && |e.c1s1| == PACKET + 1 && e.complex
    requires e.hs in {WaitC0C1, WaitS0S1} && |e.buf| >= 1537
    ensures
      var (e', ret) := HandShake(h, keys, e, reply, k, stale);
      var block, key := e.buf[1..1537], if e.client then keys.server else keys.player;
      && (ret == FAILED <==>
            || e.buf[0] != 3
            || (e.buf[5..9] != [0, 0, 0, 0]
                && !FitsAt(h, key, block, FirstPlace(block)) && !FitsAt(h, key, block, SecondPlace(block))))
      && (if ret == FAILED then e' == e else e'.used == e.used + 1537 && e'.buf == e.buf[1537..])
  {
    hide CheckC1S1, FitsAt, FirstPlace, SecondPlace;
    var data := e.buf[..1537];
    assert data[0] == e.buf[0] && data[1..] == e.buf[1..1537] && data[5..9] == e.buf[5..9];
    if data[0] != 3 || data[5..9] == [0, 0, 0, 0] {
      SimpleCheckIff(h, keys, e.client, true, data);
    } else {
      ComplexCheckIff(h, keys, e.client, data);
    }
    TakesAll(h, keys, e, reply, k, stale);
  }

  lemma TakesAll(h: Hmac, keys: Keys, e: End, reply: seq<byte>, k: nat, stale: byte)
    requires |reply| == PACKET && |e.c1s1| == PACKET + 1
    requires e.hs in {WaitC0C1, WaitS0S1} && |e.buf| >= 1537
    ensures
      var (e', ret) := HandShake(h, keys, e, reply, k, stale);
      && (ret == FAILED <==> CheckC1S1(h, keys, e.client, e.complex, e.buf[..1537]).Rejected?)
      && (if ret == FAILED then e' == e else e'.used == e.used + 1537 && e'.buf == e.buf[1537..])
  {
    hide CheckC1S1;
  }
}
