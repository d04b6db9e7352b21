/** Wire images worked out by hand from the chunk format of RTMP and from AMF0, byte by byte. */
module Samples {
  import opened Bytes
  import opened ChunkFormat
  import opened ChunkTheorems
  import opened ChunkWriter
  import opened Doubles
  import opened Wrappers
  import Amf
  import Session

  /** The image of a message of one chunk, under the history of its stream, without an extended timestamp. */
  lemma OneChunkImage(o: OutLane, j: Job, c: nat)
    requires 0 < |j.msg.body| <= c && |j.msg.body| < TWO32 && Field(o, j) < EXTENDED
    ensures
      Encode(o, j, c)
      == BasicHeader(PickFmt(o, j), j.msg.csid) + MessageHeader(PickFmt(o, j), Field(o, j), j.msg) + j.msg.body
  {
    hide BasicHeader, MessageHeader, PickFmt, Field;
    var head := BasicHeader(PickFmt(o, j), j.msg.csid) + MessageHeader(PickFmt(o, j), Field(o, j), j.msg);
    assert head + [] == head;
  }

  /** The first message a client sends: 4096 as the chunk size, on chunk stream 2. */
  lemma ChunkSizeImage(c: nat)
    requires c >= 4
    ensures
      Encode(FRESH_OUT, SetChunkSize(4096), c) ==
      [0x02] + [0x00, 0x00, 0x00] + [0x00, 0x00, 0x04] + [0x01] + [0x00, 0x00, 0x00, 0x00] + [0x00, 0x00, 0x10, 0x00]
  {
    OneChunkImage(FRESH_OUT, SetChunkSize(4096), c);
  }

  /** Video on chunk stream 6 of message stream 1. */
  function Video(timestamp: uint32, body: seq<byte>): Job {
    Job(Message(6, 9, 1, timestamp, body), false)
  }

  function Before(timestamp: uint32, length: uint32, delta: uint32): OutLane {
    OutLane(Some(Header(6, timestamp, length, 9, 1)), delta)
  }

  /** A full header: the timestamp itself, and the message stream id with its low byte first. */
  lemma FullImage()
    ensures Encode(FRESH_OUT, Video(1000, [0xAA, 0xBB]), 4096) ==
      [0x06] + [0x00, 0x03, 0xE8] + [0x00, 0x00, 0x02] + [0x09] + [0x01, 0x00, 0x00, 0x00] + [0xAA, 0xBB]
    ensures LaneAfter(FRESH_OUT, Video(1000, [0xAA, 0xBB])) == Before(1000, 2, 0)
  {
    OneChunkImage(FRESH_OUT, Video(1000, [0xAA, 0xBB]), 4096);
    hide Encode;
  }

  /** The difference alone. */
  lemma DifferenceImage()
    ensures Encode(Before(1000, 2, 0), Video(1040, [0xCC, 0xDD]), 4096) == [0x86] + [0x00, 0x00, 0x28] + [0xCC, 0xDD]
    ensures LaneAfter(Before(1000, 2, 0), Video(1040, [0xCC, 0xDD])) == Before(1040, 2, 40)
  {
    OneChunkImage(Before(1000, 2, 0), Video(1040, [0xCC, 0xDD]), 4096);
    hide Encode;
  }

  /** Nothing at all, as the difference repeats. */
  lemma RepeatImage()
    ensures Encode(Before(1040, 2, 40), Video(1080, [0xEE, 0xFF]), 4096) == [0xC6] + [0xEE, 0xFF]
    ensures LaneAfter(Before(1040, 2, 40), Video(1080, [0xEE, 0xFF])) == Before(1080, 2, 40)
  {
    OneChunkImage(Before(1040, 2, 40), Video(1080, [0xEE, 0xFF]), 4096);
    hide Encode;
  }

  /** A new length, and the difference. */
  lemma LengthImage()
    ensures Encode(Before(1080, 2, 40), Video(1100, [0x11]), 4096) ==
      [0x46] + [0x00, 0x00, 0x14] + [0x00, 0x00, 0x01] + [0x09] + [0x11]
    ensures LaneAfter(Before(1080, 2, 40), Video(1100, [0x11])) == Before(1100, 1, 20)
  {
    OneChunkImage(Before(1080, 2, 40), Video(1100, [0x11]), 4096);
    hide Encode;
  }

  /** Four messages in a row, at 1000, 1040, 1080 and 1100 ms, which take the four formats 0, 2, 3 and 1. */
  lemma FourFormats()
    ensures
      var two := [Video(1000, [0xAA, 0xBB]), Video(1040, [0xCC, 0xDD])];
      EncodeAll(map[], two + [Video(1080, [0xEE, 0xFF]), Video(1100, [0x11])], 4096) ==
      [0x06] + [0x00, 0x03, 0xE8] + [0x00, 0x00, 0x02] + [0x09] + [0x01, 0x00, 0x00, 0x00] + [0xAA, 0xBB]
      + ([0x86] + [0x00, 0x00, 0x28] + [0xCC, 0xDD]
      + ([0xC6] + [0xEE, 0xFF]
      + ([0x46] + [0x00, 0x00, 0x14] + [0x00, 0x00, 0x01] + [0x09] + [0x11])))
  {
    FullImage();
    DifferenceImage();
    RepeatImage();
    LengthImage();
    hide Encode, LaneAfter;
    var a, b := Video(1000, [0xAA, 0xBB]), Video(1040, [0xCC, 0xDD]);
    var c, d := Video(1080, [0xEE, 0xFF]), Video(1100, [0x11]);
    assert [a, b] + [c, d] == [a, b, c, d];
    FourEncoded(a, b, c, d, 4096);
  }

  lemma PlainHead()
    ensures FirstHeader(FRESH_OUT, Video(1000, [1, 2, 3, 4, 5])) ==
      [0x06] + [0x00, 0x03, 0xE8] + [0x00, 0x00, 0x05] + [0x09] + [0x01, 0x00, 0x00, 0x00]
    ensures NextHeader(6, 1000) == [0xC6]
  {
  }

  lemma ExtendedHead()
    ensures FirstHeader(FRESH_OUT, Video(0x1020304, [1, 2, 3])) ==
      [0x06] + [0xFF, 0xFF, 0xFF] + [0x00, 0x00, 0x03] + [0x09] + [0x01, 0x00, 0x00, 0x00] + [0x04, 0x03, 0x02, 0x01]
    ensures NextHeader(6, 0x1020304) == [0xC6] + [0x04, 0x03, 0x02, 0x01]
  {
  }

  /** A body in three chunks. */
  lemma ChunksImage()
    ensures Encode(FRESH_OUT, Video(1000, [1, 2, 3, 4, 5]), 2) ==
      [0x06] + [0x00, 0x03, 0xE8] + [0x00, 0x00, 0x05] + [0x09] + [0x01, 0x00, 0x00, 0x00]
      + ([1, 2] + [0xC6] + ([3, 4] + [0xC6] + [5]))
  {
    var body: seq<byte> := [1, 2, 3, 4, 5];
    assert body[2..] == [3, 4, 5] && body[2..][2..] == [5] && body[..2] == [1, 2] && body[2..][..2] == [3, 4];
    ThreeChunks(body, 2, NextHeader(6, 1000));
    PlainHead();
    hide Chunks, FirstHeader, NextHeader;
  }

  /** A timestamp that needs the extension is repeated, low byte first, in every chunk. */
  lemma ExtendedImage()
    ensures Encode(FRESH_OUT, Video(0x1020304, [1, 2, 3]), 2) ==
      [0x06] + [0xFF, 0xFF, 0xFF] + [0x00, 0x00, 0x03] + [0x09] + [0x01, 0x00, 0x00, 0x00] + [0x04, 0x03, 0x02, 0x01]
      + ([1, 2] + ([0xC6] + [0x04, 0x03, 0x02, 0x01]) + [3])
  {
    var short: seq<byte> := [1, 2, 3];
    assert short[2..] == [3] && short[..2] == [1, 2];
    TwoChunks(short, 2, NextHeader(6, 0x1020304));
    ExtendedHead();
    hide Chunks, FirstHeader, NextHeader;
  }

  lemma TwoChunks(body: seq<byte>, c: nat, next: seq<byte>)
    requires 0 < c < |body| <= 2 * c
    ensures Chunks(body, c, next) == body[..c] + next + body[c..]
  {
  }

  lemma ThreeChunks(body: seq<byte>, c: nat, next: seq<byte>)
    requires 0 < 2 * c < |body| <= 3 * c
    ensures Chunks(body, c, next) == body[..c] + next + (body[c..][..c] + next + body[c..][c..])
  {
    TwoChunks(body[c..], c, next);
  }

  /** The three forms of the basic header; the id of the long form has its low byte first. */
  lemma BasicImages()
    ensures BasicHeader(3, 63) == [0xFF]
    ensures BasicHeader(1, 64) == [0x40, 0x00] && BasicHeader(1, 319) == [0x40, 0xFF]
    ensures BasicHeader(2, 320) == [0x81, 0x00, 0x01] && BasicHeader(0, 65599) == [0x01, 0xFF, 0xFF]
  {
    assert Copy16(256) == [0x00, 0x01] && Copy16(65535) == [0xFF, 0xFF];
  }

  /**
    What the server answers to a connect command: a window of 2500000, the same as the peer's bandwidth,
    limited dynamically, 4096 as the chunk size, and the result on chunk stream 3.
   */
  lemma ServerGreetingImage(result: seq<byte>)
    requires 0 < |result| < 0x100
    ensures EncodeAll(map[], Session.ServerGreeting(result), 4096) ==
      [0x02, 0, 0, 0, 0, 0, 4, 5, 0, 0, 0, 0] + [0x00, 0x26, 0x25, 0xA0]
      + ([0x42, 0, 0, 0, 0, 0, 5, 6] + [0x00, 0x26, 0x25, 0xA0, 0x02]
      + ([0x42, 0, 0, 0, 0, 0, 4, 1] + [0x00, 0x00, 0x10, 0x00]
      + ([0x03, 0, 0, 0, 0, 0, |result|, 20, 0, 0, 0, 0] + result)))
  {
    var jobs := Session.ServerGreeting(result);
    ControlImages(result);
    Numbers();
    hide Encode, EncodeAll, LaneAfter, Session.ServerGreeting, Write32;
    assert jobs == [jobs[0], jobs[1], jobs[2], jobs[3]];
    FourEncoded(jobs[0], jobs[1], jobs[2], jobs[3], 4096);
  }

  lemma Numbers()
    ensures Write32(2500000) == [0x00, 0x26, 0x25, 0xA0] && Write32(4096) == [0x00, 0x00, 0x10, 0x00]
  {
  }

  /** The four messages one by one. */
  lemma ControlImages(result: seq<byte>)
    requires 0 < |result| < 0x100
    ensures
      var jobs := Session.ServerGreeting(result);
      var o1 := LaneAfter(FRESH_OUT, jobs[0]);
      var o2 := LaneAfter(o1, jobs[1]);
      && |jobs| == 4 && jobs[0].msg.csid == jobs[1].msg.csid == jobs[2].msg.csid == 2 && jobs[3].msg.csid == 3
      && (forall i :: 0 <= i < 4 ==> |jobs[i].msg.body| < TWO32)
      && Encode(FRESH_OUT, jobs[0], 4096) == [0x02, 0, 0, 0, 0, 0, 4, 5, 0, 0, 0, 0] + Write32(2500000)
      && Encode(o1, jobs[1], 4096) == [0x42, 0, 0, 0, 0, 0, 5, 6] + (Write32(2500000) + [0x02])
      && Encode(o2, jobs[2], 4096) == [0x42, 0, 0, 0, 0, 0, 4, 1] + Write32(4096)
      && Encode(FRESH_OUT, jobs[3], 4096) == [0x03, 0, 0, 0, 0, 0, |result|, 20, 0, 0, 0, 0] + result
  {
    var jobs := Session.ServerGreeting(result);
    var o1 := LaneAfter(FRESH_OUT, jobs[0]);
    var o2 := LaneAfter(o1, jobs[1]);
    OneChunkImage(FRESH_OUT, jobs[0], 4096);
    OneChunkImage(o1, jobs[1], 4096);
    OneChunkImage(o2, jobs[2], 4096);
    OneChunkImage(FRESH_OUT, jobs[3], 4096);
    hide Encode;
  }

  /** Four messages, three of them on one chunk stream. */
  lemma FourEncoded(a: Job, b: Job, c: Job, d: Job, k: nat)
    requires k > 0 && a.msg.csid == b.msg.csid == c.msg.csid
    requires |a.msg.body| < TWO32 && |b.msg.body| < TWO32 && |c.msg.body| < TWO32 && |d.msg.body| < TWO32
    ensures
      var o1 := LaneAfter(FRESH_OUT, a);
      var o2 := LaneAfter(o1, b);
      var last := if d.msg.csid == c.msg.csid then LaneAfter(o2, c) else FRESH_OUT;
      EncodeAll(map[], [a, b, c, d], k)
      == Encode(FRESH_OUT, a, k) + (Encode(o1, b, k) + (Encode(o2, c, k) + Encode(last, d, k)))
  {
    hide Encode, LaneAfter;
    var out1 := After(map[], a);
    var out2 := After(out1, b);
    var out3 := After(out2, c);
    assert [a, b, c, d][1..] == [b, c, d] && [b, c, d][1..] == [c, d] && [c, d][1..] == [d] && [d][1..] == [];
    var last := OutLaneOf(out3, d.msg.csid);
    assert EncodeAll(out3, [d], k) == Encode(last, d, k) + [];
    assert EncodeAll(out2, [c, d], k) == Encode(OutLaneOf(out2, c.msg.csid), c, k) + EncodeAll(out3, [d], k);
    assert EncodeAll(out1, [b, c, d], k) == Encode(OutLaneOf(out1, b.msg.csid), b, k) + EncodeAll(out2, [c, d], k);
  }

  // ---------------------------------------------------------------------------------------------
  // AMF0
  // ---------------------------------------------------------------------------------------------

  /** One value of each kind that is no container. */
  lemma ScalarImages()
    ensures Amf.Encode(Amf.Null) == [0x05] && Amf.Encode(Amf.Boolean(true)) == [0x01, 0x01]
    ensures Amf.Encode(Amf.Number(0x3FF0_0000_0000_0000)) == [0x00] + [0x3F, 0xF0, 0, 0, 0, 0, 0, 0]
    ensures Amf.Encode(Amf.Text([0x61, 0x62])) == [0x02] + [0x00, 0x02] + [0x61, 0x62]
    ensures Amf.Encode(Amf.LongText([0x61])) == [0x0C] + [0x00, 0x00, 0x00, 0x01] + [0x61]
    ensures Amf.Encode(Amf.Date(0x4000_0000_0000_0001, 60)) == [0x0B] + [0x40, 0, 0, 0, 0, 0, 0, 1] + [0x00, 0x3C]
  {
    assert Write32(0x3FF0_0000) == [0x3F, 0xF0, 0, 0] && Write32(0x4000_0000) == [0x40, 0, 0, 0];
    assert Write32(0) == [0, 0, 0, 0] && Write32(1) == [0, 0, 0, 1];
  }

  /** An object with a boolean and a null in it, and the same as an ECMA array. */
  lemma ContainerImages()
    ensures
      var ps := [Amf.Property([0x61], Amf.Boolean(true)), Amf.Property([0x62], Amf.Null)];
      var body := [0x00, 0x01, 0x61] + [0x01, 0x01] + ([0x00, 0x01, 0x62] + [0x05]) + [0x00, 0x00, 0x09];
      && Amf.Encode(Amf.Object(ps)) == [0x03] + body
      && Amf.Encode(Amf.EcmaArray(2, ps)) == [0x08] + ([0x00, 0x00, 0x00, 0x02] + body)
  {
    var ps := [Amf.Property([0x61], Amf.Boolean(true)), Amf.Property([0x62], Amf.Null)];
    assert Amf.Sized16([0x61]) == [0x00, 0x01, 0x61] && Amf.Sized16([0x62]) == [0x00, 0x01, 0x62];
    assert Write32(2) == [0, 0, 0, 2];
    assert ps[1..] == [ps[1]] && ps[1..][1..] == [];
    assert Amf.EncodeProps(ps[1..]) == [0x00, 0x01, 0x62] + [0x05];
    assert Amf.EncodeProps(ps) == [0x00, 0x01, 0x61] + [0x01, 0x01] + ([0x00, 0x01, 0x62] + [0x05]);
    hide Amf.EncodeProps;
  }

  lemma Places()
    ensures Log2(1) == 0 && Log2(31) == 4 && Pow2(0) == 1 && Pow2(4) == 16
  {
  }

  lemma HigherPlaces()
    ensures Log2(252) == 7 && Pow2(7) == 128
  {
    hide Pow2;
    assert Pow2(7) == 128 by { PowersUpTo10(); }
  }

  lemma HighestPlace()
    ensures Log2(1639) == 10 && Pow2(10) == 1024
  {
    hide Pow2;
    assert Pow2(10) == 1024 by { PowersUpTo10(); }
  }

  lemma PowersUpTo10()
    ensures Pow2(7) == 128 && Pow2(10) == 1024
  {
  }

  lemma Shifts()
    ensures Pow2(48) == TWO52 / 16 && Pow2(45) == TWO52 / 128 && Pow2(42) == TWO52 / 1024
  {
    Places();
    HigherPlaces();
    HighestPlace();
    SmallPowers();
    hide Pow2;
    PowSum(4, 48);
    PowSum(7, 45);
    PowSum(10, 42);
  }

  /** The doubles of the numbers in a connect command, in the format of IEEE 754. */
  lemma DoubleImages()
    ensures Double(1) == 0x3FF0_0000_0000_0000 && Double(31) == 0x403F_0000_0000_0000
    ensures Double(252) == 0x406F_8000_0000_0000 && Double(1639) == 0x4099_9C00_0000_0000
  {
    Places();
    HigherPlaces();
    HighestPlace();
    Shifts();
    hide Pow2, Log2;
  }
}
