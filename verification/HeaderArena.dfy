/**
  The 4096-byte arena that the chunk headers of a batch are written to: how much a message takes of it,
  and what becomes of a message for which it is too small.
 */
module HeaderArena {
  import opened Bytes
  import opened ChunkWriter
  import opened Sequences
  import Arithmetic

  const ARENA_SIZE: nat := 4096

  /** Arena bytes that the headers after the first take, for `n` body bytes still to go. */
  function NextBytes(n: nat, c: nat, h: nat): nat
    requires c > 0
    decreases n
  {
    if n <= c then 0 else h + NextBytes(n - c, c, h)
  }

  function HeaderBytes(o: OutLane, j: Job, c: nat): nat
    requires c > 0 && |j.msg.body| < TWO32
  {
    |FirstHeader(o, j)| + NextBytes(|j.msg.body|, c, |NextHeader(j.msg.csid, Field(o, j))|)
  }

  lemma {:induction false} NextBytesMonotone(n: nat, c: nat, h: nat, h': nat)
    requires c > 0 && h <= h'
    ensures NextBytes(n, c, h) <= NextBytes(n, c, h')
    decreases n
  {
    if n > c {
      NextBytesMonotone(n - c, c, h, h');
    }
  }

  /** How building one message's headers in the arena can end. */
  datatype ArenaOutcome =
    | Room(position: nat) // every header written, next free position
    | Truncated           // the "no enough out header buffer" exit, body cut short
    | Overrun             // a header written past the end

  /** The body loop's use of the arena, for `n` bytes to go and headers of `h` bytes. */
  function NextHeaders(position: nat, n: nat, c: nat, h: nat): ArenaOutcome
    requires c > 0
    decreases n
  {
    if n <= c then Room(position)
    else if position >= ARENA_SIZE then Truncated
    else if position + h > ARENA_SIZE then Overrun
    else NextHeaders(position + h, n - c, c, h)
  }

  function Headers(position: nat, o: OutLane, j: Job, c: nat): ArenaOutcome
    requires c > 0 && |j.msg.body| < TWO32
  {
    var first := |FirstHeader(o, j)|;
    if position + first > ARENA_SIZE then Overrun
    else NextHeaders(position + first, |j.msg.body|, c, |NextHeader(j.msg.csid, Field(o, j))|)
  }

  lemma {:induction false} NextHeadersIff(position: nat, n: nat, c: nat, h: nat)
    requires c > 0 && h > 0 && position <= ARENA_SIZE
    ensures
      NextHeaders(position, n, c, h).Room? <==> position + NextBytes(n, c, h) <= ARENA_SIZE
    ensures
      NextHeaders(position, n, c, h).Room? ==> NextHeaders(position, n, c, h).position == position + NextBytes(n, c, h)
    decreases n
  {
    if n > c && position + h <= ARENA_SIZE {
      NextHeadersIff(position + h, n - c, c, h);
    }
  }

  /**
    A message is built whole, inside the arena, if and only if its header bytes fit in what is left:
    then neither the truncating exit nor a write past the end happens.
   */
  lemma ArenaIff(position: nat, o: OutLane, j: Job, c: nat)
    requires c > 0 && |j.msg.body| < TWO32 && position <= ARENA_SIZE
    ensures Headers(position, o, j, c).Room? <==> position + HeaderBytes(o, j, c) <= ARENA_SIZE
    ensures Headers(position, o, j, c).Room? ==> Headers(position, o, j, c).position == position + HeaderBytes(o, j, c)
  {
    var first := |FirstHeader(o, j)|;
    if position + first <= ARENA_SIZE {
      NextHeadersIff(position + first, |j.msg.body|, c, |NextHeader(j.msg.csid, Field(o, j))|);
    }
  }

  /** The header bytes after the first header, in closed form: one header per further chunk. */
  lemma {:induction false} NextBytesClosed(n: nat, c: nat, h: nat)
    requires c > 0 && n > 0
    ensures NextBytes(n, c, h) == h * ((n - 1) / c)
    decreases n
  {
    if n > c {
      NextBytesClosed(n - c, c, h);
      assert (n - 1) / c == (n - c - 1) / c + 1 by { Arithmetic.DivStep(n - 1, c); }
      assert h * ((n - c - 1) / c + 1) == h * ((n - c - 1) / c) + h;
    } else {
      assert (n - 1) / c == 0 by { DivSmall(n - 1, c); }
    }
  }

  lemma DivSmall(a: nat, c: nat)
    requires a < c
    ensures a / c == 0
  {
  }

  // ---------------------------------------------------------------------------------------------
  // What is staged
  // ---------------------------------------------------------------------------------------------

  /** Where the arena's free part starts afterwards: the loop's own exit is taken at the very end of it. */
  function FreeFrom(outcome: ArenaOutcome): nat
    requires !outcome.Overrun?
  {
    if outcome.Room? then outcome.position else ARENA_SIZE
  }

  /** The body in pieces with headers between them, cut short where the arena is used up. */
  function ChunksWithin(position: nat, body: seq<byte>, c: nat, next: seq<byte>): seq<byte>
    requires c > 0
    decreases |body|
  {
    if |body| <= c then body
    else if position >= ARENA_SIZE then body[..c]
    else body[..c] + next + ChunksWithin(position + |next|, body[c..], c, next)
  }

  /** A message as it is staged when the arena is free from `position` on. */
  function EncodeWithin(position: nat, o: OutLane, j: Job, c: nat): seq<byte>
    requires c > 0 && |j.msg.body| < TWO32
  {
    var first := FirstHeader(o, j);
    first + ChunksWithin(position + |first|, j.msg.body, c, NextHeader(j.msg.csid, Field(o, j)))
  }

  lemma {:induction false} ChunksWithinIs(position: nat, body: seq<byte>, c: nat, next: seq<byte>)
    requires c > 0 && |next| > 0 && !NextHeaders(position, |body|, c, |next|).Overrun?
    ensures
      var staged := ChunksWithin(position, body, c, next);
      if NextHeaders(position, |body|, c, |next|).Room? then staged == Chunks(body, c, next)
      else staged < Chunks(body, c, next)
    decreases |body|
  {
    if |body| > c {
      var rest := Chunks(body[c..], c, next);
      if position >= ARENA_SIZE {
        Assoc3(body[..c], next, rest);
        PrefixOf(body[..c], next + rest);
      } else {
        ChunksWithinIs(position + |next|, body[c..], c, next);
        Prefixed(body[..c] + next, ChunksWithin(position + |next|, body[c..], c, next), rest);
      }
    }
  }

  lemma PrefixOf<T>(a: seq<T>, b: seq<T>)
    ensures a <= a + b && (|b| > 0 ==> a < a + b)
  {
  }

  lemma Prefixed<T>(a: seq<T>, b: seq<T>, c: seq<T>)
    ensures b < c ==> a + b < a + c
  {
    if b < c {
      assert a + c == a + b + c[|b|..];
    }
  }

  /**
    A message is staged whole if and only if its headers fit; where the loop takes its exit instead, a
    proper prefix of the message is staged, and the rest never sent.
   */
  lemma EncodeWithinIs(position: nat, o: OutLane, j: Job, c: nat)
    requires c > 0 && |j.msg.body| < TWO32 && !Headers(position, o, j, c).Overrun?
    ensures
      if Headers(position, o, j, c).Room? then EncodeWithin(position, o, j, c) == Encode(o, j, c)
      else EncodeWithin(position, o, j, c) < Encode(o, j, c)
  {
    var first := FirstHeader(o, j);
    var next := NextHeader(j.msg.csid, Field(o, j));
    ChunksWithinIs(position + |first|, j.msg.body, c, next);
    hide FirstHeader, NextHeader, Chunks, ChunksWithin, NextHeaders;
    Prefixed(first, ChunksWithin(position + |first|, j.msg.body, c, next), Chunks(j.msg.body, c, next));
  }
}
