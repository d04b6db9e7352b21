/** `MsgBuffer`: a growing byte buffer with room kept in front, used as one sequence of bytes. */
module MsgBuffers {
  import opened Bytes

  const BUFFER_OFFSET: nat := 8
  const EXTRA_READ: nat := 8192

  lemma Joined(b: array<byte>, i: nat, j: nat, k: nat)
    requires i <= j <= k <= b.Length
    ensures b[i..k] == b[i..j] + b[j..k]
  {
  }

  class MsgBuffer {
    var head: nat
    var initCap: nat
    var buffer: array<byte>
    var tail: nat

    /** The cursors lie in the buffer, which is always eight bytes longer than its nominal capacity. */
    ghost predicate Sane()
      reads this
    {
      head <= tail <= buffer.Length && buffer.Length == initCap + BUFFER_OFFSET
    }

    /** Below eight bytes of capacity the shrink in `RetrieveAll` would cut the buffer short. */
    ghost predicate Valid()
      reads this
    {
      Sane() && initCap >= BUFFER_OFFSET
    }

    ghost function Contents(): seq<byte>
      requires Sane()
      reads this, buffer
    {
      buffer[head..tail]
    }

    constructor (len: nat)
      ensures Sane() && fresh(buffer) && Contents() == []
      ensures initCap == len && head == BUFFER_OFFSET
    {
      head := BUFFER_OFFSET;
      initCap := len;
      buffer := new byte[len + BUFFER_OFFSET](_ => 0);
      tail := BUFFER_OFFSET;
    }

    function ReadableBytes(): nat
      requires Sane()
      reads this
    {
      tail - head
    }

    function WritableBytes(): nat
      requires Sane()
      reads this
    {
      buffer.Length - tail
    }

    /** `memcpy` of `data` to position `at`. */
    method Store(at: nat, data: seq<byte>)
      requires at + |data| <= buffer.Length
      modifies buffer
      ensures buffer[at..at + |data|] == data
      ensures forall i :: 0 <= i < at || at + |data| <= i < buffer.Length ==> buffer[i] == old(buffer[i])
    {
      forall i | 0 <= i < |data| {
        buffer[at + i] := data[i];
      }
    }

    /** `Store`, as seen by the bytes from `from` to `to` that lie behind the stored ones. */
    method Place(at: nat, data: seq<byte>, from: nat, to: nat)
      requires at + |data| <= from <= to <= buffer.Length
      modifies buffer
      ensures buffer[at..at + |data|] == data && buffer[from..to] == old(buffer[from..to])
    {
      Store(at, data);
    }

    method EnsureWritableBytes(len: nat)
      requires Valid()
      modifies this, buffer
      ensures Valid() && (buffer == old(buffer) || fresh(buffer))
      ensures WritableBytes() >= len
      ensures Contents() == old(Contents())
      ensures old(WritableBytes()) >= len ==> buffer == old(buffer) && head == old(head) && tail == old(tail)
      decreases if WritableBytes() >= len then 0 else 2
    {
      if WritableBytes() >= len {
        return;
      }
      ghost var was := Contents();
      if head + WritableBytes() >= len + BUFFER_OFFSET {
        // The readable bytes only ever move towards the front.
        assert head > BUFFER_OFFSET;
        Store(BUFFER_OFFSET, buffer[head..tail]);
        tail := BUFFER_OFFSET + (tail - head);
        head := BUFFER_OFFSET;
        assert Contents() == was;
        return;
      }
      var needed := BUFFER_OFFSET + ReadableBytes() + len;
      var newLen := if buffer.Length * 2 > needed then buffer.Length * 2 else needed;
      var newBuffer := new MsgBuffer(newLen);
      newBuffer.Append(buffer[head..tail]);
      Take(newBuffer);
    }

    /** The half of `Swap` that is observed: this buffer takes over the fields of a local one. */
    method Take(that: MsgBuffer)
      requires that.Valid()
      modifies this
      ensures buffer == that.buffer && head == that.head && tail == that.tail && initCap == that.initCap
      ensures Valid() && Contents() == old(that.Contents())
    {
      buffer, head, tail, initCap := that.buffer, that.head, that.tail, that.initCap;
    }

    /** Copies behind the readable bytes, where there is room. */
    method Fill(data: seq<byte>)
      requires Valid() && |data| <= WritableBytes()
      modifies this`tail, buffer
      ensures Valid() && tail == old(tail) + |data|
      ensures Contents() == old(Contents()) + data
    {
      ghost var was := Contents();
      Store(tail, data);
      assert buffer[head..tail] == was;
      Joined(buffer, head, tail, tail + |data|);
      tail := tail + |data|;
    }

    method Append(data: seq<byte>)
      requires Valid()
      modifies this, buffer
      ensures Valid() && (buffer == old(buffer) || fresh(buffer))
      ensures Contents() == old(Contents()) + data
      ensures old(WritableBytes()) >= |data| ==> buffer == old(buffer) && head == old(head)
      decreases if WritableBytes() >= |data| then 1 else 3
    {
      EnsureWritableBytes(|data|);
      Fill(data);
    }

    /** The shrink happens exactly when the capacity is below eight, and then breaks the buffer. */
    method RetrieveAll()
      requires Sane()
      modifies this
      ensures initCap == old(initCap) && (buffer == old(buffer) || fresh(buffer))
      ensures head == tail == BUFFER_OFFSET
      ensures Sane() <==> initCap >= BUFFER_OFFSET
      ensures initCap >= BUFFER_OFFSET ==> buffer == old(buffer) && Contents() == []
    {
      if buffer.Length > initCap * 2 {
        var shrunk := new byte[initCap](i requires 0 <= i < buffer.Length reads this, buffer => buffer[i]);
        buffer := shrunk;
      }
      tail, head := BUFFER_OFFSET, BUFFER_OFFSET;
    }

    method Retrieve(len: nat)
      requires Valid()
      modifies this
      ensures Valid() && buffer == old(buffer) && initCap == old(initCap)
      ensures Contents() == if len >= |old(Contents())| then [] else old(Contents())[len..]
    {
      if len >= ReadableBytes() {
        RetrieveAll();
        return;
      }
      head := head + len;
    }

    method Read(len: nat) returns (data: seq<byte>)
      requires Valid()
      modifies this
      ensures Valid() && buffer == old(buffer)
      ensures data + Contents() == old(Contents())
      ensures |data| == Min(len, |old(Contents())|)
    {
      var n := if len > ReadableBytes() then ReadableBytes() else len;
      data := buffer[head..head + n];
      Retrieve(n);
    }

    method Unwrite(offset: nat)
      requires Valid() && ReadableBytes() >= offset
      modifies this`tail
      ensures Valid()
      ensures Contents() == old(Contents())[..|old(Contents())| - offset]
    {
      tail := tail - offset;
    }

    /** Bytes written directly behind the readable ones become readable. */
    method HasWritten(len: nat)
      requires Valid() && len <= WritableBytes()
      modifies this`tail
      ensures Valid()
      ensures Contents() == old(Contents()) + old(buffer[tail..tail + len])
    {
      tail := tail + len;
    }

    /** What one `readv` may deliver: the free space, and 8192 bytes more if that is short. */
    ghost function ReadLimit(): nat
      requires Sane()
      reads this
    {
      if WritableBytes() < EXTRA_READ then WritableBytes() + EXTRA_READ else WritableBytes()
    }

    /** `incoming` is what `readv` delivers: first into the free space, then through a second block. */
    method ReadFd(incoming: seq<byte>)
      requires Valid() && |incoming| <= ReadLimit()
      modifies this, buffer
      ensures Valid() && (buffer == old(buffer) || fresh(buffer))
      ensures Contents() == old(Contents()) + incoming
    {
      var writable := WritableBytes();
      if |incoming| <= writable {
        Fill(incoming);
      } else {
        ghost var was := Contents();
        Fill(incoming[..writable]);
        Append(incoming[writable..]);
        assert incoming == incoming[..writable] + incoming[writable..];
        assert was + incoming[..writable] + incoming[writable..] == was + incoming;
      }
    }

    /** Moves the readable bytes `len` places towards the end, leaving the cursors alone. */
    method ShiftBack(len: nat)
      requires Valid() && len <= WritableBytes()
      modifies buffer
      ensures buffer[head + len..tail + len] == old(Contents())
    {
      Store(head + len, buffer[head..tail]);
    }

    /** Opens a gap of `|data|` bytes after `head` and fills it. */
    method Squeeze(data: seq<byte>)
      requires Valid() && |data| <= WritableBytes()
      modifies this`tail, buffer
      ensures Valid() && Contents() == data + old(Contents())
    {
      ghost var was := Contents();
      var len := |data|;
      ShiftBack(len);
      Place(head, data, head + len, tail + len);
      assert buffer[head + len..tail + len] == was;
      Joined(buffer, head, head + len, tail + len);
      tail := tail + len;
    }

    /** Moves to a buffer of nominal capacity `newLen`, with `data` before the readable bytes. */
    method Renew(newLen: nat, data: seq<byte>)
      requires Valid() && newLen >= BUFFER_OFFSET
      modifies this
      ensures Valid() && fresh(buffer)
      ensures Contents() == data + old(Contents())
    {
      var readable := buffer[head..tail];
      var newBuf := new MsgBuffer(newLen);
      newBuf.Append(data);
      newBuf.Append(readable);
      Take(newBuf);
    }

    method AddInFront(data: seq<byte>)
      requires Valid()
      modifies this, buffer
      ensures Valid() && (buffer == old(buffer) || fresh(buffer))
      ensures Contents() == data + old(Contents())
    {
      var len := |data|;
      if head >= len {
        ghost var was := Contents();
        Store(head - len, data);
        assert buffer[head..tail] == was;
        Joined(buffer, head - len, head, tail);
        head := head - len;
        return;
      }
      if len <= WritableBytes() {
        Squeeze(data);
        return;
      }
      var newLen := if len + ReadableBytes() < initCap then initCap else len + ReadableBytes();
      Renew(newLen, data);
    }

    method AppendInt16(n: uint16)
      requires Valid()
      modifies this, buffer
      ensures Valid() && (buffer == old(buffer) || fresh(buffer))
      ensures Contents() == old(Contents()) + Write16(n)
    {
      Append(Write16(n));
    }

    method AppendInt32(n: uint32)
      requires Valid()
      modifies this, buffer
      ensures Valid() && (buffer == old(buffer) || fresh(buffer))
      ensures Contents() == old(Contents()) + Write32(n)
    {
      Append(Write32(n));
    }

    method AppendInt64(n: uint64)
      requires Valid()
      modifies this, buffer
      ensures Valid() && (buffer == old(buffer) || fresh(buffer))
      ensures Contents() == old(Contents()) + Write64(n)
    {
      Append(Write64(n));
    }

    /** Reading an integer undoes writing it: whatever was put in front comes out again. */
    method ReadInt16() returns (n: uint16)
      requires Valid() && ReadableBytes() >= 2
      modifies this
      ensures Valid() && buffer == old(buffer)
      ensures old(Contents()) == Write16(n) + Contents()
    {
      n := Read16(buffer[head..tail]);
      Retrieve(2);
    }

    method ReadInt32() returns (n: uint32)
      requires Valid() && ReadableBytes() >= 4
      modifies this
      ensures Valid() && buffer == old(buffer)
      ensures old(Contents()) == Write32(n) + Contents()
    {
      n := Read32(buffer[head..tail]);
      Write32Read32(buffer[head..tail]);
      Retrieve(4);
    }

    method ReadInt64() returns (n: uint64)
      requires Valid() && ReadableBytes() >= 8
      modifies this
      ensures Valid() && buffer == old(buffer)
      ensures old(Contents()) == Write64(n) + Contents()
    {
      n := Read64(buffer[head..tail]);
      Write64Read64(buffer[head..tail]);
      Retrieve(8);
    }
  }
}
