/** The entities that both directions of the RTMP chunk stream share. */
module ChunkFormat {
  import opened Bytes

  /** `RtmpMsgHeader`, the history kept for one chunk stream id. */
  datatype Header = Header(csid: uint32, timestamp: uint32, msgLen: uint32, msgType: byte, msgSid: uint32)

  /** A message as the application hands it over, or receives it. */
  datatype Message = Message(csid: uint32, msgType: byte, msgSid: uint32, timestamp: uint32, body: seq<byte>)

  /** The two-bit header format of a chunk. */
  type Fmt = f: int | 0 <= f < 4

  const NO_HEADER := Header(0, 0, 0, 0, 0)

  const EXTENDED: uint32 := 0xFFFFFF

  const SET_CHUNK_SIZE: byte := 1
  const BYTES_READ: byte := 3
  const WINDOW_ACK_SIZE: byte := 5
  const SET_PEER_BANDWIDTH: byte := 6
  const AMF_COMMAND: byte := 20

  /** Bytes of message header that follow the basic header. */
  function HeaderLength(fmt: Fmt): (n: nat) {
    if fmt == 0 then 11 else if fmt == 1 then 7 else if fmt == 2 then 3 else 0
  }

  /** The receiver's chunk size once message `m` has completed. */
  function ChunkSizeAfter(k: int, m: Message): int {
    if m.msgType == SET_CHUNK_SIZE && |m.body| >= 4 then Signed32(Read32(m.body)) else k
  }
}
