/**
  The RTMP handshake of one endpoint: building and checking C1/S1 (rtmp_hand_shake.cpp), and the state
  machine that sends and awaits the blocks. HMAC-SHA256 is a parameter: any function with 32-byte
  results will do.
 */
module HandShakes {
  import opened Bytes

  const PACKET: nat := 1536
  const DIGEST: nat := 32

  type Digest = s: seq<byte> | |s| == 32 witness seq(32, _ => 0)
  type Hmac = (seq<byte>, seq<byte>) -> Digest

  /** The keys both sides know: the parts that sign the first blocks, and the whole. Any keys will do. */
  datatype Keys = Keys(player: seq<byte>, server: seq<byte>, playerFull: seq<byte>, serverFull: seq<byte>)

  const CLIENT_VERSION: seq<byte> := [0x0C, 0x00, 0x0D, 0x0E]
  const SERVER_VERSION: seq<byte> := [0x0D, 0x0E, 0x0A, 0x0D]

  /** Signs 1536 bytes, or those around a digest at `gap`. */
  function CalculateDigest(h: Hmac, src: seq<byte>, gap: int, key: seq<byte>): Digest
    requires gap <= 0 || gap + DIGEST <= |src|
  {
    if gap <= 0 then h(key, src) else h(key, src[..gap] + src[gap + DIGEST..])
  }

  /** Where the digest starts; the four bytes at `off` choose. */
  function GetDigestOffset(buf: seq<byte>, off: nat): nat
    requires off + 4 <= |buf|
  {
    (buf[off] as int + buf[off + 1] as int + buf[off + 2] as int + buf[off + 3] as int) % 728 + (off + 4)
  }

  predicate VerifyDigest(h: Hmac, buf: seq<byte>, position: nat, key: seq<byte>)
    requires |buf| == PACKET && 0 < position && position + DIGEST <= PACKET
  {
    buf[position..position + DIGEST] == CalculateDigest(h, buf, position, key)
  }

  /** Digests lie in bytes 12 to 771 of the block in the first layout, in 776 to 1535 in the second. */
  lemma DigestRange(buf: seq<byte>)
    requires |buf| == PACKET
    ensures 12 <= GetDigestOffset(buf, 8) && GetDigestOffset(buf, 8) + DIGEST <= 772
    ensures 776 <= GetDigestOffset(buf, 772) && GetDigestOffset(buf, 772) + DIGEST <= PACKET
  {
  }

  datatype Check = Rejected | Accepted(offset: nat, complex: bool)

  /** `CheckC1S1` on the version byte and the block; an all-zero version switches to the simple form. */
  function CheckC1S1(h: Hmac, keys: Keys, client: bool, complex: bool, data: seq<byte>): Check
    requires |data| == PACKET + 1
  {
    if data[0] != 3 then Rejected
    else if data[5] == data[6] == data[7] == data[8] == 0 then Accepted(0, false)
    else if !complex then Accepted(0, false)
    else
      var block := data[1..];
      var key := if client then keys.server else keys.player;
      DigestRange(block);
      var first := GetDigestOffset(block, 8);
      if VerifyDigest(h, block, first, key) then Accepted(first, true)
      else
        var second := GetDigestOffset(block, 772);
        if VerifyDigest(h, block, second, key) then Accepted(second, true) else Rejected
  }

  /** The block before it is signed: version, zero time, random bytes. */
  function Unsigned(client: bool, fill: seq<byte>): (s: seq<byte>)
    requires |fill| == PACKET + 1
    ensures |s| == PACKET + 1
  {
    [3, 0, 0, 0, 0] + (if client then CLIENT_VERSION else SERVER_VERSION) + fill[9..]
  }

  /** C0C1 or S0S1 in the digest form: the digest is put where the random bytes say. */
  function Signed(h: Hmac, keys: Keys, client: bool, fill: seq<byte>): (s: seq<byte>)
    requires |fill| == PACKET + 1
    ensures |s| == PACKET + 1
  {
    var s := Unsigned(client, fill);
    DigestRange(s[1..]);
    var offset := GetDigestOffset(s[1..], 8);
    var digest := CalculateDigest(h, s[1..], offset, if client then keys.player else keys.server);
    s[..1 + offset] + digest + s[1 + offset + DIGEST..]
  }

  /** The signed block is the unsigned one with the digest in it, behind the version bytes. */
  lemma SignedIs(h: Hmac, keys: Keys, client: bool, fill: seq<byte>)
    requires |fill| == PACKET + 1
    ensures
      var u, s := Unsigned(client, fill), Signed(h, keys, client, fill);
      var block := u[1..];
      var offset := GetDigestOffset(block, 8);
      && 12 <= offset && offset + DIGEST <= 772
      && s[..9] == u[..9]
      && s[1..] == block[..offset]
        + CalculateDigest(h, block, offset, if client then keys.player else keys.server) + block[offset + DIGEST..]
  {
    hide CalculateDigest, Unsigned, GetDigestOffset;
    DigestRange(Unsigned(client, fill)[1..]);
  }

  lemma EqualOffset(a: seq<byte>, b: seq<byte>)
    requires |a| >= 12 && |b| >= 12 && a[..12] == b[..12]
    ensures GetDigestOffset(a, 8) == GetDigestOffset(b, 8)
  {
    forall i | 8 <= i < 12 ensures a[i] == b[i] {
      assert a[..12][i] == b[..12][i];
    }
  }

  /** A version that is not all zero, and a digest that fits the first layout, are accepted. */
  lemma FirstLayoutAccepted(h: Hmac, keys: Keys, client: bool, data: seq<byte>)
    requires |data| == PACKET + 1 && data[0] == 3 && data[5] != 0
    requires 12 <= GetDigestOffset(data[1..], 8) && GetDigestOffset(data[1..], 8) + DIGEST <= 772
    requires VerifyDigest(h, data[1..], GetDigestOffset(data[1..], 8), if client then keys.server else keys.player)
    ensures CheckC1S1(h, keys, client, true, data) == Accepted(GetDigestOffset(data[1..], 8), true)
  {
    hide GetDigestOffset, VerifyDigest;
  }

  lemma Announces(client: bool, fill: seq<byte>)
    requires |fill| == PACKET + 1
    ensures Unsigned(client, fill)[0] == 3 && Unsigned(client, fill)[5] != 0
  {
  }

  /**
    Whatever the random bytes, the peer accepts the block on the first layout, at the offset at which
    the digest was put.
   */
  lemma SelfVerifies(h: Hmac, keys: Keys, client: bool, fill: seq<byte>)
    requires |fill| == PACKET + 1
    ensures
      var offset := GetDigestOffset(Unsigned(client, fill)[1..], 8);
      CheckC1S1(h, keys, !client, true, Signed(h, keys, client, fill)) == Accepted(offset, true)
  {
    hide CalculateDigest, Signed, Unsigned, GetDigestOffset, CheckC1S1;
    var u, s := Unsigned(client, fill), Signed(h, keys, client, fill);
    var block, key := u[1..], if client then keys.player else keys.server;
    var offset := GetDigestOffset(block, 8);
    SignedIs(h, keys, client, fill);
    Announces(client, fill);
    Spliced(block, offset, CalculateDigest(h, block, offset, key));
    assert s[1..][..12] == block[..12];
    EqualOffset(s[1..], block);
    SameDigest(h, s[1..], block, offset, key);
    assert s[..9][0] == s[0] && s[..9][5] == s[5] && u[..9][0] == u[0] && u[..9][5] == u[5];
    FirstLayoutAccepted(h, keys, !client, s);
  }

  /** The block of the simple form: version, zero time, zero version, random bytes. */
  function Plain(fill: seq<byte>): (s: seq<byte>)
    requires |fill| == PACKET + 1
    ensures |s| == PACKET + 1
  {
    [3, 0, 0, 0, 0, 0, 0, 0, 0] + fill[9..]
  }

  /** `CreateC1S1`. */
  function FirstBlock(h: Hmac, keys: Keys, client: bool, complex: bool, fill: seq<byte>): (s: seq<byte>)
    requires |fill| == PACKET + 1
    ensures |s| == PACKET + 1
  {
    if complex then Signed(h, keys, client, fill) else Plain(fill)
  }

  /** A block of either form passes the peer's check, and the peer learns which form it is. */
  lemma FirstBlockAccepted(h: Hmac, keys: Keys, client: bool, complex: bool, fill: seq<byte>)
    requires |fill| == PACKET + 1
    ensures
      var check := CheckC1S1(h, keys, !client, true, FirstBlock(h, keys, client, complex, fill));
      check.Accepted? && check.complex == complex
  {
    if complex {
      SelfVerifies(h, keys, client, fill);
    }
  }

  /** `CreateC2S2`: echo, own time, and a digest under a key derived from the digest at `offset`. */
  function SecondBlock(
    h: Hmac, keys: Keys, client: bool, complex: bool, block: seq<byte>, offset: nat, random: seq<byte>, now: uint32)
    : (s: seq<byte>)
    requires |block| == |random| == PACKET && offset + DIGEST <= PACKET
    ensures |s| == PACKET
  {
    var s := Write32(now) + block[4..8] + random[8..];
    if !complex then s
    else
      var key := h(if client then keys.playerFull else keys.serverFull, block[offset..offset + DIGEST]);
      s[..PACKET - DIGEST] + h(key, s[..PACKET - DIGEST])
  }

  lemma Spliced(b: seq<byte>, n: nat, d: seq<byte>)
    requires n + |d| <= |b|
    ensures
      var t := b[..n] + d + b[n + |d|..];
      && |t| == |b| && t[..n] == b[..n] && t[n..n + |d|] == d && t[n + |d|..] == b[n + |d|..]
      && forall i :: 0 <= i < n ==> t[i] == b[i]
  {
  }

  /** A digest does not depend on the bytes it replaces. */
  lemma SameDigest(h: Hmac, a: seq<byte>, b: seq<byte>, gap: nat, key: seq<byte>)
    requires 0 < gap && gap + DIGEST <= |a| == |b|
    requires a[..gap] == b[..gap] && a[gap + DIGEST..] == b[gap + DIGEST..]
    ensures CalculateDigest(h, a, gap, key) == CalculateDigest(h, b, gap, key)
  {
  }

  // ---------------------------------------------------------------------------------------------
  // What is accepted, said of the bytes alone
  // ---------------------------------------------------------------------------------------------

  /** The 32 bytes at `at` are the HMAC of the bytes in front of them and behind them. */
  predicate FitsAt(h: Hmac, key: seq<byte>, block: seq<byte>, at: nat)
    requires at + 32 <= |block|
  {
    block[at..at + 32] == h(key, block[..at] + block[at + 32..])
  }

  /** Where four bytes of the block put the digest, in the first layout and in the second. */
  function FirstPlace(block: seq<byte>): nat
    requires |block| == 1536
  {
    12 + (block[8] as int + block[9] as int + block[10] as int + block[11] as int) % 728
  }

  function SecondPlace(block: seq<byte>): nat
    requires |block| == 1536
  {
    776 + (block[772] as int + block[773] as int + block[774] as int + block[775] as int) % 728
  }

  lemma PlacesAre(block: seq<byte>)
    requires |block| == 1536
    ensures GetDigestOffset(block, 8) == FirstPlace(block) && GetDigestOffset(block, 772) == SecondPlace(block)
    ensures 12 <= FirstPlace(block) < 740 && 776 <= SecondPlace(block) < 1504
  {
  }

  lemma VerifiesIff(h: Hmac, block: seq<byte>, at: nat, key: seq<byte>)
    requires |block| == 1536 && 0 < at && at + 32 <= 1536
    ensures VerifyDigest(h, block, at, key) <==> FitsAt(h, key, block, at)
  {
  }

  /**
    A check for digests, of a block whose version is not zero: it is accepted if and only if the digest
    fits one of the two places, and the place is reported, the first one if both fit. The client checks
    with the server's key, and the server with the client's.
   */
  lemma ComplexCheckIff(h: Hmac, keys: Keys, client: bool, data: seq<byte>)
    requires |data| == 1537 && data[0] == 3 && data[5..9] != [0, 0, 0, 0]
    ensures
      var block, key := data[1..], if client then keys.server else keys.player;
      var check := CheckC1S1(h, keys, client, true, data);
      var first, second := FirstPlace(block), SecondPlace(block);
      && (check.Accepted? <==> FitsAt(h, key, block, first) || FitsAt(h, key, block, second))
      && (check.Accepted? ==> check.complex && FitsAt(h, key, block, check.offset))
      && (check.Accepted? ==> check.offset == if FitsAt(h, key, block, first) then first else second)
  {
    hide FitsAt, VerifyDigest, GetDigestOffset, FirstPlace, SecondPlace;
    var block, key := data[1..], if client then keys.server else keys.player;
    PlacesAre(block);
    VerifiesIff(h, block, FirstPlace(block), key);
    VerifiesIff(h, block, SecondPlace(block), key);
    NoVersion(data);
  }

  lemma NoVersion(data: seq<byte>)
    requires |data| == 1537
    ensures data[5..9] == [0, 0, 0, 0] <==> data[5] == data[6] == data[7] == data[8] == 0
  {
  }

  /** Without digests, or with a version of zero, the version byte alone decides; the form is the simple one. */
  lemma SimpleCheckIff(h: Hmac, keys: Keys, client: bool, complex: bool, data: seq<byte>)
    requires |data| == 1537 && (data[0] != 3 || data[5..9] == [0, 0, 0, 0] || !complex)
    ensures CheckC1S1(h, keys, client, complex, data) == if data[0] == 3 then Accepted(0, false) else Rejected
  {
    NoVersion(data);
  }

  /** A block with its digest in the second layout. */
  function SignedSecond(h: Hmac, key: seq<byte>, block: seq<byte>): (s: seq<byte>)
    requires |block| == 1536
    ensures |s| == 1536
  {
    var at := SecondPlace(block);
    block[..at] + h(key, block[..at] + block[at + 32..]) + block[at + 32..]
  }

  /**
    A peer may use the second layout: such a block is accepted, whatever else is in it, at the place where
    the digest was put, unless it happens to fit the first layout as well.
   */
  lemma SecondLayoutAccepted(h: Hmac, keys: Keys, client: bool, block: seq<byte>)
    requires |block| == 1536 && block[4..8] != [0, 0, 0, 0]
    ensures
      var key := if client then keys.player else keys.server;
      var s := SignedSecond(h, key, block);
      !FitsAt(h, key, s, FirstPlace(s)) ==>
        CheckC1S1(h, keys, !client, true, [3] + s) == Accepted(SecondPlace(block), true)
  {
    var key, at := if client then keys.player else keys.server, SecondPlace(block);
    var s := SignedSecond(h, key, block);
    PlacesAre(block);
    SplicedAt(block, at, h(key, block[..at] + block[at + 32..]));
    SamePlace(s, block, at);
    assert ([3] + s)[1..] == s && ([3] + s)[5..9] == s[4..8] == block[4..8];
    hide SecondPlace, FirstPlace, CheckC1S1, SignedSecond;
    ComplexCheckIff(h, keys, !client, [3] + s);
  }

  lemma SplicedAt(b: seq<byte>, n: nat, d: seq<byte>)
    requires 12 <= n && n + |d| <= |b|
    ensures
      var t := b[..n] + d + b[n + |d|..];
      && |t| == |b| && t[..n] == b[..n] && t[n..n + |d|] == d && t[n + |d|..] == b[n + |d|..] && t[4..8] == b[4..8]
  {
    Spliced(b, n, d);
    var t := b[..n] + d + b[n + |d|..];
    assert t[4..8] == t[..n][4..8] == b[..n][4..8] == b[4..8];
  }

  lemma SamePlace(a: seq<byte>, b: seq<byte>, n: nat)
    requires |a| == |b| == 1536 && 776 <= n <= 1536 && a[..n] == b[..n]
    ensures SecondPlace(a) == SecondPlace(b)
  {
    forall i | 772 <= i < 776 ensures a[i] == b[i] {
      assert a[..n][i] == b[..n][i];
    }
  }

  /** The block that is sent: its head is fixed, and the digest in it fits the first layout. */
  lemma SignedOpens(h: Hmac, keys: Keys, client: bool, fill: seq<byte>)
    requires |fill| == 1537
    ensures
      var s := Signed(h, keys, client, fill);
      && s[..9] == [3, 0, 0, 0, 0] + (if client then [0x0C, 0x00, 0x0D, 0x0E] else [0x0D, 0x0E, 0x0A, 0x0D])
      && FitsAt(h, if client then keys.player else keys.server, s[1..], FirstPlace(s[1..]))
  {
    hide FitsAt, Signed, CheckC1S1, FirstPlace;
    var s := Signed(h, keys, client, fill);
    SelfVerifies(h, keys, client, fill);
    SignedIs(h, keys, client, fill);
    var block := Unsigned(client, fill)[1..];
    HeadOf(client, fill);
    assert s[0] == s[..9][0] && s[5] == s[..9][5];
    var at := GetDigestOffset(block, 8);
    assert s[1..][..12] == block[..12];
    EqualOffset(s[1..], block);
    PlacesAre(s[1..]);
    Digested(h, s[1..], block, at, if client then keys.player else keys.server);
  }

  lemma HeadOf(client: bool, fill: seq<byte>)
    requires |fill| == 1537
    ensures
      Unsigned(client, fill)[..9]
      == [3, 0, 0, 0, 0] + (if client then [0x0C, 0x00, 0x0D, 0x0E] else [0x0D, 0x0E, 0x0A, 0x0D])
  {
  }

  lemma Digested(h: Hmac, s: seq<byte>, block: seq<byte>, at: nat, key: seq<byte>)
    requires |s| == |block| == 1536 && 0 < at && at + 32 <= 1536
    requires s == block[..at] + CalculateDigest(h, block, at, key) + block[at + 32..]
    ensures FitsAt(h, key, s, at)
  {
    Spliced(block, at, CalculateDigest(h, block, at, key));
  }

  /**
    C2 and S2: own time, the peer's version, random bytes, and in the complex form a digest of all that,
    under a key made from the digest the peer sent and the full key of one's own.
   */
  lemma SecondBlockIs(
    h: Hmac, keys: Keys, client: bool, complex: bool, block: seq<byte>, offset: nat, random: seq<byte>, now: uint32)
    requires |block| == |random| == 1536 && offset + 32 <= 1536
    ensures
      var s := SecondBlock(h, keys, client, complex, block, offset, random, now);
      var own := if client then keys.playerFull else keys.serverFull;
      && s[..8] == Write32(now) + block[4..8] && s[8..1504] == random[8..1504]
      && s[1504..] == if complex then h(h(own, block[offset..offset + 32]), s[..1504]) else random[1504..]
  {
    var whole := Write32(now) + block[4..8] + random[8..];
    assert whole[..8] == whole[..1504][..8] == Write32(now) + block[4..8];
    assert whole[8..1504] == whole[..1504][8..1504] == random[8..1504] && whole[1504..] == random[1504..];
  }
}
