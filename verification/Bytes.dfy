/** Fixed-width integers, and the byte orders used on the wire and in memory. */
module Bytes {
  type byte = b: int | 0 <= b < 0x100
  type uint16 = n: int | 0 <= n < 0x1_0000
  type uint24 = n: int | 0 <= n < 0x100_0000
  type uint32 = n: int | 0 <= n < 0x1_0000_0000
  type uint64 = n: int | 0 <= n < 0x1_0000_0000_0000_0000

  const TWO32 := 0x1_0000_0000

  function Min(a: int, b: int): int {
    if a <= b then a else b
  }

  /** Reinterprets an unsigned 32-bit value as `int32_t`. */
  function Signed32(n: uint32): int {
    if n < 0x8000_0000 then n else n - TWO32
  }

  // Big-endian writers (bytes_writer.cpp). The 24-bit writer drops the top byte.

  function Write16(n: uint16): seq<byte> {
    [n / 0x100, n % 0x100]
  }

  function Write24(n: uint32): seq<byte> {
    var low := n % 0x100_0000;
    [low / 0x100 / 0x100, low / 0x100 % 0x100, low % 0x100]
  }

  function Write32(n: uint32): seq<byte> {
    [n / 0x100 / 0x100 / 0x100, n / 0x100 / 0x100 % 0x100, n / 0x100 % 0x100, n % 0x100]
  }

  function Write64(n: uint64): seq<byte> {
    Write32(n / TWO32) + Write32(n % TWO32)
  }

  // Big-endian readers (bytes_reader.cpp), reading at the front of a sequence.

  function Read16(s: seq<byte>): (n: uint16)
    requires |s| >= 2
  {
    s[0] as int * 0x100 + s[1]
  }

  function Read24(s: seq<byte>): (n: uint24)
    requires |s| >= 3
  {
    s[0] as int * 0x1_0000 + s[1] as int * 0x100 + s[2]
  }

  function Read32(s: seq<byte>): (n: uint32)
    requires |s| >= 4
  {
    s[0] as int * 0x100_0000 + s[1] as int * 0x1_0000 + s[2] as int * 0x100 + s[3]
  }

  function Read64(s: seq<byte>): (n: uint64)
    requires |s| >= 8
  {
    Read32(s) * TWO32 + Read32(s[4..])
  }

  // `memcpy` of an integer on a little-endian host.

  function Copy16(n: uint16): seq<byte> {
    [n % 0x100, n / 0x100]
  }

  function Copy32(n: uint32): seq<byte> {
    [n % 0x100, n / 0x100 % 0x100, n / 0x100 / 0x100 % 0x100, n / 0x100 / 0x100 / 0x100]
  }

  function Load32(s: seq<byte>): (n: uint32)
    requires |s| >= 4
  {
    s[0] + s[1] as int * 0x100 + s[2] as int * 0x1_0000 + s[3] as int * 0x100_0000
  }

  /** What a big-endian reader sees where a little-endian host copied `n`. */
  function Swap32(n: uint32): (m: uint32) {
    Read32(Copy32(n))
  }

  /** On the wire the most significant byte comes first; of 24 bits, the low ones of the value. */
  lemma NetworkOrder(n: uint32)
    ensures n < 0x1_0000 ==> |Write16(n)| == 2 && n == Write16(n)[0] as int * 0x100 + Write16(n)[1]
    ensures |Write24(n)| == 3
      && n % 0x100_0000 == Write24(n)[0] as int * 0x1_0000 + Write24(n)[1] as int * 0x100 + Write24(n)[2]
    ensures |Write32(n)| == 4
      && n == Write32(n)[0] as int * 0x100_0000 + Write32(n)[1] as int * 0x1_0000
        + Write32(n)[2] as int * 0x100 + Write32(n)[3]
  {
    Read24Write24(n, []);
    Read32Write32(n, []);
  }

  /** In the memory of the host the least significant byte comes first. */
  lemma HostOrder(n: uint32)
    ensures n < 0x1_0000 ==> |Copy16(n)| == 2 && n == Copy16(n)[0] as int + Copy16(n)[1] as int * 0x100
    ensures |Copy32(n)| == 4
      && n == Copy32(n)[0] as int + Copy32(n)[1] as int * 0x100
        + Copy32(n)[2] as int * 0x1_0000 + Copy32(n)[3] as int * 0x100_0000
  {
    Load32Copy32(n, []);
  }

  lemma Read16Write16(n: uint16, t: seq<byte>)
    ensures Read16(Write16(n) + t) == n
  {
  }

  lemma Read24Write24(n: uint32, t: seq<byte>)
    ensures Read24(Write24(n) + t) == n % 0x100_0000
  {
    var low := n % 0x100_0000;
    var a, b := low / 0x100, low / 0x100 / 0x100;
    assert low == a * 0x100 + low % 0x100 && a == b * 0x100 + a % 0x100;
  }

  lemma Read32Write32(n: uint32, t: seq<byte>)
    ensures Read32(Write32(n) + t) == n
  {
    var a, b, c := n / 0x100, n / 0x100 / 0x100, n / 0x100 / 0x100 / 0x100;
    assert n == a * 0x100 + n % 0x100 && a == b * 0x100 + a % 0x100 && b == c * 0x100 + b % 0x100;
  }

  lemma Read64Write64(n: uint64, t: seq<byte>)
    ensures Read64(Write64(n) + t) == n
  {
    var s := Write64(n) + t;
    assert s == Write32(n / TWO32) + (Write32(n % TWO32) + t);
    Read32Write32(n / TWO32, Write32(n % TWO32) + t);
    assert s[4..] == Write32(n % TWO32) + t;
    Read32Write32(n % TWO32, t);
  }

  lemma Load32Copy32(n: uint32, t: seq<byte>)
    ensures Load32(Copy32(n) + t) == n
  {
    var a, b, c := n / 0x100, n / 0x100 / 0x100, n / 0x100 / 0x100 / 0x100;
    assert n == a * 0x100 + n % 0x100 && a == b * 0x100 + a % 0x100 && b == c * 0x100 + b % 0x100;
  }

  lemma Write32Read32(s: seq<byte>)
    requires |s| >= 4
    ensures Write32(Read32(s)) == s[..4]
  {
    var n := Read32(s);
    var a := s[0] as int * 0x1_0000 + s[1] as int * 0x100 + s[2];
    assert n == a * 0x100 + s[3];
    assert n / 0x100 == a && a / 0x100 == s[0] as int * 0x100 + s[1];
  }

  lemma Write64Read64(s: seq<byte>)
    requires |s| >= 8
    ensures Write64(Read64(s)) == s[..8]
  {
    var hi, lo, n := Read32(s), Read32(s[4..]), Read64(s);
    assert n / TWO32 == hi && n % TWO32 == lo;
    Write32Read32(s);
    Write32Read32(s[4..]);
    assert s[..8] == s[..4] + s[4..][..4];
  }
}
