/**
  AMF0 as the program writes and reads it. Writing follows `AMFAny`'s encoders, reading `AMFObject::Decode`,
  which skips nulls, turns ECMA arrays into objects and cuts the fraction off numbers.
 */
module Amf {
  import opened Bytes
  import opened Doubles
  import opened Wrappers

  datatype Property = Property(name: seq<byte>, value: Value)

  datatype Value =
    | Null
    | Number(bits: uint64)
    | Boolean(b: bool)
    | Text(s: seq<byte>)
    | Object(props: seq<Property>)
    | EcmaArray(count: uint32, props: seq<Property>)
    | Date(bits: uint64, zone: uint16)
    | LongText(s: seq<byte>)

  // Type markers.
  const NUMBER: byte := 0
  const BOOLEAN: byte := 1
  const STRING: byte := 2
  const OBJECT: byte := 3
  const NULL: byte := 5
  const ECMA_ARRAY: byte := 8
  const OBJECT_END: byte := 9
  const STRICT_ARRAY: byte := 10
  const DATE: byte := 11
  const LONG_STRING: byte := 12

  const END: seq<byte> := [0, 0, 9]

  // ---------------------------------------------------------------------------------------------
  // Writing
  // ---------------------------------------------------------------------------------------------

  function Tag(v: Value): (t: byte)
    ensures t != OBJECT_END && t != STRICT_ARRAY
  {
    match v
    case Null => NULL
    case Number(_) => NUMBER
    case Boolean(_) => BOOLEAN
    case Text(_) => STRING
    case Object(_) => OBJECT
    case EcmaArray(_, _) => ECMA_ARRAY
    case Date(_, _) => DATE
    case LongText(_) => LONG_STRING
  }

  /** A name, or the contents of a string: a 16-bit length, which wraps, and all the bytes. */
  function Sized16(s: seq<byte>): seq<byte> {
    Write16(|s| % 0x1_0000) + s
  }

  /** What follows the type marker. */
  function Payload(v: Value): seq<byte>
    decreases v
  {
    match v
    case Null => []
    case Number(bits) => Write64(bits)
    case Boolean(b) => [if b then 1 else 0]
    case Text(s) => Sized16(s)
    case Object(props) => EncodeProps(props) + END
    case EcmaArray(count, props) => Write32(count) + (EncodeProps(props) + END)
    case Date(bits, zone) => Write64(bits) + Write16(zone)
    case LongText(s) => Write32(|s| % TWO32) + s
  }

  function EncodeProps(ps: seq<Property>): seq<byte>
    decreases ps
  {
    if |ps| == 0 then []
    else Sized16(ps[0].name) + ([Tag(ps[0].value)] + Payload(ps[0].value)) + EncodeProps(ps[1..])
  }

  function Encode(v: Value): seq<byte> {
    [Tag(v)] + Payload(v)
  }

  /** The values of a command, one after the other, without names. */
  function EncodeAll(vs: seq<Value>): seq<byte> {
    if |vs| == 0 then [] else Encode(vs[0]) + EncodeAll(vs[1..])
  }

  // ---------------------------------------------------------------------------------------------
  // Reading
  // ---------------------------------------------------------------------------------------------

  /**
    The outcome of decoding: properties and the number of bytes used; the error result -1; or a read
    outside the message or a conversion outside the range, whose outcome the program does not define.
   */
  datatype Decoded = Ok(props: seq<Property>, used: nat) | Failed | Undefined

  function Skipped(r: Decoded, n: nat): Decoded {
    match r
    case Ok(ps, used) => Ok(ps, n + used)
    case _ => r
  }

  function AsObject(r: Decoded, name: seq<byte>): Decoded {
    match r
    case Ok(ps, used) => Ok([Property(name, Object(ps))], used)
    case _ => r
  }

  function Followed(ps: seq<Property>, r: Decoded): Decoded {
    match r
    case Ok(qs, used) => Ok(ps + qs, used)
    case _ => r
  }

  /** The length of the name, with its length field; an empty name takes no bytes at all. */
  function NameLength(d: seq<byte>, named: bool): Option<nat> {
    if !named then Some(0)
    else if |d| < 2 then None
    else if Read16(d) == 0 then Some(0)
    else if |d| < 2 + Read16(d) then None
    else Some(2 + Read16(d))
  }

  function NameAt(d: seq<byte>, n: nat): seq<byte>
    requires n <= |d|
  {
    if n < 2 then [] else d[2..n]
  }

  function ReadNumber(d: seq<byte>, name: seq<byte>): (r: Decoded)
    ensures r.Ok? ==> r.used <= |d|
  {
    if |d| < 8 then Failed
    else
      match Recode(Read64(d))
      case None => Undefined
      case Some(bits) => Ok([Property(name, Number(bits))], 8)
  }

  function ReadDate(d: seq<byte>, name: seq<byte>): (r: Decoded)
    ensures r.Ok? ==> r.used <= |d|
  {
    if |d| < 10 then Failed
    else
      match Recode(Read64(d))
      case None => Undefined
      case Some(bits) => Ok([Property(name, Date(bits, Read16(d[8..])))], 10)
  }

  function ReadText(d: seq<byte>, name: seq<byte>): (r: Decoded)
    ensures r.Ok? ==> r.used <= |d|
  {
    if |d| < 2 || |d| < Read16(d) + 2 then Failed
    else Ok([Property(name, Text(d[2..2 + Read16(d)]))], 2 + Read16(d))
  }

  /** The length check wraps around at 2^32. */
  function ReadLongText(d: seq<byte>, name: seq<byte>): (r: Decoded)
    ensures r.Ok? ==> r.used <= |d|
  {
    if |d| < 4 || |d| < (Read32(d) + 4) % TWO32 then Failed
    else if |d| < Read32(d) + 4 then Undefined
    else Ok([Property(name, LongText(d[4..4 + Read32(d)]))], 4 + Read32(d))
  }

  /** One value after its type marker. Unknown and unsupported types are skipped without their contents. */
  function ReadValue(t: byte, name: seq<byte>, d: seq<byte>): (r: Decoded)
    ensures r.Ok? ==> r.used <= |d|
    decreases |d|, 1, 0
  {
    if t == NUMBER then ReadNumber(d, name)
    else if t == BOOLEAN then
      if |d| < 1 then Failed else Ok([Property(name, Boolean(d[0] != 0))], 1)
    else if t == STRING then ReadText(d, name)
    else if t == OBJECT then AsObject(Decode(d, true), name)
    else if t == ECMA_ARRAY then
      if |d| < 4 then Undefined else Skipped(AsObject(Decode(d[4..], true), name), 4)
    else if t == STRICT_ARRAY then
      if |d| < 4 then Undefined else Skipped(ReadElements(Read32(d), name, d[4..]), 4)
    else if t == DATE then ReadDate(d, name)
    else if t == LONG_STRING then ReadLongText(d, name)
    else Ok([], 0)
  }

  /** `Decode`: properties until the end marker, or until fewer than three bytes are left. */
  function Decode(d: seq<byte>, named: bool): (r: Decoded)
    ensures r.Ok? ==> r.used <= |d|
    decreases |d|, 0, 0
  {
    if |d| < 3 then Ok([], 0)
    else if Read24(d) == 9 then Ok([], 3)
    else
      match NameLength(d, named)
      case None => Undefined
      case Some(n) =>
        if |d| <= n then Undefined
        else if d[n] == OBJECT_END then Ok([], n + 1)
        else
          match ReadValue(d[n], NameAt(d, n), d[n + 1..])
          case Ok(ps, used) => Skipped(Followed(ps, Decode(d[n + 1 + used..], named)), n + 1 + used)
          case other => other
  }

  /** `DecodeOnce` with a name, as for the elements of a strict array. */
  function DecodeOnce(d: seq<byte>): (r: Decoded)
    ensures r.Ok? ==> r.used <= |d|
    decreases |d|, 2, 0
  {
    match NameLength(d, true)
    case None => Undefined
    case Some(n) =>
      if |d| <= n then Undefined
      else Skipped(ReadValue(d[n], NameAt(d, n), d[n + 1..]), n + 1)
  }

  /** The elements of a strict array, each an object of its own under the array's name. */
  function ReadElements(count: nat, name: seq<byte>, d: seq<byte>): (r: Decoded)
    ensures r.Ok? ==> r.used <= |d|
    decreases |d|, 3, count
  {
    if count == 0 then Ok([], 0)
    else
      match AsObject(DecodeOnce(d), name)
      case Ok(ps, used) => Skipped(Followed(ps, ReadElements(count - 1, name, d[used..])), used)
      case other => other
  }
}
