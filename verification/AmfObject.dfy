/** `AMFObject`: decoding that moves through the data and collects properties, and lookup among them. */
module AmfObjects {
  import opened Bytes
  import opened Amf
  import opened AmfCommands
  import opened Wrappers

  /** What a decoder returns: a length, the error -1, or nothing defined. */
  datatype Status = Used(n: nat) | Error | OutOfBounds

  /** A status and the collected properties, as the outcome `d` has them. */
  predicate Agrees(r: Status, d: Decoded, before: seq<Property>, after: seq<Property>) {
    match d
    case Ok(ps, n) => r == Used(n) && after == before + ps
    case Failed => r == Error
    case Undefined => r == OutOfBounds
  }

  lemma FromNothing(r: Status, d: Decoded, after: seq<Property>)
    requires Agrees(r, d, [], after)
    ensures d.Ok? ==> after == d.props
  {
    if d.Ok? {
      assert [] + d.props == d.props;
    }
  }

  /** Properties collected in two steps. */
  lemma Gather(gained: seq<Property>, n: nat, qs: seq<Property>, m: nat, rest: Decoded)
    ensures Skipped(Followed(gained, Skipped(Followed(qs, rest), m)), n) == Skipped(Followed(gained + qs, rest), n + m)
  {
    if rest.Ok? {
      assert gained + (qs + rest.props) == gained + qs + rest.props;
    }
  }

  /** How the loop of `Decode` leaves from data it has not finished with, or goes on. */
  lemma DecodeTurn(d: seq<byte>, named: bool)
    requires |d| >= 3
    ensures
      if Read24(d) == 9 then Amf.Decode(d, named) == Ok([], 3)
      else match NameLength(d, named)
        case None => Amf.Decode(d, named) == Undefined
        case Some(n) =>
          if |d| <= n then Amf.Decode(d, named) == Undefined
          else if d[n] == OBJECT_END then Amf.Decode(d, named) == Ok([], n + 1)
          else match ReadValue(d[n], NameAt(d, n), d[n + 1..])
            case Ok(qs, m) =>
              Amf.Decode(d, named) == Skipped(Followed(qs, Amf.Decode(d[n + 1 + m..], named)), n + 1 + m)
            case other => Amf.Decode(d, named) == other
  {
    hide ReadValue, NameLength, NameAt, Read24;
  }

  lemma Exhausted(d: seq<byte>, named: bool)
    requires |d| < 3
    ensures Amf.Decode(d, named) == Ok([], 0)
  {
  }

  lemma NoElements(name: seq<byte>, d: seq<byte>)
    ensures ReadElements(0, name, d) == Ok([], 0)
  {
  }

  lemma ElementTurn(count: nat, name: seq<byte>, d: seq<byte>)
    requires count > 0
    ensures
      match AsObject(Amf.DecodeOnce(d), name)
      case Ok(ps, n) =>
        ReadElements(count, name, d) == Skipped(Followed(ps, ReadElements(count - 1, name, d[n..])), n)
      case other => ReadElements(count, name, d) == other
  {
    hide Amf.DecodeOnce;
  }

  class AMFObject {
    const name: seq<byte>
    var properties: seq<Property>

    constructor (name: seq<byte>)
      ensures this.name == name && properties == []
    {
      this.name := name;
      properties := [];
    }

    /** Keeps a decoded scalar, or passes the failure on. */
    method Keep(d: Decoded) returns (r: Status)
      modifies `properties
      ensures Agrees(r, d, old(properties), properties)
    {
      match d
      case Ok(ps, n) =>
        properties := properties + ps;
        r := Used(n);
      case Failed => r := Error;
      case Undefined => r := OutOfBounds;
    }

    /** Decodes a nested object, `skip` bytes into the data. */
    method DecodeNested(name: seq<byte>, data: seq<byte>, skip: nat) returns (r: Status)
      requires skip <= |data|
      modifies `properties
      ensures Agrees(r, Skipped(AsObject(Amf.Decode(data[skip..], true), name), skip), old(properties), properties)
      decreases |data| - skip, 1, 0
    {
      var p := new AMFObject(name);
      r := p.Decode(data[skip..], true);
      FromNothing(r, Amf.Decode(data[skip..], true), p.properties);
      if r.Used? {
        properties := properties + [Property(name, Object(p.properties))];
        r := Used(skip + r.n);
      }
    }

    /** The switch over the type marker, which `Decode` and `DecodeOnce` share. */
    method DecodeValue(t: byte, name: seq<byte>, data: seq<byte>) returns (r: Status)
      modifies `properties
      ensures Agrees(r, ReadValue(t, name, data), old(properties), properties)
      decreases |data|, 2, 0
    {
      hide Amf.Decode, ReadNumber, ReadText, ReadDate, ReadLongText;
      if t == NUMBER {
        r := Keep(ReadNumber(data, name));
      } else if t == BOOLEAN {
        r := Keep(if |data| < 1 then Failed else Ok([Property(name, Boolean(data[0] != 0))], 1));
      } else if t == STRING {
        r := Keep(ReadText(data, name));
      } else if t == OBJECT {
        assert data[0..] == data;
        r := DecodeNested(name, data, 0);
      } else if t == ECMA_ARRAY {
        if |data| < 4 {
          return OutOfBounds;
        }
        r := DecodeNested(name, data, 4);
      } else if t == STRICT_ARRAY {
        if |data| < 4 {
          return OutOfBounds;
        }
        r := DecodeElements(Read32(data), name, data[4..]);
        if r.Used? {
          r := Used(4 + r.n);
        }
      } else if t == DATE {
        r := Keep(ReadDate(data, name));
      } else if t == LONG_STRING {
        r := Keep(ReadLongText(data, name));
      } else {
        r := Used(0);
      }
    }

    method Decode(data: seq<byte>, named: bool) returns (r: Status)
      modifies `properties
      ensures Agrees(r, Amf.Decode(data, named), old(properties), properties)
      decreases |data|, 0, 0
    {
      hide Amf.Decode, ReadValue, NameLength, NameAt, Read24;
      var parsed: nat := 0;
      ghost var gained: seq<Property> := [];
      assert data[0..] == data;
      while parsed + 3 <= |data|
        invariant parsed <= |data| && properties == old(properties) + gained
        invariant Amf.Decode(data, named) == Skipped(Followed(gained, Amf.Decode(data[parsed..], named)), parsed)
        decreases |data| - parsed
      {
        var d := data[parsed..];
        DecodeTurn(d, named);
        if Read24(d) == 9 {
          return Used(parsed + 3);
        }
        var length := NameLength(d, named);
        if length.None? || |d| <= length.value {
          return OutOfBounds;
        }
        var n := length.value;
        if d[n] == OBJECT_END {
          return Used(parsed + n + 1);
        }
        r := DecodeValue(d[n], NameAt(d, n), d[n + 1..]);
        if !r.Used? {
          return;
        }
        ghost var v := ReadValue(d[n], NameAt(d, n), d[n + 1..]);
        assert d[n + 1 + r.n..] == data[parsed + n + 1 + r.n..];
        Gather(gained, parsed, v.props, n + 1 + r.n, Amf.Decode(d[n + 1 + r.n..], named));
        gained := gained + v.props;
        parsed := parsed + n + 1 + r.n;
      }
      r := Used(parsed);
      Exhausted(data[parsed..], named);
    }

    method DecodeOnce(data: seq<byte>) returns (r: Status)
      modifies `properties
      ensures Agrees(r, Amf.DecodeOnce(data), old(properties), properties)
      decreases |data|, 3, 0
    {
      hide ReadValue;
      var length := NameLength(data, true);
      if length.None? || |data| <= length.value {
        return OutOfBounds;
      }
      var n := length.value;
      r := DecodeValue(data[n], NameAt(data, n), data[n + 1..]);
      if r.Used? {
        r := Used(n + 1 + r.n);
      }
    }

    /** One element of a strict array: an object of its own, under the array's name. */
    method DecodeElement(name: seq<byte>, data: seq<byte>) returns (r: Status)
      modifies `properties
      ensures Agrees(r, AsObject(Amf.DecodeOnce(data), name), old(properties), properties)
      decreases |data|, 4, 0
    {
      hide Amf.DecodeOnce;
      var p := new AMFObject(name);
      r := p.DecodeOnce(data);
      FromNothing(r, Amf.DecodeOnce(data), p.properties);
      if r.Used? {
        properties := properties + [Property(name, Object(p.properties))];
      }
    }

    method DecodeElements(count: nat, name: seq<byte>, data: seq<byte>) returns (r: Status)
      modifies `properties
      ensures Agrees(r, ReadElements(count, name, data), old(properties), properties)
      decreases |data|, 5, 0
    {
      hide Amf.DecodeOnce, ReadElements;
      var parsed: nat := 0;
      var left := count;
      ghost var gained: seq<Property> := [];
      assert data[0..] == data;
      while left > 0
        invariant parsed <= |data| && properties == old(properties) + gained
        invariant
          ReadElements(count, name, data)
          == Skipped(Followed(gained, ReadElements(left, name, data[parsed..])), parsed)
        decreases left
      {
        var d := data[parsed..];
        ElementTurn(left, name, d);
        r := DecodeElement(name, d);
        if !r.Used? {
          return;
        }
        ghost var ps := AsObject(Amf.DecodeOnce(d), name).props;
        assert d[r.n..] == data[parsed + r.n..];
        Gather(gained, parsed, ps, r.n, ReadElements(left - 1, name, d[r.n..]));
        assert old(properties) + gained + ps == old(properties) + (gained + ps);
        gained := gained + ps;
        parsed := parsed + r.n;
        left := left - 1;
      }
      r := Used(parsed);
      NoElements(name, data[parsed..]);
    }

    /** `Property(name)`; the objects among the properties are searched in turn. */
    static method Find(ps: seq<Property>, name: seq<byte>) returns (v: Option<Value>)
      ensures v == Lookup(ps, name)
      decreases ps
    {
      assert ps[0..] == ps;
      for i := 0 to |ps|
        invariant Lookup(ps, name) == Lookup(ps[i..], name)
      {
        assert ps[i..][1..] == ps[i + 1..];
        if ps[i].name == name {
          return Some(ps[i].value);
        } else if ps[i].value.Object? {
          v := Find(ps[i].value.props, name);
          if v.Some? {
            return;
          }
        }
      }
      v := None;
    }

    method PropertyNamed(name: seq<byte>) returns (v: Option<Value>)
      ensures v == Lookup(properties, name)
    {
      v := Find(properties, name);
    }
  }
}
