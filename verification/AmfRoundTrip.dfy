/** Reading back what was written: nested objects, and the values of a command. */
module AmfRoundTrip {
  import opened Bytes
  import opened Doubles
  import opened Amf
  import opened Sequences
  import opened Wrappers

  /** Strings whose length field can hold their length, and numbers whose conversion is defined. */
  predicate Encodable(v: Value)
    decreases v
  {
    match v
    case Null => true
    case Boolean(_) => true
    case Number(bits) => Recode(bits).Some?
    case Date(bits, _) => Recode(bits).Some?
    case Text(s) => |s| < 0x1_0000
    case LongText(s) => |s| < TWO32 - 4
    case Object(props) => AllEncodable(props)
    case EcmaArray(_, props) => AllEncodable(props)
  }

  predicate AllEncodable(ps: seq<Property>)
    decreases ps
  {
    |ps| == 0 || (0 < |ps[0].name| < 0x1_0000 && Encodable(ps[0].value) && AllEncodable(ps[1..]))
  }

  /** What a reader makes of a value that is not null. */
  function Seen(v: Value): Value
    requires Encodable(v) && !v.Null?
    decreases v
  {
    match v
    case Boolean(_) => v
    case Text(_) => v
    case LongText(_) => v
    case Number(bits) => Number(Recode(bits).value)
    case Date(bits, zone) => Date(Recode(bits).value, zone)
    case Object(props) => Object(SeenProps(props))
    case EcmaArray(_, props) => Object(SeenProps(props))
  }

  /** Nulls leave no property behind. */
  function SeenProps(ps: seq<Property>): seq<Property>
    requires AllEncodable(ps)
    decreases ps
  {
    if |ps| == 0 then []
    else if ps[0].value.Null? then SeenProps(ps[1..])
    else [Property(ps[0].name, Seen(ps[0].value))] + SeenProps(ps[1..])
  }

  function SeenAs(name: seq<byte>, v: Value): seq<Property>
    requires Encodable(v)
  {
    if v.Null? then [] else [Property(name, Seen(v))]
  }

  lemma NumberReads(bits: uint64, name: seq<byte>, rest: seq<byte>)
    requires Recode(bits).Some?
    ensures ReadNumber(Write64(bits) + rest, name) == Ok([Property(name, Number(Recode(bits).value))], 8)
  {
    hide Recode, Write64, Read64;
    Read64Write64(bits, rest);
    Length64(bits);
  }

  lemma Length64(bits: uint64)
    ensures |Write64(bits)| == 8
  {
  }

  lemma DateReads(bits: uint64, zone: uint16, name: seq<byte>, rest: seq<byte>)
    requires Recode(bits).Some?
    ensures
      ReadDate(Write64(bits) + Write16(zone) + rest, name) == Ok([Property(name, Date(Recode(bits).value, zone))], 10)
  {
    hide Recode, Write64, Read64, Read16;
    Read64Write64(bits, Write16(zone) + rest);
    Length64(bits);
    Read16Write16(zone, rest);
    assert Write64(bits) + Write16(zone) + rest == Write64(bits) + (Write16(zone) + rest);
    assert (Write64(bits) + (Write16(zone) + rest))[8..] == Write16(zone) + rest;
  }

  lemma Sized16Is(s: seq<byte>)
    requires |s| < 0x1_0000
    ensures Sized16(s) == Write16(|s|) + s && |Write16(|s|)| == 2
  {
    Length16(|s|);
    hide Write16;
    assert |s| % 0x1_0000 == |s|;
  }

  lemma Sized16Reads(s: seq<byte>, rest: seq<byte>)
    requires |s| < 0x1_0000
    ensures
      var d := Sized16(s) + rest;
      && |Sized16(s)| == 2 + |s| && Read16(d) == |s|
      && d[2..2 + |s|] == s && d[2 + |s|..] == rest
  {
    hide Write16, Read16, Sized16;
    Sized16Is(s);
    Thirds(Write16(|s|), s, rest);
    Read16Write16(|s|, s + rest);
  }

  lemma LongTextReads(s: seq<byte>, name: seq<byte>, rest: seq<byte>)
    requires |s| < TWO32 - 4
    ensures ReadLongText(Write32(|s|) + s + rest, name) == Ok([Property(name, LongText(s))], 4 + |s|)
  {
    hide Read32;
    assert Write32(|s|) + s + rest == Write32(|s|) + (s + rest);
    Read32Write32(|s|, s + rest);
  }

  lemma ValueBehind(head: seq<byte>, t: byte, p: seq<byte>, rest: seq<byte>)
    ensures
      var d, n := head + ([t] + p) + rest, |head|;
      n < |d| && d[..n] == head && d[n] == t && d[n + 1..] == p + rest && (p + rest)[|p|..] == rest
  {
  }

  lemma SameName(d: seq<byte>, head: seq<byte>)
    requires |head| <= |d| && d[..|head|] == head
    ensures NameAt(d, |head|) == NameAt(head, |head|)
  {
    if |head| >= 2 {
      assert d[2..|head|] == d[..|head|][2..|head|];
    }
  }

  /** One turn of the loop in `Decode`: a name of `n` bytes, a type marker, a value. */
  lemma DecodeTakes(d: seq<byte>, named: bool, n: nat, name: seq<byte>, tail: seq<byte>, qs: seq<Property>, used: nat)
    requires |d| >= 3 && Read24(d) != 9 && NameLength(d, named) == Some(n) && n < |d| && d[n] != OBJECT_END
    requires NameAt(d, n) == name && d[n + 1..] == tail && ReadValue(d[n], name, tail) == Ok(qs, used)
    ensures used <= |tail|
    ensures Decode(d, named) == Skipped(Followed(qs, Decode(tail[used..], named)), n + 1 + used)
  {
    hide ReadValue, NameAt, NameLength, Read24, Followed, Skipped;
    assert d[n + 1..][used..] == d[n + 1 + used..];
  }

  /** A name of at least one byte cannot look like the end marker. */
  lemma NamedHead(name: seq<byte>, rest: seq<byte>)
    requires 0 < |name| < 0x1_0000
    ensures
      var d := Sized16(name) + rest;
      && |d| >= 3 && Read24(d) != 9 && NameLength(d, true) == Some(|Sized16(name)|)
      && NameAt(Sized16(name), |Sized16(name)|) == name
  {
    Sized16Reads(name, rest);
    Sized16Reads(name, []);
    assert Sized16(name) + [] == Sized16(name);
    var d := Sized16(name) + rest;
    assert Read16(d) == d[0] as int * 0x100 + d[1];
  }

  /** Every value that can be written is read back, and exactly its bytes are used. */
  lemma {:induction false} ValueReads(v: Value, name: seq<byte>, rest: seq<byte>)
    requires Encodable(v)
    ensures ReadValue(Tag(v), name, Payload(v) + rest) == Ok(SeenAs(name, v), |Payload(v)|)
    decreases v
  {
    if v.Object? || v.EcmaArray? {
      PropsRead(v.props, rest);
      ContainerReads(v, name, rest);
    } else {
      ScalarReads(v, name, rest);
    }
  }

  lemma ContainerReads(v: Value, name: seq<byte>, rest: seq<byte>)
    requires (v.Object? || v.EcmaArray?) && Encodable(v)
    requires Decode(EncodeProps(v.props) + END + rest, true) == Ok(SeenProps(v.props), |EncodeProps(v.props)| + 3)
    ensures ReadValue(Tag(v), name, Payload(v) + rest) == Ok(SeenAs(name, v), |Payload(v)|)
  {
    hide Decode, EncodeProps, SeenProps, Write32, AllEncodable;
    if v.EcmaArray? {
      Length32(v.count);
      assert (Payload(v) + rest)[4..] == EncodeProps(v.props) + END + rest;
    }
  }

  lemma ScalarReads(v: Value, name: seq<byte>, rest: seq<byte>)
    requires !v.Object? && !v.EcmaArray? && Encodable(v)
    ensures ReadValue(Tag(v), name, Payload(v) + rest) == Ok(SeenAs(name, v), |Payload(v)|)
  {
    if v.Text? || v.LongText? {
      TextualReads(v, name, rest);
    } else if v.Number? || v.Date? {
      NumericReads(v, name, rest);
    } else {
      hide Decode, Recode, EncodeProps, SeenProps, AllEncodable;
    }
  }

  lemma TextualReads(v: Value, name: seq<byte>, rest: seq<byte>)
    requires (v.Text? || v.LongText?) && Encodable(v)
    ensures ReadValue(Tag(v), name, Payload(v) + rest) == Ok(SeenAs(name, v), |Payload(v)|)
  {
    hide ReadText, ReadLongText, Decode, Recode, Write32, Sized16, EncodeProps, SeenProps, AllEncodable;
    if v.Text? {
      TextReads(v.s, name, rest);
    } else {
      Length32(|v.s|);
      LongTextReads(v.s, name, rest);
    }
  }

  lemma NumericReads(v: Value, name: seq<byte>, rest: seq<byte>)
    requires (v.Number? || v.Date?) && Encodable(v)
    ensures ReadValue(Tag(v), name, Payload(v) + rest) == Ok(SeenAs(name, v), |Payload(v)|)
  {
    hide ReadNumber, ReadDate, Decode, Recode, Write64, Write16;
    Length64(v.bits);
    if v.Number? {
      NumberReads(v.bits, name, rest);
    } else {
      Length16(v.zone);
      DateReads(v.bits, v.zone, name, rest);
    }
  }

  lemma TextReads(s: seq<byte>, name: seq<byte>, rest: seq<byte>)
    requires |s| < 0x1_0000
    ensures ReadText(Sized16(s) + rest, name) == Ok([Property(name, Text(s))], |Sized16(s)|)
  {
    hide Sized16, Read16;
    Sized16Reads(s, rest);
  }

  lemma Length16(n: uint16)
    ensures |Write16(n)| == 2
  {
  }

  lemma Length32(n: uint32)
    ensures |Write32(n)| == 4
  {
  }

  /**
    The round trip: any object with non-empty names under 64 KiB, to any depth, is read back with its
    properties in order, whatever bytes follow, and exactly its bytes and the end marker are used.
   */
  lemma {:induction false} PropsRead(ps: seq<Property>, rest: seq<byte>)
    requires AllEncodable(ps)
    ensures Decode(EncodeProps(ps) + END + rest, true) == Ok(SeenProps(ps), |EncodeProps(ps)| + 3)
    decreases ps
  {
    hide ReadValue, Payload, Tag, Decode, Sized16, Encodable, SeenAs, Seen, SeenProps;
    if |ps| == 0 {
      EndReads(rest);
    } else {
      var more := EncodeProps(ps[1..]) + END + rest;
      PropsRead(ps[1..], rest);
      ValueReads(ps[0].value, ps[0].name, more);
      PropReads(ps[0].name, ps[0].value, more);
      var one := Sized16(ps[0].name) + ([Tag(ps[0].value)] + Payload(ps[0].value));
      assert one + EncodeProps(ps[1..]) + END + rest == one + more;
      SeenHead(ps);
    }
  }

  lemma EndReads(rest: seq<byte>)
    ensures EncodeProps([]) + END + rest == END + rest && SeenProps([]) == []
    ensures Decode(END + rest, true) == Ok([], 3)
  {
  }

  lemma SeenHead(ps: seq<Property>)
    requires |ps| > 0 && AllEncodable(ps)
    ensures SeenProps(ps) == SeenAs(ps[0].name, ps[0].value) + SeenProps(ps[1..])
  {
  }

  /** Where the name, the marker and the value of a property are found. */
  lemma NamedAt(name: seq<byte>, v: Value, more: seq<byte>)
    requires 0 < |name| < 0x1_0000
    ensures
      var d, n := Sized16(name) + ([Tag(v)] + Payload(v)) + more, |Sized16(name)|;
      && |d| >= 3 && Read24(d) != 9 && NameLength(d, true) == Some(n) && n < |d|
      && d[n] == Tag(v) != OBJECT_END && NameAt(d, n) == name && d[n + 1..] == Payload(v) + more
  {
    hide Payload, Sized16, NameLength, NameAt, Read24;
    var value := [Tag(v)] + Payload(v);
    Thirds(Sized16(name), value, more);
    NamedHead(name, value + more);
    ValueBehind(Sized16(name), Tag(v), Payload(v), more);
    SameName(Sized16(name) + value + more, Sized16(name));
  }

  /** One named value, in front of others. */
  lemma PropReads(name: seq<byte>, v: Value, more: seq<byte>)
    requires 0 < |name| < 0x1_0000 && Encodable(v)
    requires ReadValue(Tag(v), name, Payload(v) + more) == Ok(SeenAs(name, v), |Payload(v)|)
    ensures
      var one := Sized16(name) + ([Tag(v)] + Payload(v));
      Decode(one + more, true) == Skipped(Followed(SeenAs(name, v), Decode(more, true)), |one|)
  {
    hide ReadValue, Payload, Tag, Decode, Sized16, Encodable, SeenAs, NameLength, NameAt, Read24, Followed, Skipped;
    var d, n := Sized16(name) + ([Tag(v)] + Payload(v)) + more, |Sized16(name)|;
    NamedAt(name, v, more);
    ValueBehind(Sized16(name), Tag(v), Payload(v), more);
    DecodeTakes(d, true, n, name, Payload(v) + more, SeenAs(name, v), |Payload(v)|);
  }

  // ---------------------------------------------------------------------------------------------
  // Strict arrays, single properties, and data that ends too soon
  // ---------------------------------------------------------------------------------------------

  /** One property on its own, as `DecodeOnce` takes it. */
  lemma OnceReads(name: seq<byte>, v: Value, more: seq<byte>)
    requires 0 < |name| < 0x1_0000 && Encodable(v)
    ensures
      var one := Sized16(name) + ([Tag(v)] + Payload(v));
      DecodeOnce(one + more) == Ok(SeenAs(name, v), |one|)
  {
    hide ReadValue, Payload, Tag, Sized16, Encodable, SeenAs, NameLength, NameAt, Read24;
    NamedAt(name, v, more);
    ValueReads(v, name, more);
  }

  /** Every element becomes an object of its own, under the name of the array; inside it is the element. */
  function Elements(name: seq<byte>, ps: seq<Property>): seq<Property>
    requires AllEncodable(ps)
  {
    if |ps| == 0 then []
    else [Property(name, Object(SeenAs(ps[0].name, ps[0].value)))] + Elements(name, ps[1..])
  }

  lemma {:induction false} ElementsRead(name: seq<byte>, ps: seq<Property>, rest: seq<byte>)
    requires AllEncodable(ps)
    ensures ReadElements(|ps|, name, EncodeProps(ps) + rest) == Ok(Elements(name, ps), |EncodeProps(ps)|)
    decreases |ps|
  {
    hide DecodeOnce, Payload, Tag, Sized16, Encodable, SeenAs;
    if |ps| > 0 {
      var one := Sized16(ps[0].name) + ([Tag(ps[0].value)] + Payload(ps[0].value));
      Assoc3(one, EncodeProps(ps[1..]), rest);
      Halves(one, EncodeProps(ps[1..]) + rest, 0);
      OnceReads(ps[0].name, ps[0].value, EncodeProps(ps[1..]) + rest);
      ElementsRead(name, ps[1..], rest);
    }
  }

  /** A strict array, marker 10: a count, and as many named elements. */
  lemma StrictArrayReads(name: seq<byte>, ps: seq<Property>, rest: seq<byte>)
    requires AllEncodable(ps) && |ps| < TWO32
    ensures
      ReadValue(10, name, Write32(|ps|) + EncodeProps(ps) + rest) == Ok(Elements(name, ps), 4 + |EncodeProps(ps)|)
  {
    ElementsRead(name, ps, rest);
    Length32(|ps|);
    Read32Write32(|ps|, EncodeProps(ps) + rest);
    Thirds(Write32(|ps|), EncodeProps(ps), rest);
    Halves(Write32(|ps|), EncodeProps(ps) + rest, 0);
    hide Write32, Read32, ReadElements, EncodeProps, Elements, AllEncodable;
  }

  /**
    A marker the reader has no use for is skipped together with its name, but not what belongs to it: reading
    goes on right behind the marker. Marker 9 behind a name ends the object.
   */
  lemma OtherMarkers(name: seq<byte>, t: byte, more: seq<byte>)
    requires 0 < |name| < 0x1_0000 && t !in [0, 1, 2, 3, 8, 10, 11, 12]
    ensures
      Decode(Sized16(name) + [t] + more, true)
      == if t == 9 then Ok([], |name| + 3) else Skipped(Decode(more, true), |name| + 3)
  {
    var d, n := Sized16(name) + [t] + more, 2 + |name|;
    Sized16Is(name);
    Thirds(Sized16(name), [t], more);
    NamedHead(name, [t] + more);
    SameName(d, Sized16(name));
    assert d[n] == t && d[n + 1..] == more;
    hide Sized16, Read24, NameLength, NameAt;
    if t != 9 {
      hide Decode;
      DecodeTakes(d, true, n, name, more, [], 0);
      NothingInFront(Decode(more, true));
    }
  }

  lemma NothingInFront(r: Decoded)
    ensures Followed([], r) == r
  {
    if r.Ok? {
      assert [] + r.props == r.props;
    }
  }

  /** A boolean, number, date or string that is not all there is an error, wherever it is cut off. */
  lemma TruncatedFails(v: Value, name: seq<byte>, d: seq<byte>)
    requires Encodable(v) && !v.Null? && !v.Object? && !v.EcmaArray? && d < Payload(v)
    ensures ReadValue(Tag(v), name, d) == Failed
  {
    if v.Number? || v.Date? {
      Length64(v.bits);
      hide Recode, Decode, Write64, Read64;
    } else if v.Text? {
      hide ReadText, Decode, Recode, EncodeProps, Sized16;
      TruncatedText(v.s, name, d);
    } else if v.LongText? {
      hide ReadLongText, Decode, Recode, EncodeProps, Write32;
      TruncatedLongText(v.s, name, d);
    } else {
      hide Decode, Recode, EncodeProps;
    }
  }

  lemma TruncatedText(s: seq<byte>, name: seq<byte>, d: seq<byte>)
    requires |s| < 0x1_0000 && d < Sized16(s)
    ensures ReadText(d, name) == Failed
  {
    Sized16Is(s);
    hide Sized16, Write16, Read16;
    if |d| >= 2 {
      Read16Write16(|s|, s);
      SameLength(d, Sized16(s));
    }
  }

  lemma TruncatedLongText(s: seq<byte>, name: seq<byte>, d: seq<byte>)
    requires |s| < TWO32 - 4 && d < Write32(|s| % TWO32) + s
    ensures ReadLongText(d, name) == Failed
  {
    Length32(|s|);
    hide Write32, Read32;
    if |d| >= 4 {
      Read32Write32(|s|, s);
      SameLength(d, Write32(|s|) + s);
      assert (|s| + 4) % TWO32 == |s| + 4;
    }
  }

  lemma SameLength(a: seq<byte>, b: seq<byte>)
    requires a <= b
    ensures |a| >= 2 ==> Read16(a) == Read16(b)
    ensures |a| >= 4 ==> Read32(a) == Read32(b)
  {
    assert forall i :: 0 <= i < |a| ==> a[i] == b[i];
  }

  /** No nulls and no ECMA arrays, and every number whole. */
  predicate Faithful(v: Value)
    decreases v
  {
    match v
    case Null => false
    case EcmaArray(_, _) => false
    case Number(bits) => Whole(bits)
    case Date(bits, _) => Whole(bits)
    case Object(props) => AllFaithful(props)
    case _ => true
  }

  predicate AllFaithful(ps: seq<Property>)
    decreases ps
  {
    |ps| == 0 || (Faithful(ps[0].value) && AllFaithful(ps[1..]))
  }

  lemma SeenLength(ps: seq<Property>)
    requires AllEncodable(ps)
    ensures |SeenProps(ps)| <= |ps|
    decreases |ps|
  {
    if |ps| > 0 {
      SeenLength(ps[1..]);
    }
  }

  /** Exactly when an object comes back unchanged. */
  lemma {:induction false} ReadsBackIff(ps: seq<Property>)
    requires AllEncodable(ps)
    ensures SeenProps(ps) == ps <==> AllFaithful(ps)
    decreases ps
  {
    if |ps| > 0 {
      var v := ps[0].value;
      if !v.Null? {
        ValueReadsBackIff(v);
      }
      ReadsBackIff(ps[1..]);
      SeenLength(ps[1..]);
      hide Seen, Faithful, Encodable;
      if v.Null? {
        NullIsUnfaithful();
        assert SeenProps(ps) == SeenProps(ps[1..]);
      } else {
        assert SeenProps(ps)[0] == Property(ps[0].name, Seen(v)) && SeenProps(ps)[1..] == SeenProps(ps[1..]);
        assert ps == [ps[0]] + ps[1..];
      }
    }
  }

  lemma NullIsUnfaithful()
    ensures !Faithful(Null)
  {
  }

  lemma {:induction false} ValueReadsBackIff(v: Value)
    requires Encodable(v) && !v.Null?
    ensures Seen(v) == v <==> Faithful(v)
    decreases v
  {
    hide Recode, Whole, Pow2;
    match v
    case Number(bits) => NumberSurvivesIff(bits);
    case Date(bits, _) => NumberSurvivesIff(bits);
    case Object(props) => ReadsBackIff(props);
    case _ =>
  }

  // ---------------------------------------------------------------------------------------------
  // Empty names
  // ---------------------------------------------------------------------------------------------

  /** As `Encodable`, but the names inside may be empty. */
  predicate Writable(v: Value)
    decreases v
  {
    match v
    case Object(props) => AllWritable(props)
    case EcmaArray(_, props) => AllWritable(props)
    case _ => Encodable(v)
  }

  predicate AllWritable(ps: seq<Property>)
    decreases ps
  {
    |ps| == 0 || (|ps[0].name| < 0x1_0000 && Writable(ps[0].value) && AllWritable(ps[1..]))
  }

  /** Every name has at least one byte, at every depth. */
  predicate Named(v: Value)
    decreases v
  {
    match v
    case Object(props) => AllNamed(props)
    case EcmaArray(_, props) => AllNamed(props)
    case _ => true
  }

  predicate AllNamed(ps: seq<Property>)
    decreases ps
  {
    |ps| == 0 || (0 < |ps[0].name| && Named(ps[0].value) && AllNamed(ps[1..]))
  }

  lemma {:induction false} NamedIsEncodable(ps: seq<Property>)
    ensures AllEncodable(ps) <==> AllWritable(ps) && AllNamed(ps)
    decreases ps
  {
    if |ps| > 0 {
      ValueIsEncodable(ps[0].value);
      NamedIsEncodable(ps[1..]);
    }
  }

  lemma {:induction false} ValueIsEncodable(v: Value)
    ensures Encodable(v) <==> Writable(v) && Named(v)
    decreases v
  {
    if v.Object? || v.EcmaArray? {
      NamedIsEncodable(v.props);
    }
  }

  /** A turn of the loop that does not fail has read a value. */
  lemma TurnReads(d: seq<byte>, named: bool, n: nat)
    requires |d| >= 3 && Read24(d) != 9 && NameLength(d, named) == Some(n) && n < |d| && d[n] != OBJECT_END
    requires Decode(d, named).Ok?
    ensures ReadValue(d[n], NameAt(d, n), d[n + 1..]).Ok?
  {
    hide ReadValue, NameAt, NameLength, Read24, Followed, Skipped;
  }

  /** What one turn of the loop contributes, and where the next begins. */
  lemma OneTurn(d: seq<byte>, named: bool, n: nat)
    requires |d| >= 3 && Read24(d) != 9 && NameLength(d, named) == Some(n) && n < |d| && d[n] != OBJECT_END
    requires Decode(d, named).Ok?
    ensures
      var v := ReadValue(d[n], NameAt(d, n), d[n + 1..]);
      && v.Ok? && Decode(d[n + 1 + v.used..], named).Ok?
      && Decode(d, named).props == v.props + Decode(d[n + 1 + v.used..], named).props
  {
    hide ReadValue, NameAt, NameLength, Read24, Decode;
    TurnReads(d, named, n);
    var v := ReadValue(d[n], NameAt(d, n), d[n + 1..]);
    DecodeTakes(d, named, n, NameAt(d, n), d[n + 1..], v.props, v.used);
    assert d[n + 1..][v.used..] == d[n + 1 + v.used..];
  }

  lemma OkReads(d: seq<byte>, named: bool)
    requires Decode(d, named).Ok?
    ensures |d| < 3 || Read24(d) == 9 ==> Decode(d, named).props == []
    ensures |d| >= 3 && Read24(d) != 9 ==>
      && NameLength(d, named).Some? && NameLength(d, named).value < |d|
      && (d[NameLength(d, named).value] == OBJECT_END ==> Decode(d, named).props == [])
  {
    hide ReadValue, NameAt, NameLength, Read24;
  }

  predicate NoNulls(ps: seq<Property>) {
    forall i :: 0 <= i < |ps| ==> !ps[i].value.Null?
  }

  lemma NoneNull()
    ensures NoNulls([])
  {
  }

  lemma NoNullsAppend(ps: seq<Property>, qs: seq<Property>)
    requires NoNulls(ps) && NoNulls(qs)
    ensures NoNulls(ps + qs)
  {
  }

  lemma NoNullRead(t: byte, name: seq<byte>, d: seq<byte>)
    requires ReadValue(t, name, d).Ok?
    ensures NoNulls(ReadValue(t, name, d).props)
  {
    hide Decode, Recode, Read64, Read32;
    if t == STRICT_ARRAY && |d| >= 4 {
      NoNullElements(Read32(d), name, d[4..]);
    }
  }

  lemma {:induction false} NoNullElements(count: nat, name: seq<byte>, d: seq<byte>)
    requires ReadElements(count, name, d).Ok?
    ensures NoNulls(ReadElements(count, name, d).props)
    decreases count
  {
    hide DecodeOnce;
    if count > 0 {
      NoNullElements(count - 1, name, d[AsObject(DecodeOnce(d), name).used..]);
    }
  }

  /** A reader makes no nulls. */
  lemma {:induction false} NeverNull(d: seq<byte>, named: bool)
    requires Decode(d, named).Ok?
    ensures NoNulls(Decode(d, named).props)
    decreases |d|
  {
    hide ReadValue, NameAt, NameLength, Read24, Decode, NoNulls;
    OkReads(d, named);
    NoneNull();
    if |d| >= 3 && Read24(d) != 9 {
      var n := NameLength(d, named).value;
      if d[n] != OBJECT_END {
        OneTurn(d, named, n);
        var v := ReadValue(d[n], NameAt(d, n), d[n + 1..]);
        NoNullRead(d[n], NameAt(d, n), d[n + 1..]);
        NeverNull(d[n + 1 + v.used..], named);
        NoNullsAppend(v.props, Decode(d[n + 1 + v.used..], named).props);
      }
    }
  }

  function Zeros(n: nat): seq<byte> {
    seq(n, _ => 0)
  }

  /** The reader would take the object for the one that was written. */
  predicate ReadAs(d: seq<byte>, ps: seq<Property>) {
    Decode(d, true).Ok? && Decode(d, true).props == ps
  }

  /** The bytes of an object, `n` pairs of zeros too early. */
  function Late(n: nat, qs: seq<Property>, rest: seq<byte>): seq<byte> {
    Zeros(2 * n) + (EncodeProps(qs) + END + rest)
  }

  /**
    An empty name is not skipped: its length is taken for the marker of a number, and from there on the
    reader lags behind. It never makes up for it.
   */
  lemma {:induction false} LagsBehind(n: nat, qs: seq<Property>, rest: seq<byte>)
    requires AllWritable(qs) && (n > 0 || (|qs| > 0 && qs[0].name == []))
    ensures !ReadAs(Late(n, qs, rest), qs)
    decreases |qs|
  {
    var d := Late(n, qs, rest);
    if ReadAs(d, qs) {
      LateHead(n, qs, rest);
      if Read24(d) != 9 {
        hide Decode, Late, ReadAs;
        ReadsZero(d, qs);
        LateNext(n, qs, rest);
        LagsBehind(n + 1, qs[1..], rest);
      }
    }
  }

  /** Either way a zero is in front, and an end marker cannot follow at once. */
  lemma LateHead(n: nat, qs: seq<Property>, rest: seq<byte>)
    requires AllWritable(qs) && (n > 0 || (|qs| > 0 && qs[0].name == []))
    ensures
      var d := Late(n, qs, rest);
      && |d| >= 3 && d[0] == d[1] == 0 && NameLength(d, true) == Some(0) && (|qs| == 0 ==> Read24(d) != 9)
      && (|qs| > 0 && qs[0].name == [] && qs[0].value.Number? ==> d[2] == 0)
  {
    hide Payload, Writable, AllWritable;
    var d := Late(n, qs, rest);
    if |qs| > 0 {
      var body := Sized16(qs[0].name) + ([Tag(qs[0].value)] + Payload(qs[0].value));
      assert EncodeProps(qs) == body + EncodeProps(qs[1..]);
      assert |body| >= 3 && (EncodeProps(qs) + END + rest)[..3] == body[..3];
      assert body[..3] == (EncodeProps(qs) + END + rest)[..3];
      assert forall i :: 0 <= i < 3 ==> (EncodeProps(qs) + END + rest)[i] == body[i];
    }
  }

  /** What is read there is the number zero, without a name; if that is right, the value was that. */
  lemma ReadsZero(d: seq<byte>, qs: seq<Property>)
    requires |d| >= 3 && d[0] == d[1] == 0 && Read24(d) != 9 && NameLength(d, true) == Some(0) && ReadAs(d, qs)
    requires |qs| > 0 && qs[0].name == [] && qs[0].value.Number? ==> d[2] == 0
    ensures |d| >= 9 && |qs| > 0 && qs[0] == Property([], Number(0)) && ReadAs(d[9..], qs[1..])
  {
    hide Decode, Read24, NameLength, Recode;
    OneTurn(d, true, 0);
    assert ReadValue(d[0], NameAt(d, 0), d[1..]) == ReadNumber(d[1..], []);
    assert qs[0].name == [] && qs[0].value.Number?;
    TinyIsZero(d[1..]);
  }

  lemma TinyIsZero(d: seq<byte>)
    requires |d| >= 8 && d[0] == d[1] == 0
    ensures Recode(Read64(d)) == Some(0)
  {
  }

  lemma LateNext(n: nat, qs: seq<Property>, rest: seq<byte>)
    requires |qs| > 0 && qs[0] == Property([], Number(0))
    ensures |Late(n, qs, rest)| >= 9 && Late(n, qs, rest)[9..] == Late(n + 1, qs[1..], rest)
  {
    assert Sized16([]) + ([Tag(Number(0))] + Payload(Number(0))) == Zeros(11);
    hide Sized16, Payload;
    assert Zeros(2 * n) + Zeros(11) == Zeros(9) + Zeros(2 * (n + 1));
    Assoc4(Zeros(11), EncodeProps(qs[1..]), END, rest);
    var more := EncodeProps(qs[1..]) + END + rest;
    assert Zeros(2 * n) + (Zeros(11) + more) == Zeros(9) + (Zeros(2 * (n + 1)) + more);
  }

  /** An object with an empty name, at any depth, is never read as it was written. */
  lemma {:induction false} Misread(ps: seq<Property>, rest: seq<byte>)
    requires AllWritable(ps) && !AllNamed(ps)
    ensures !ReadAs(EncodeProps(ps) + END + rest, ps)
    decreases ps
  {
    var d := EncodeProps(ps) + END + rest;
    hide ReadAs, Decode, EncodeProps;
    if ps[0].name == [] {
      LagsBehind(0, ps, rest);
      assert Zeros(0) + d == d;
    } else {
      var v, more := ps[0].value, EncodeProps(ps[1..]) + END + rest;
      HeadOf(ps, rest);
      if Named(v) {
        Misread(ps[1..], rest);
        ValueIsEncodable(v);
        MisreadTail(ps, rest);
      } else {
        Misread(v.props, more);
        MisreadHead(ps, rest);
      }
    }
  }

  lemma HeadOf(ps: seq<Property>, rest: seq<byte>)
    requires |ps| > 0
    ensures
      EncodeProps(ps) + END + rest
      == Sized16(ps[0].name) + ([Tag(ps[0].value)] + Payload(ps[0].value)) + (EncodeProps(ps[1..]) + END + rest)
  {
    var one := Sized16(ps[0].name) + ([Tag(ps[0].value)] + Payload(ps[0].value));
    hide Sized16, Payload, Tag;
    Assoc4(one, EncodeProps(ps[1..]), END, rest);
  }

  /** The first property is read; what follows it is not read as it was written. */
  lemma MisreadTail(ps: seq<Property>, rest: seq<byte>)
    requires AllWritable(ps) && |ps| > 0 && |ps[0].name| > 0 && Encodable(ps[0].value)
    requires !ReadAs(EncodeProps(ps[1..]) + END + rest, ps[1..])
    ensures !ReadAs(EncodeProps(ps) + END + rest, ps)
  {
    var v, name, more := ps[0].value, ps[0].name, EncodeProps(ps[1..]) + END + rest;
    hide ReadValue, Decode, EncodeProps, Encodable, Seen, Payload, Sized16, Tag;
    HeadOf(ps, rest);
    ValueReads(v, name, more);
    PropReads(name, v, more);
    if Decode(more, true).Ok? {
      NeverNull(more, true);
      if v.Null? {
        assert SeenAs(name, v) + Decode(more, true).props == Decode(more, true).props;
        assert ps[0] in ps;
      } else {
        assert ps == [ps[0]] + ps[1..];
      }
    }
  }

  /** The object inside the first property is not read as it was written. */
  lemma MisreadHead(ps: seq<Property>, rest: seq<byte>)
    requires AllWritable(ps) && |ps| > 0 && |ps[0].name| > 0 && (ps[0].value.Object? || ps[0].value.EcmaArray?)
    requires !ReadAs(EncodeProps(ps[0].value.props) + END + (EncodeProps(ps[1..]) + END + rest), ps[0].value.props)
    ensures !ReadAs(EncodeProps(ps) + END + rest, ps)
  {
    var v, name, more := ps[0].value, ps[0].name, EncodeProps(ps[1..]) + END + rest;
    var d, n := EncodeProps(ps) + END + rest, |Sized16(name)|;
    hide Decode, EncodeProps, Sized16, AllWritable, Read24, NameLength, NameAt;
    HeadOf(ps, rest);
    NamedAt(name, v, more);
    InsideMisread(v, name, more);
    if ReadAs(d, ps) {
      OneTurn(d, true, n);
    }
  }

  lemma InsideMisread(v: Value, name: seq<byte>, more: seq<byte>)
    requires v.Object? || v.EcmaArray?
    requires !ReadAs(EncodeProps(v.props) + END + more, v.props)
    ensures
      var r := ReadValue(Tag(v), name, Payload(v) + more);
      r.Ok? ==> |r.props| == 1 && r.props[0] != Property(name, v)
  {
    hide Decode, EncodeProps, Write32;
    if v.Object? {
      assert Payload(v) + more == EncodeProps(v.props) + END + more;
    } else {
      Length32(v.count);
    }
  }

  /**
    Exactly when an object comes back as it was written, whatever follows it: every name has at least one
    byte, nothing is null or an ECMA array, and every number is whole; all that at every depth.
   */
  lemma RoundTripIff(ps: seq<Property>, rest: seq<byte>)
    requires AllWritable(ps)
    ensures ReadAs(EncodeProps(ps) + END + rest, ps) <==> AllNamed(ps) && AllFaithful(ps)
  {
    hide Decode, EncodeProps, Encodable;
    NamedIsEncodable(ps);
    if AllNamed(ps) {
      PropsRead(ps, rest);
      ReadsBackIff(ps);
    } else {
      Misread(ps, rest);
    }
  }
}
