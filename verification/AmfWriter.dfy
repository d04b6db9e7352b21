/** `AMFAny`'s encoders, writing through a moving position into a packet, and the connect command built by them. */
module AmfWriters {
  import opened Bytes
  import opened Doubles
  import opened Amf
  import opened AmfCommands
  import opened Sequences

  /** `memcpy` to position `at`; everything around it stays. */
  method Copy(out: array<byte>, at: nat, data: seq<byte>) returns (n: nat)
    requires at + |data| <= out.Length
    modifies out
    ensures n == |data| && out[..at + n] == old(out[..at]) + data && out[at + n..] == old(out[at + n..])
  {
    forall i | 0 <= i < |data| {
      out[at + i] := data[i];
    }
    n := |data|;
  }

  method EncodeName(out: array<byte>, at: nat, name: seq<byte>) returns (n: nat)
    requires at + 2 + |name| <= out.Length
    modifies out
    ensures n == 2 + |name| && out[..at + n] == old(out[..at]) + Sized16(name) && out[at + n..] == old(out[at + n..])
  {
    hide Write16;
    ghost var was := out[..at];
    TwoBytes(|name| % 0x1_0000);
    var p := Copy(out, at, Write16(|name| % 0x1_0000));
    ghost var rest := out[at + p..];
    n := Copy(out, at + p, name);
    assert out[at + p + n..] == rest[n..];
    assert was + Write16(|name| % 0x1_0000) + name == was + Sized16(name);
    n := p + n;
  }

  lemma TwoBytes(n: uint16)
    ensures |Write16(n)| == 2
  {
  }

  /** A value without parts: the marker, then its payload. */
  method EncodeScalar(out: array<byte>, at: nat, v: Value) returns (n: nat)
    requires (v.Text? || v.Number? || v.Boolean?) && at + |Encode(v)| <= out.Length
    modifies out
    ensures n == |Encode(v)| && out[..at + n] == old(out[..at]) + Encode(v) && out[at + n..] == old(out[at + n..])
  {
    hide Payload;
    ghost var was := out[..at];
    var p := Copy(out, at, [Tag(v)]);
    ghost var rest := out[at + p..];
    n := Copy(out, at + p, Payload(v));
    assert out[at + p + n..] == rest[n..];
    assert was + [Tag(v)] + Payload(v) == was + Encode(v);
    n := p + n;
  }

  /** `EncodeNamedString`, `EncodeNamedNumber` and `EncodeNamedBoolean`: the name, then the value. */
  method EncodeNamed(out: array<byte>, at: nat, name: seq<byte>, v: Value) returns (n: nat)
    requires (v.Text? || v.Number? || v.Boolean?) && at + 2 + |name| + |Encode(v)| <= out.Length
    modifies out
    ensures n == 2 + |name| + |Encode(v)|
    ensures out[..at + n] == old(out[..at]) + (Sized16(name) + Encode(v)) && out[at + n..] == old(out[at + n..])
  {
    hide Encode, Sized16;
    ghost var was := out[..at];
    var p := EncodeName(out, at, name);
    ghost var rest := out[at + p..];
    n := EncodeScalar(out, at + p, v);
    assert out[at + p + n..] == rest[n..];
    assert was + Sized16(name) + Encode(v) == was + (Sized16(name) + Encode(v));
    n := p + n;
  }

  lemma {:induction false} PropsSnoc(ps: seq<Property>, i: nat)
    requires i < |ps|
    ensures EncodeProps(ps[..i + 1]) == EncodeProps(ps[..i]) + (Sized16(ps[i].name) + Encode(ps[i].value))
    decreases i
  {
    hide Sized16, Payload, Tag;
    if i == 0 {
      assert EncodeProps(ps[..1][1..]) == [];
    } else {
      PropsSnoc(ps[1..], i - 1);
      assert ps[..i + 1][1..] == ps[1..][..i] && ps[..i][1..] == ps[1..][..i - 1];
      var head := Sized16(ps[0].name) + ([Tag(ps[0].value)] + Payload(ps[0].value));
      Assoc3(head, EncodeProps(ps[1..][..i - 1]), Sized16(ps[i].name) + Encode(ps[i].value));
    }
  }

  /** The next named value of an object, number `i` of `ps`. */
  method EncodeNext(out: array<byte>, at: nat, ps: seq<Property>, i: nat, ghost before: seq<byte>) returns (p: nat)
    requires i < |ps| && (ps[i].value.Text? || ps[i].value.Number? || ps[i].value.Boolean?)
    requires at + LengthFrom(ps, i) <= out.Length && out[..at] == before + EncodeProps(ps[..i])
    modifies out
    ensures p + LengthFrom(ps, i + 1) == at + LengthFrom(ps, i)
    ensures p <= out.Length && out[..p] == before + EncodeProps(ps[..i + 1])
  {
    hide EncodeProps, Sized16, Payload;
    var n := EncodeNamed(out, at, ps[i].name, ps[i].value);
    PropsSnoc(ps, i);
    Assoc3(before, EncodeProps(ps[..i]), Sized16(ps[i].name) + Encode(ps[i].value));
    p := at + n;
  }

  /** The named values of an object; the source spells these calls out one after the other. */
  method WriteNamedValues(out: array<byte>, at: nat, ps: seq<Property>) returns (p: nat)
    requires forall v :: v in ps ==> v.value.Text? || v.value.Number? || v.value.Boolean?
    requires at + LengthFrom(ps, 0) <= out.Length
    modifies out
    ensures p == at + LengthFrom(ps, 0) && out[..p] == old(out[..at]) + EncodeProps(ps)
  {
    ghost var before := out[..at];
    p := at;
    assert before == before + [] && EncodeProps(ps[..0]) == [] && LengthFrom(ps, |ps|) == 0;
    hide EncodeProps, LengthFrom;
    for i := 0 to |ps|
      invariant p + LengthFrom(ps, i) == at + LengthFrom(ps, 0)
      invariant p <= out.Length && out[..p] == before + EncodeProps(ps[..i])
    {
      assert ps[i] in ps;
      p := EncodeNext(out, p, ps, i, before);
    }
    assert ps[..|ps|] == ps;
  }

  lemma ConnectObjectIs(app: seq<byte>, tcUrl: seq<byte>)
    ensures
      var ps := ConnectObject(app, tcUrl);
      && LengthFrom(ps, 0) == 117 + |app| + |tcUrl|
      && forall v :: v in ps ==> v.value.Text? || v.value.Number? || v.value.Boolean?
  {
    hide Ascii, Double, EncodeProps, LengthFrom;
    ConnectObjectLength(app, tcUrl);
    assert ConnectObject(app, tcUrl)[0..] == ConnectObject(app, tcUrl);
    LengthIs(ConnectObject(app, tcUrl), 0);
  }

  /** The name of the command, the transaction number and the marker of the command object. */
  method WriteHead(out: array<byte>, name: Value, transaction: Value) returns (p: nat)
    requires name.Text? && transaction.Number? && |Encode(name)| + |Encode(transaction)| + 1 <= out.Length
    modifies out
    ensures p == |Encode(name)| + |Encode(transaction)| + 1
    ensures out[..p] == Encode(name) + Encode(transaction) + [OBJECT]
  {
    hide Encode;
    p := EncodeScalar(out, 0, name);
    var n := EncodeScalar(out, p, transaction);
    p := p + n;
    n := Copy(out, p, [OBJECT]);
    p := p + n;
  }

  /** A command with one object: its name, the transaction number, and the object between its markers. */
  method WriteCommand(out: array<byte>, name: Value, transaction: Value, ps: seq<Property>) returns (p: nat)
    requires name.Text? && transaction.Number?
    requires forall v :: v in ps ==> v.value.Text? || v.value.Number? || v.value.Boolean?
    requires |Encode(name)| + |Encode(transaction)| + LengthFrom(ps, 0) + 4 <= out.Length
    modifies out
    ensures p <= out.Length && out[..p] == EncodeAll([name, transaction, Object(ps)])
  {
    hide EncodeAll, Encode, EncodeProps, LengthFrom;
    Commanded(name, transaction, ps);
    p := WriteHead(out, name, transaction);
    p := WriteNamedValues(out, p, ps);
    var n := Copy(out, p, END);
    p := p + n;
  }

  /** The body of the connect command, as `SendConnect` writes it. The packet must have room for it. */
  method WriteConnect(out: array<byte>, app: seq<byte>, tcUrl: seq<byte>) returns (p: nat)
    requires out.Length == PACKET_CAPACITY && |app| + |tcUrl| <= 884
    modifies out
    ensures p <= out.Length && out[..p] == EncodeAll(Connect(app, tcUrl))
  {
    Lengths(Ascii("connect"), Double(1), false);
    ConnectObjectIs(app, tcUrl);
    hide Ascii, Double, ConnectObject, Payload, EncodeAll, LengthFrom;
    p := WriteCommand(out, Text(Ascii("connect")), Number(Double(1)), ConnectObject(app, tcUrl));
  }

  lemma Commanded(a: Value, b: Value, ps: seq<Property>)
    ensures EncodeAll([a, b, Object(ps)]) == Encode(a) + Encode(b) + [OBJECT] + EncodeProps(ps) + END
  {
    assert Encode(Object(ps)) == [OBJECT] + (EncodeProps(ps) + END);
    hide Encode, EncodeProps;
    ThreeEncoded(a, b, Object(ps));
    Chain(Encode(a), Encode(b), [OBJECT], EncodeProps(ps), END);
  }

  lemma ThreeEncoded(a: Value, b: Value, c: Value)
    ensures EncodeAll([a, b, c]) == Encode(a) + (Encode(b) + (Encode(c) + []))
  {
    hide Encode;
    var vs := [a, b, c];
    assert vs[1..] == [b, c] && [b, c][1..] == [c] && [c][1..] == [];
    assert EncodeAll([c]) == Encode(c) + EncodeAll([]);
    assert EncodeAll([b, c]) == Encode(b) + EncodeAll([c]);
  }

  lemma Chain(a: seq<byte>, b: seq<byte>, c: seq<byte>, d: seq<byte>, e: seq<byte>)
    ensures a + (b + ((c + (d + e)) + [])) == a + b + c + d + e
  {
  }
}
