/** Commands: values without names, as `HandleAmfCommand` decodes them, and the connect command in particular. */
module AmfCommands {
  import opened Bytes
  import opened Doubles
  import opened Amf
  import opened AmfRoundTrip
  import opened Sequences
  import opened Wrappers

  // ---------------------------------------------------------------------------------------------
  // Values one after the other
  // ---------------------------------------------------------------------------------------------

  /** A number that begins with 00 09: with its marker, the bytes of an end marker. */
  predicate LooksLikeEnd(v: Value) {
    v.Number? && v.bits / 0x1_0000_0000_0000 == 9
  }

  predicate AllReadable(vs: seq<Value>) {
    forall i :: 0 <= i < |vs| ==> Encodable(vs[i])
  }

  predicate NoneLooksLikeEnd(vs: seq<Value>) {
    forall i :: 0 <= i < |vs| ==> !LooksLikeEnd(vs[i])
  }

  function SeenAll(vs: seq<Value>): seq<Property>
    requires AllReadable(vs)
  {
    if |vs| == 0 then [] else SeenAs([], vs[0]) + SeenAll(vs[1..])
  }

  /** The values in front of the first one that looks like an end marker. */
  function Before(vs: seq<Value>): (ks: seq<Value>)
    ensures ks <= vs
  {
    if |vs| == 0 || LooksLikeEnd(vs[0]) then [] else [vs[0]] + Before(vs[1..])
  }

  /** The values the loop in `Decode` reads: it also stops when fewer than three bytes are left. */
  function Kept(vs: seq<Value>): (ks: seq<Value>)
    ensures ks <= vs
  {
    if |EncodeAll(vs)| < 3 || |vs| == 0 || LooksLikeEnd(vs[0]) then [] else [vs[0]] + Kept(vs[1..])
  }

  /** The bytes it uses: those of the values read, and three more where it stops at a false end marker. */
  function Used(vs: seq<Value>): nat {
    var k := |Kept(vs)|;
    |EncodeAll(Kept(vs))| + if k < |vs| && LooksLikeEnd(vs[k]) then 3 else 0
  }

  /** Only nulls and booleans take fewer than three bytes. */
  lemma EncodedLength(v: Value)
    requires Encodable(v)
    ensures |Encode(v)| >= 1 && (|Encode(v)| < 3 <==> v.Null? || v.Boolean?) && (v.Boolean? ==> |Encode(v)| == 2)
  {
  }

  lemma EndMarkerIff(v: Value, more: seq<byte>)
    requires Encodable(v) && |Encode(v) + more| >= 3
    ensures Read24(Encode(v) + more) == 9 <==> LooksLikeEnd(v)
  {
    var d := Encode(v) + more;
    assert d[0] == Tag(v);
    if v.Number? {
      hide Pow2, Recode;
      var w := Write64(v.bits);
      assert d[1] == w[0] && d[2] == w[1];
      LeadingBytes(v.bits);
    }
  }

  lemma LeadingBytes(n: uint64)
    ensures Write64(n)[0] as int * 0x100 + Write64(n)[1] == n / 0x1_0000_0000_0000
  {
    var h := n / TWO32;
    assert Write64(n)[0] == Write32(h)[0] && Write64(n)[1] == Write32(h)[1];
    assert n / 0x1_0000_0000_0000 == h / 0x1_0000;
    assert h / 0x1_0000 == h / 0x100 / 0x100;
  }

  lemma NoEndMarker(v: Value, d: seq<byte>)
    ensures Tag(v) != OBJECT_END && NameAt(d, 0) == []
  {
  }

  /** One value, in front of whatever follows it. */
  lemma ValueInFront(v: Value, more: seq<byte>)
    requires Encodable(v) && !LooksLikeEnd(v) && |Encode(v) + more| >= 3
    ensures
      Decode(Encode(v) + more, false) == Skipped(Followed(SeenAs([], v), Decode(more, false)), |Encode(v)|)
  {
    hide ReadValue, Payload, Decode, Encodable, SeenAs, Read24, Followed, Skipped, Tag, NameAt;
    EndMarkerIff(v, more);
    NoEndMarker(v, Encode(v) + more);
    ValueReads(v, [], more);
    Front(Tag(v), Payload(v), more);
    DecodeTakes(Encode(v) + more, false, 0, [], Payload(v) + more, SeenAs([], v), |Payload(v)|);
  }

  lemma Front(t: byte, p: seq<byte>, more: seq<byte>)
    ensures
      var d := [t] + p + more;
      d[0] == t && d[1..] == p + more && (p + more)[|p|..] == more
  {
  }

  lemma FalseEnd(v: Value, more: seq<byte>)
    requires Encodable(v) && LooksLikeEnd(v)
    ensures Decode(Encode(v) + more, false) == Ok([], 3)
  {
    hide Recode, Read24, Write64;
    EncodedLength(v);
    EndMarkerIff(v, more);
  }

  /** A command is read as far as the loop goes, value by value, each property without a name. */
  lemma {:induction false} CommandReads(vs: seq<Value>)
    requires AllReadable(vs)
    ensures Decode(EncodeAll(vs), false) == Ok(SeenAll(Kept(vs)), Used(vs))
    decreases |vs|
  {
    hide Decode, Encode, Encodable, SeenAs, LooksLikeEnd;
    if |vs| > 0 && LooksLikeEnd(vs[0]) {
      FalseEnd(vs[0], EncodeAll(vs[1..]));
      EncodedLength(vs[0]);
      assert |EncodeAll(vs)| >= 3 && !vs[0].Null? && !vs[0].Boolean? by { NumberEnds(vs[0]); }
    } else if |EncodeAll(vs)| < 3 || |vs| == 0 {
      ShortCommand(vs);
    } else {
      CommandReads(vs[1..]);
      ValueInFront(vs[0], EncodeAll(vs[1..]));
      KeptUnfolds(vs);
    }
  }

  lemma NumberEnds(v: Value)
    requires LooksLikeEnd(v)
    ensures !v.Null? && !v.Boolean?
  {
  }

  lemma KeptUnfolds(vs: seq<Value>)
    requires |vs| > 0 && |EncodeAll(vs)| >= 3 && !LooksLikeEnd(vs[0])
    ensures Kept(vs) == [vs[0]] + Kept(vs[1..]) && Used(vs) == |Encode(vs[0])| + Used(vs[1..])
  {
    hide Encode, LooksLikeEnd;
    var ks := Kept(vs);
    assert ks[0] == vs[0] && ks[1..] == Kept(vs[1..]);
    assert forall k :: 0 < k < |vs| ==> vs[k] == vs[1..][k - 1];
  }

  /** Fewer than three bytes: nothing is looked at. */
  lemma {:induction false} ShortCommand(vs: seq<Value>)
    requires AllReadable(vs) && |EncodeAll(vs)| < 3
    ensures Kept(vs) == [] && Used(vs) == 0 && NoneLooksLikeEnd(vs) && Decode(EncodeAll(vs), false) == Ok([], 0)
    decreases |vs|
  {
    hide Encode, Encodable;
    if |vs| > 0 {
      EncodedLength(vs[0]);
      ShortCommand(vs[1..]);
      assert forall k :: 0 < k < |vs| ==> vs[k] == vs[1..][k - 1];
    }
  }

  /** With an end marker behind it, a command is read up to its first false end marker, or to the true one. */
  lemma {:induction false} TerminatedCommandReads(vs: seq<Value>, rest: seq<byte>)
    requires AllReadable(vs)
    ensures Decode(EncodeAll(vs) + END + rest, false) == Ok(SeenAll(Before(vs)), |EncodeAll(Before(vs))| + 3)
    decreases |vs|
  {
    if |vs| == 0 {
      assert EncodeAll(vs) + END + rest == END + rest;
    } else {
      var more := EncodeAll(vs[1..]) + END + rest;
      assert EncodeAll(vs) == Encode(vs[0]) + EncodeAll(vs[1..]);
      hide Decode, Encode, Encodable, SeenAs, LooksLikeEnd;
      Assoc4(Encode(vs[0]), EncodeAll(vs[1..]), END, rest);
      if LooksLikeEnd(vs[0]) {
        FalseEnd(vs[0], more);
      } else {
        TerminatedCommandReads(vs[1..], rest);
        ValueInFront(vs[0], more);
        BeforeUnfolds(vs);
      }
    }
  }

  lemma BeforeUnfolds(vs: seq<Value>)
    requires |vs| > 0 && !LooksLikeEnd(vs[0])
    ensures Before(vs) == [vs[0]] + Before(vs[1..]) && Before(vs)[0] == vs[0] && Before(vs)[1..] == Before(vs[1..])
  {
  }

  /** With an end marker, a property is lost exactly if some number begins with 00 09. */
  lemma {:induction false} TerminatedLosesIff(vs: seq<Value>)
    requires AllReadable(vs)
    ensures SeenAll(Before(vs)) == SeenAll(vs) <==> NoneLooksLikeEnd(vs)
    decreases |vs|
  {
    hide Encodable, SeenAs, LooksLikeEnd;
    if |vs| > 0 {
      if LooksLikeEnd(vs[0]) {
        NumberIsSeen(vs[0]);
        assert |SeenAll(vs)| > 0;
      } else {
        TerminatedLosesIff(vs[1..]);
        BeforeUnfolds(vs);
        Cancel(SeenAs([], vs[0]), SeenAll(Before(vs[1..])), SeenAll(vs[1..]));
        assert forall k :: 0 < k < |vs| ==> vs[k] == vs[1..][k - 1];
      }
    }
  }

  lemma NumberIsSeen(v: Value)
    requires Encodable(v) && LooksLikeEnd(v)
    ensures |SeenAs([], v)| == 1 && |Encode(v)| == 9
  {
    hide Recode, Pow2;
  }

  /**
    Without an end marker, exactly the commands lose a property that hold a number beginning with 00 09,
    which is taken for the end marker, or end in a boolean, whose two bytes are fewer than the loop wants.
   */
  lemma {:induction false} NothingLostIff(vs: seq<Value>)
    requires AllReadable(vs)
    ensures SeenAll(Kept(vs)) == SeenAll(vs) <==> NoneLooksLikeEnd(vs) && (|vs| == 0 || !vs[|vs| - 1].Boolean?)
    decreases |vs|
  {
    hide EncodeAll, Kept, SeenAs, Encodable, Encode, LooksLikeEnd, NoneLooksLikeEnd;
    if |vs| == 0 {
      assert NoneLooksLikeEnd(vs) by { NoneOfNone(); }
    } else if |EncodeAll(vs)| < 3 {
      ShortCommand(vs);
      FewBytes(vs);
    } else if LooksLikeEnd(vs[0]) {
      LostAtOnce(vs);
    } else {
      KeptHead(vs);
      NoneUnfolds(vs);
      NothingLostIff(vs[1..]);
      Cancel(SeenAs([], vs[0]), SeenAll(Kept(vs[1..])), SeenAll(vs[1..]));
      if |vs| == 1 {
        LastTakesThree(vs);
      }
    }
  }

  lemma LostAtOnce(vs: seq<Value>)
    requires AllReadable(vs) && |vs| > 0 && LooksLikeEnd(vs[0])
    ensures SeenAll(Kept(vs)) == [] && |SeenAll(vs)| > 0 && !NoneLooksLikeEnd(vs)
  {
    hide SeenAs, Encodable;
    NumberIsSeen(vs[0]);
  }

  lemma NoneOfNone()
    ensures NoneLooksLikeEnd([])
  {
  }

  lemma NoneUnfolds(vs: seq<Value>)
    requires |vs| > 0
    ensures NoneLooksLikeEnd(vs) <==> !LooksLikeEnd(vs[0]) && NoneLooksLikeEnd(vs[1..])
  {
    assert forall k :: 0 < k < |vs| ==> vs[k] == vs[1..][k - 1];
  }

  lemma LastTakesThree(vs: seq<Value>)
    requires AllReadable(vs) && |vs| == 1 && |EncodeAll(vs)| >= 3
    ensures !vs[0].Boolean?
  {
    EncodedLength(vs[0]);
    assert EncodeAll(vs) == Encode(vs[0]) + [];
  }

  lemma KeptHead(vs: seq<Value>)
    requires AllReadable(vs) && |vs| > 0 && |EncodeAll(vs)| >= 3 && !LooksLikeEnd(vs[0])
    ensures
      && SeenAll(Kept(vs)) == SeenAs([], vs[0]) + SeenAll(Kept(vs[1..]))
      && SeenAll(vs) == SeenAs([], vs[0]) + SeenAll(vs[1..])
  {
    hide EncodeAll, SeenAs, Encodable;
    KeptUnfolds(vs);
  }

  /** Fewer than three bytes are one boolean, or at most two nulls. */
  lemma {:induction false} FewBytes(vs: seq<Value>)
    requires AllReadable(vs) && 0 < |vs| && |EncodeAll(vs)| < 3
    ensures SeenAll(vs) == [] <==> !vs[|vs| - 1].Boolean?
    decreases |vs|
  {
    EncodedLength(vs[0]);
    if |vs| > 1 {
      EncodedLength(vs[1]);
      assert |EncodeAll(vs[1..])| >= |Encode(vs[1])|;
      FewBytes(vs[1..]);
    } else {
      assert SeenAll(vs[1..]) == [];
    }
  }

  predicate AllWritten(vs: seq<Value>) {
    forall i :: 0 <= i < |vs| ==> Writable(vs[i])
  }

  /** The values as properties without names. */
  function Nameless(vs: seq<Value>): seq<Property> {
    if |vs| == 0 then [] else [Property([], vs[0])] + Nameless(vs[1..])
  }

  /** No false end marker, no name or null or number that does not come back, and no boolean at the end. */
  predicate Safe(vs: seq<Value>) {
    && (forall i :: 0 <= i < |vs| ==> !LooksLikeEnd(vs[i]) && Named(vs[i]) && Faithful(vs[i]))
    && (|vs| == 0 || !vs[|vs| - 1].Boolean?)
  }

  predicate CommandReadAs(d: seq<byte>, vs: seq<Value>) {
    Decode(d, false).Ok? && Decode(d, false).props == Nameless(vs)
  }

  /** Exactly when a command without an end marker is read as it was written. */
  lemma {:induction false} CommandRoundTripIff(vs: seq<Value>)
    requires AllWritten(vs)
    ensures CommandReadAs(EncodeAll(vs), vs) <==> Safe(vs)
    decreases |vs|
  {
    hide CommandReadAs, Encode, EncodeAll, Safe, LooksLikeEnd, Writable, Faithful, Nameless, Decode;
    if |vs| == 0 {
      NoBytes();
      ShortIff(vs);
    } else if |EncodeAll(vs)| < 3 {
      ShortIff(vs);
    } else if LooksLikeEnd(vs[0]) {
      FalseEndMisread(vs);
    } else if !Named(vs[0]) {
      UnnamedMisread(vs);
    } else {
      CommandRoundTripIff(vs[1..]);
      ValueIsEncodable(vs[0]);
      HeadIff(vs);
    }
  }

  lemma NoBytes()
    ensures EncodeAll([]) == []
  {
  }

  lemma ShortIff(vs: seq<Value>)
    requires AllWritten(vs) && |EncodeAll(vs)| < 3
    ensures CommandReadAs(EncodeAll(vs), vs) <==> Safe(vs)
  {
    hide Encode, Encodable;
    if |vs| > 0 {
      assert |Nameless(vs)| > 0;
      WrittenLength(vs[0]);
      if |vs| > 1 {
        WrittenLength(vs[1]);
        assert |EncodeAll(vs[1..])| >= |Encode(vs[1])|;
      }
    }
  }

  lemma WrittenLength(v: Value)
    requires Writable(v)
    ensures |Encode(v)| >= 1 && (|Encode(v)| < 3 <==> v.Null? || v.Boolean?) && (v.Boolean? ==> |Encode(v)| == 2)
    ensures v.Null? ==> !Faithful(v)
  {
  }

  lemma FalseEndMisread(vs: seq<Value>)
    requires AllWritten(vs) && |vs| > 0 && LooksLikeEnd(vs[0])
    ensures !CommandReadAs(EncodeAll(vs), vs) && !Safe(vs)
  {
    hide Decode, Encode, LooksLikeEnd, Encodable;
    assert Encodable(vs[0]) by { NumberWritable(vs[0]); }
    FalseEnd(vs[0], EncodeAll(vs[1..]));
  }

  lemma NumberWritable(v: Value)
    requires Writable(v) && LooksLikeEnd(v)
    ensures Encodable(v)
  {
  }

  /** The object inside is not read as it was written, so the command is not. */
  lemma UnnamedMisread(vs: seq<Value>)
    requires AllWritten(vs) && |vs| > 0 && |EncodeAll(vs)| >= 3 && !LooksLikeEnd(vs[0]) && !Named(vs[0])
    ensures !CommandReadAs(EncodeAll(vs), vs) && !Safe(vs)
  {
    var v, more := vs[0], EncodeAll(vs[1..]);
    var d := Encode(v) + more;
    Misread(v.props, more);
    InsideMisread(v, [], more);
    hide Decode, Payload, ReadValue, Read24, NameAt;
    ContainerHead(v, more);
    if CommandReadAs(d, vs) {
      OneTurn(d, false, 0);
      assert Nameless(vs)[0] == Property([], v);
    }
  }

  lemma ContainerHead(v: Value, more: seq<byte>)
    requires (v.Object? || v.EcmaArray?) && |Encode(v) + more| >= 3
    ensures
      var d := Encode(v) + more;
      && Read24(d) != 9 && d[0] == Tag(v) != OBJECT_END && d[1..] == Payload(v) + more && NameAt(d, 0) == []
  {
    hide Payload;
    Front(Tag(v), Payload(v), more);
  }

  /** The first value is read; it is right if it is faithful, and then all depends on the others. */
  lemma HeadIff(vs: seq<Value>)
    requires |vs| > 0 && |EncodeAll(vs)| >= 3 && Encodable(vs[0]) && !LooksLikeEnd(vs[0])
    requires CommandReadAs(EncodeAll(vs[1..]), vs[1..]) <==> Safe(vs[1..])
    ensures CommandReadAs(EncodeAll(vs), vs) <==> Safe(vs)
  {
    var v, more := vs[0], EncodeAll(vs[1..]);
    hide Decode, Encode, Encodable, Faithful, LooksLikeEnd, Seen, Named;
    ValueInFront(v, more);
    ValueIsEncodable(v);
    SafeUnfolds(vs);
    hide Safe;
    if Decode(more, false).Ok? {
      NeverNull(more, false);
      if v.Null? {
        assert SeenAs([], v) + Decode(more, false).props == Decode(more, false).props;
        assert Nameless(vs)[0].value.Null?;
        assert !Faithful(v) by { NullIsUnfaithful(); }
      } else {
        ValueReadsBackIff(v);
        assert Nameless(vs)[1..] == Nameless(vs[1..]);
      }
    }
  }

  lemma SafeUnfolds(vs: seq<Value>)
    requires |vs| > 0 && |EncodeAll(vs)| >= 3 && Encodable(vs[0])
    ensures Safe(vs) <==> !LooksLikeEnd(vs[0]) && Named(vs[0]) && Faithful(vs[0]) && Safe(vs[1..])
  {
    assert forall k :: 0 < k < |vs| ==> vs[k] == vs[1..][k - 1];
    if |vs| == 1 {
      EncodedLength(vs[0]);
      assert EncodeAll(vs) == Encode(vs[0]) + [];
    }
  }

  // ---------------------------------------------------------------------------------------------
  // Looking properties up
  // ---------------------------------------------------------------------------------------------

  /** `Property(name)`: depth first, an object's own name before what is inside it. */
  function Lookup(ps: seq<Property>, name: seq<byte>): Option<Value>
    decreases ps
  {
    if |ps| == 0 then None
    else if ps[0].name == name then Some(ps[0].value)
    else
      var inside := if ps[0].value.Object? then Lookup(ps[0].value.props, name) else None;
      if inside.Some? then inside else Lookup(ps[1..], name)
  }

  /** All properties in the order in which they stand, those inside an object right behind the object. */
  function InOrder(ps: seq<Property>): seq<Property>
    decreases ps
  {
    if |ps| == 0 then []
    else [ps[0]] + (if ps[0].value.Object? then InOrder(ps[0].value.props) else []) + InOrder(ps[1..])
  }

  /** Of all these properties, the first one of that name, if there is any. */
  ghost predicate IsFirst(found: Option<Value>, all: seq<Property>, name: seq<byte>) {
    if found.None? then forall i :: 0 <= i < |all| ==> all[i].name != name
    else
      exists i :: 0 <= i < |all| && all[i] == Property(name, found.value)
        && forall k :: 0 <= k < i ==> all[k].name != name
  }

  lemma FoundInFront(found: Option<Value>, a: seq<Property>, b: seq<Property>, name: seq<byte>)
    requires found.Some? && IsFirst(found, a, name)
    ensures IsFirst(found, a + b, name)
  {
    var i :| 0 <= i < |a| && a[i] == Property(name, found.value) && forall k :: 0 <= k < i ==> a[k].name != name;
    assert (a + b)[i] == a[i];
  }

  lemma FoundBehind(found: Option<Value>, a: seq<Property>, b: seq<Property>, name: seq<byte>)
    requires IsFirst(None, a, name) && IsFirst(found, b, name)
    ensures IsFirst(found, a + b, name)
  {
    if found.Some? {
      var i :| 0 <= i < |b| && b[i] == Property(name, found.value) && forall k :: 0 <= k < i ==> b[k].name != name;
      assert (a + b)[|a| + i] == b[i];
      assert forall k :: |a| <= k < |a| + i ==> (a + b)[k] == b[k - |a|];
    }
  }

  /** A lookup finds the first property of that name, at any depth, and nothing only if there is none. */
  lemma {:induction false} LookupIsFirst(ps: seq<Property>, name: seq<byte>)
    ensures IsFirst(Lookup(ps, name), InOrder(ps), name)
    decreases ps
  {
    if |ps| == 0 {
      assert IsFirst(None, [], name);
    } else {
      var inside := if ps[0].value.Object? then InOrder(ps[0].value.props) else [];
      var found := if ps[0].value.Object? then Lookup(ps[0].value.props, name) else None;
      var rest := InOrder(ps[1..]);
      Assoc3([ps[0]], inside, rest);
      LookupIsFirst(ps[1..], name);
      if ps[0].value.Object? {
        LookupIsFirst(ps[0].value.props, name);
      } else {
        assert IsFirst(None, [], name);
      }
      OneFound(ps[0], name);
      hide IsFirst;
      if ps[0].name == name {
        FoundInFront(Some(ps[0].value), [ps[0]], inside + rest, name);
      } else {
        if found.Some? {
          FoundInFront(found, inside, rest, name);
        } else {
          FoundBehind(Lookup(ps[1..], name), inside, rest, name);
        }
        FoundBehind(Lookup(ps, name), [ps[0]], inside + rest, name);
      }
    }
  }

  lemma OneFound(p: Property, name: seq<byte>)
    ensures IsFirst(if p.name == name then Some(p.value) else None, [p], name)
  {
    assert [p][0] == p;
  }

  // ---------------------------------------------------------------------------------------------
  // The connect command
  // ---------------------------------------------------------------------------------------------

  function Ascii(s: string): (b: seq<byte>)
    ensures |b| == |s| && forall i :: 0 <= i < |s| ==> b[i] == s[i] as int % 0x100
  {
    if |s| == 0 then [] else [s[0] as int % 0x100] + Ascii(s[1..])
  }

  function ConnectObject(app: seq<byte>, tcUrl: seq<byte>): seq<Property> {
    [ Property(Ascii("app"), Text(app)),
      Property(Ascii("tcUrl"), Text(tcUrl)),
      Property(Ascii("fpad"), Boolean(false)),
      Property(Ascii("capabilities"), Number(Double(31))),
      Property(Ascii("audioCodecs"), Number(Double(1639))),
      Property(Ascii("videoCodecs"), Number(Double(252))),
      Property(Ascii("videoFunction"), Number(Double(1))) ]
  }

  /** The values that `SendConnect` writes. */
  function Connect(app: seq<byte>, tcUrl: seq<byte>): seq<Value> {
    [Text(Ascii("connect")), Number(Double(1)), Object(ConnectObject(app, tcUrl))]
  }

  /** A property that is read exactly as it was written. */
  predicate Passes(p: Property) {
    0 < |p.name| < 0x1_0000 && Encodable(p.value) && !p.value.Null? && Seen(p.value) == p.value
  }

  lemma TextPasses(name: string, s: seq<byte>)
    requires 0 < |name| < 0x1_0000 && |s| < 0x1_0000
    ensures Passes(Property(Ascii(name), Text(s)))
  {
  }

  lemma IntegerPasses(name: string, n: nat)
    requires 0 < |name| < 0x1_0000 && n < 2 * TWO52
    ensures Passes(Property(Ascii(name), Number(Double(n))))
  {
    IntegersSurvive(n);
  }

  lemma BooleanPasses(name: string, b: bool)
    requires 0 < |name| < 0x1_0000
    ensures Passes(Property(Ascii(name), Boolean(b)))
  {
  }

  lemma {:induction false} AllPass(ps: seq<Property>)
    requires forall p :: p in ps ==> Passes(p)
    ensures AllEncodable(ps) && SeenProps(ps) == ps
    decreases |ps|
  {
    if |ps| > 0 {
      assert ps[0] in ps;
      AllPass(ps[1..]);
    }
  }

  lemma ConnectPasses(app: seq<byte>, tcUrl: seq<byte>)
    requires |app| < 0x1_0000 && |tcUrl| < 0x1_0000
    ensures AllEncodable(ConnectObject(app, tcUrl))
    ensures SeenProps(ConnectObject(app, tcUrl)) == ConnectObject(app, tcUrl)
  {
    hide Ascii, Double, Passes;
    TextPasses("app", app);
    TextPasses("tcUrl", tcUrl);
    BooleanPasses("fpad", false);
    IntegerPasses("capabilities", 31);
    IntegerPasses("audioCodecs", 1639);
    IntegerPasses("videoCodecs", 252);
    IntegerPasses("videoFunction", 1);
    AllPass(ConnectObject(app, tcUrl));
  }

  /** Among properties that are no objects, the first one of that name is found. */
  lemma {:induction false} LookupFlat(ps: seq<Property>, k: nat, name: seq<byte>)
    requires k <= |ps| && forall i :: 0 <= i < k ==> !ps[i].value.Object? && ps[i].name != name
    ensures k < |ps| && ps[k].name == name ==> Lookup(ps, name) == Some(ps[k].value)
    ensures k == |ps| ==> Lookup(ps, name) == None
    decreases k
  {
    if k > 0 {
      LookupFlat(ps[1..], k - 1, name);
    }
  }

  /** What `HandleConnect` takes from the command object. */
  predicate Announced(obj: seq<Property>, app: seq<byte>, tcUrl: seq<byte>) {
    && Lookup(obj, Ascii("app")) == Some(Text(app))
    && Lookup(obj, Ascii("tcUrl")) == Some(Text(tcUrl))
    && Lookup(obj, Ascii("objectEncoding")) == None
  }

  lemma ConnectAnnounces(app: seq<byte>, tcUrl: seq<byte>)
    ensures Announced(ConnectObject(app, tcUrl), app, tcUrl)
  {
    hide Ascii, Double, Lookup;
    var ps := ConnectObject(app, tcUrl);
    LookupFlat(ps, 0, Ascii("app"));
    LookupFlat(ps, 1, Ascii("tcUrl"));
    LookupFlat(ps, 7, Ascii("objectEncoding"));
  }

  /**
    The connect command arrives: `HandleAmfCommand` finds the command's name, and `HandleConnect` the
    `app` and `tcUrl` that `SendConnect` was given, and no `objectEncoding`.
   */
  lemma ConnectArrives(app: seq<byte>, tcUrl: seq<byte>)
    requires |app| < 0x1_0000 && |tcUrl| < 0x1_0000
    ensures
      var body := EncodeAll(Connect(app, tcUrl));
      var r := Decode(body, false);
      && r.Ok? && r.used == |body| && |r.props| == 3
      && r.props[0].value == Text(Ascii("connect"))
      && r.props[2].value.Object? && Announced(r.props[2].value.props, app, tcUrl)
  {
    var vs := Connect(app, tcUrl);
    ConnectPasses(app, tcUrl);
    TextArrives(Ascii("connect"));
    OneArrives();
    ObjectArrives(ConnectObject(app, tcUrl));
    ConnectAnnounces(app, tcUrl);
    hide ConnectObject, Ascii, Announced, Arrives, Decode, EncodeAll, Double, SeenProps, AllEncodable;
    ThreeArrive(vs);
  }

  /** A value that is read exactly as it was written, and that no end marker hides. */
  predicate Arrives(v: Value) {
    Encodable(v) && !LooksLikeEnd(v) && !v.Null? && Seen(v) == v
  }

  lemma TextArrives(s: seq<byte>)
    requires |s| < 0x1_0000
    ensures Arrives(Text(s))
  {
  }

  lemma OneArrives()
    ensures Arrives(Number(Double(1)))
  {
    IntegersSurvive(1);
    OneIsPlain();
  }

  lemma ObjectArrives(ps: seq<Property>)
    requires AllEncodable(ps) && SeenProps(ps) == ps
    ensures Arrives(Object(ps))
  {
  }

  lemma ThreeArrive(vs: seq<Value>)
    requires |vs| == 3 && Arrives(vs[0]) && Arrives(vs[1]) && Arrives(vs[2]) && !vs[2].Boolean?
    ensures
      Decode(EncodeAll(vs), false)
      == Ok([Property([], vs[0]), Property([], vs[1]), Property([], vs[2])], |EncodeAll(vs)|)
  {
    assert forall i :: 0 <= i < |vs| ==> Arrives(vs[i]);
    assert AllReadable(vs) && NoneLooksLikeEnd(vs);
    EncodedLength(vs[2]);
    CommandReads(vs);
    hide Decode, Encode;
    KeptAll(vs);
    ThreeSeen(vs);
  }

  lemma OneIsPlain()
    ensures Double(1) / 0x1_0000_0000_0000 != 9
  {
    DoubleParts(1);
    var b := Double(1);
    assert b >= TWO52 by { assert Exponent(0) == 0; assert b / TWO52 > 0; }
  }

  lemma ThreeSeen(vs: seq<Value>)
    requires |vs| == 3 && AllReadable(vs) && forall i :: 0 <= i < 3 ==> !vs[i].Null? && Seen(vs[i]) == vs[i]
    ensures SeenAll(vs) == [Property([], vs[0]), Property([], vs[1]), Property([], vs[2])]
  {
    hide Seen, Encodable;
    assert vs[1..][1..][1..] == [] && vs[1..][0] == vs[1] && vs[1..][1..][0] == vs[2];
    assert SeenAll(vs[1..][1..][1..]) == [];
    assert SeenAll(vs[1..][1..]) == [Property([], vs[2])];
    assert SeenAll(vs[1..]) == [Property([], vs[1])] + SeenAll(vs[1..][1..]);
  }

  /** A command whose last value takes three bytes or more is read to its end. */
  lemma {:induction false} KeptAll(vs: seq<Value>)
    requires NoneLooksLikeEnd(vs) && |vs| > 0 && |Encode(vs[|vs| - 1])| >= 3
    ensures Kept(vs) == vs && |EncodeAll(vs)| >= 3
    decreases |vs|
  {
    hide Encode;
    if |vs| == 1 {
      assert Kept(vs[1..]) == [];
    } else {
      KeptAll(vs[1..]);
    }
  }

  // ---------------------------------------------------------------------------------------------
  // Room
  // ---------------------------------------------------------------------------------------------

  const PACKET_CAPACITY: nat := 1024

  /** The bytes that the properties from number `i` on take. */
  function LengthFrom(ps: seq<Property>, i: nat): nat
    requires i <= |ps|
    decreases |ps| - i
  {
    if i == |ps| then 0 else 3 + |ps[i].name| + |Payload(ps[i].value)| + LengthFrom(ps, i + 1)
  }

  lemma {:induction false} LengthIs(ps: seq<Property>, i: nat)
    requires i <= |ps|
    ensures |EncodeProps(ps[i..])| == LengthFrom(ps, i)
    decreases |ps| - i
  {
    hide Payload;
    if i < |ps| {
      LengthIs(ps, i + 1);
      assert ps[i..][1..] == ps[i + 1..];
    }
  }

  lemma Lengths(s: seq<byte>, n: uint64, b: bool)
    ensures |Payload(Text(s))| == 2 + |s| && |Payload(Number(n))| == 8 && |Payload(Boolean(b))| == 1
  {
  }

  lemma ThreeLength(vs: seq<Value>)
    requires |vs| == 3
    ensures |EncodeAll(vs)| == |Encode(vs[0])| + |Encode(vs[1])| + |Encode(vs[2])|
  {
    hide Encode;
    assert vs[1..][1..] == [vs[2]] && vs[1..][1..][1..] == [];
    assert EncodeAll([vs[2]]) == Encode(vs[2]) + EncodeAll([]) by { assert [vs[2]][1..] == []; }
  }

  /** The packet for the connect command holds 1024 bytes, whatever the names; nothing checks that. */
  lemma ConnectFitsIff(app: seq<byte>, tcUrl: seq<byte>)
    ensures |EncodeAll(Connect(app, tcUrl))| <= PACKET_CAPACITY <==> |app| + |tcUrl| <= 884
  {
    var ps := ConnectObject(app, tcUrl);
    ConnectObjectLength(app, tcUrl);
    hide Double, Ascii, Payload, ConnectObject, EncodeAll;
    Lengths(Ascii("connect"), Double(1), false);
    ObjectLength(ps);
    ThreeLength(Connect(app, tcUrl));
  }

  lemma ObjectLength(ps: seq<Property>)
    ensures |Payload(Object(ps))| == |EncodeProps(ps)| + 3
  {
  }

  lemma ConnectObjectLength(app: seq<byte>, tcUrl: seq<byte>)
    ensures |EncodeProps(ConnectObject(app, tcUrl))| == 117 + |app| + |tcUrl|
  {
    hide Double, Payload, Ascii, EncodeProps;
    var ps := ConnectObject(app, tcUrl);
    assert ps[0..] == ps;
    LengthIs(ps, 0);
    Lengths(app, Double(31), false);
    Lengths(tcUrl, Double(1639), false);
    Lengths(tcUrl, Double(252), false);
    Lengths(tcUrl, Double(1), false);
    assert LengthFrom(ps, 7) == 0;
    assert LengthFrom(ps, 5) == 46;
    assert LengthFrom(ps, 3) == 91;
    assert LengthFrom(ps, 1) == 109 + |tcUrl|;
  }
}
