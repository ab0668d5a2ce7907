/** Which messages the decoder takes and what it reads from them, in terms of the octets alone:
    type octets, limits and the order of the fields are written out here. */
module RequestLaws {
  import opened Types
  import opened Machine
  import opened Ber
  import opened IntegerCodec
  import opened OidCodec
  import opened Messages
  import opened RoundTrip

  // ----- type octets -----

  /** The type octets the agent knows. The report of RFC 3416, 0xA8, is not among them. */
  predicate KnownType(t: Byte) {
    || 0x01 <= t <= 0x06 || t == 0x30 || 0x41 <= t <= 0x43 || 0x80 <= t <= 0x82
    || 0xA0 <= t <= 0xA3 || 0xA5 <= t <= 0xA7
  }

  lemma TypesKnown(t: Byte)
    ensures SupportedTag(t) <==> KnownType(t)
  {
  }

  lemma HeadLaw(p: seq<Byte>, pos: nat, t: Byte, n: nat)
    requires n <= 0xFFFF && At(p, pos, Header(t, n))
    ensures HeadAt(p, pos) == if KnownType(t) then Parsed(Head(t, n, pos + |Header(t, n)|)) else Malformed
  {
    hide SupportedTag, KnownType, LengthOctets;
    TypesKnown(t);
    if SupportedTag(t) {
      HeadRoundTrip(p, pos, t, n);
    } else {
      assert p[pos..pos + |Header(t, n)|][0] == t;
    }
  }

  /** The forms of a length: one octet below 128; 0x80, which is read as zero; one or two octets
      behind 0x81 or 0x82, however small the number; nothing longer. */
  lemma LengthForms(p: seq<Byte>, pos: nat)
    requires pos + 4 <= |p| && KnownType(p[pos])
    ensures var t, b := p[pos], p[pos + 1];
            HeadAt(p, pos)
            == if b < 0x80 then Parsed(Head(t, b, pos + 2))
               else if b == 0x80 then Parsed(Head(t, 0, pos + 2))
               else if b == 0x81 then Parsed(Head(t, p[pos + 2], pos + 3))
               else if b == 0x82 then Parsed(Head(t, p[pos + 2] as int * 256 + p[pos + 3], pos + 4))
               else Malformed
  {
    hide SupportedTag, KnownType;
    TypesKnown(p[pos]);
    assert p[pos + 2..pos + 3] == [p[pos + 2]] && p[pos + 2..pos + 4] == [p[pos + 2], p[pos + 3]];
  }

  // ----- single elements -----

  lemma ElementLaw(p: seq<Byte>, behind: seq<Byte>, pos: nat, t: Byte, c: seq<Byte>)
    requires |p| <= MAX_PACKET_SIZE && At(p, pos, Tlv(t, c))
    ensures var next := pos + |Header(t, |c|)|;
            && HeadAt(p, pos) == (if KnownType(t) then Parsed(Head(t, |c|, next)) else Malformed)
            && ContentAt(p, behind, next, |c|) == Parsed(c)
            && (p + behind)[next..next + |c|] == c && GuardPasses(next, |p|, |c|)
            && next + |c| == pos + |Tlv(t, c)| <= |p|
  {
    hide Header, KnownType, HeadAt, GuardPasses;
    AtSplit(p, pos, Header(t, |c|), c);
    HeadLaw(p, pos, t, |c|);
    var next := pos + |Header(t, |c|)|;
    ContentInside(p, behind, next, |c|);
    GuardMeaning(next, |p|, |c|);
  }

  /** An integer field is an INTEGER that is not empty; longer ones count modulo 2^32. */
  lemma IntegerLaw(p: seq<Byte>, behind: seq<Byte>, pos: nat, t: Byte, c: seq<Byte>)
    requires |p| <= MAX_PACKET_SIZE && At(p, pos, Tlv(t, c))
    ensures IntegerAt(p, behind, pos)
            == if t == 0x02 && c != [] then Parsed((ToSigned(Wrap(SignedValue(c))), pos + |Tlv(t, c)|)) else Malformed
  {
    hide Header, HeadAt, ContentAt, SignedValue, Wrap;
    ElementLaw(p, behind, pos, t, c);
  }

  lemma OneOctetValue(b: Byte)
    ensures ToSigned(Wrap(SignedValue([b]))) == if b < 0x80 then b else b - 0x100
  {
    assert [b][..0] == [];
    var start: int := if b >= 0x80 then -1 else 0;
    assert Accumulate(start, []) == start;
    assert Accumulate(start, [b]) == start * 0x100 + b;
  }

  /** The version is an INTEGER of one octet, 0 or 1. */
  lemma VersionLaw(p: seq<Byte>, behind: seq<Byte>, pos: nat, t: Byte, c: seq<Byte>)
    requires |p| <= MAX_PACKET_SIZE && At(p, pos, Tlv(t, c))
    ensures VersionAt(p, behind, pos)
            == if t == 0x02 && |c| == 1 && c[0] <= 1 then Parsed((c[0], pos + |Tlv(t, c)|)) else Malformed
  {
    hide Header, HeadAt, IntegerAt, SignedValue, Wrap;
    ElementLaw(p, behind, pos, t, c);
    IntegerLaw(p, behind, pos, t, c);
    if |c| == 1 {
      OneOctetValue(c[0]);
      assert c == [c[0]];
    }
  }

  /** A string ends with its first NUL. */
  lemma {:induction false} StringEnds(s: seq<Byte>, rest: seq<Byte>)
    requires 0 !in s && (rest == [] || rest[0] == 0)
    ensures CString(s + rest) == s
  {
    if s == [] {
      assert [] + rest == rest;
    } else {
      StringEnds(s[1..], rest);
      assert (s + rest)[1..] == s[1..] + rest;
    }
  }

  /** The community is an OCTET STRING of at most 63 octets that does not start with a NUL. */
  lemma CommunityLaw(p: seq<Byte>, behind: seq<Byte>, pos: nat, t: Byte, s: seq<Byte>, rest: seq<Byte>)
    requires |p| <= MAX_PACKET_SIZE && At(p, pos, Tlv(t, s + rest))
    requires 0 !in s && (rest == [] || rest[0] == 0)
    ensures CommunityAt(p, behind, pos)
            == if t == 0x04 && 0 < |s| && |s| + |rest| <= 63 then Parsed((s, pos + |Tlv(t, s + rest)|)) else Malformed
  {
    hide Header, HeadAt, ContentAt, CString;
    ElementLaw(p, behind, pos, t, s + rest);
    StringEnds(s, rest);
  }

  /** A name is an OBJECT IDENTIFIER, and is recorded with the size of its shortest-header form. */
  lemma NameLaw(p: seq<Byte>, behind: seq<Byte>, pos: nat, t: Byte, c: seq<Byte>)
    requires |p| <= MAX_PACKET_SIZE && At(p, pos, Tlv(t, c))
    ensures OidAt(p, behind, pos)
            == if t == 0x06 && OidOf(c).Some? then Parsed((Oid(OidOf(c).value, |Tlv(t, c)|), pos + |Tlv(t, c)|))
               else Malformed
  {
    hide Header, HeadAt, OidOf, GuardPasses, GivesUp, DecodedLength;
    ElementLaw(p, behind, pos, t, c);
    RecordedIsWritten(c);
    NoEmptyName();
  }

  lemma NoEmptyName()
    ensures OidOf([]) == None
  {
  }

  /** Of an OID of any length, the decoder takes one with at most 16 subidentifiers and a first
      octet below 128; the first two subidentifiers are then those of that octet. */
  lemma NameLimits(subids: seq<UInt32>)
    requires 2 <= |subids|
    ensures var octet := (subids[0] as int * 40 + subids[1]) % 256;
            OidOf(OidContent(subids))
            == if octet < 128 && |subids| <= 16 then Some([octet / 40, octet % 40] + subids[2..]) else None
  {
    hide SubidsContent, SubidsOf;
    var rest := subids[2..];
    assert OidContent(subids)[0] == FirstOctet(subids) && OidContent(subids)[1..] == SubidsContent(rest);
    if |subids| <= 16 {
      ReadSubids(rest, 2);
    } else {
      TooManySubids(rest, 2);
    }
  }

  lemma {:induction false} TooManySubids(subids: seq<UInt32>, got: nat)
    requires got <= 16 < got + |subids|
    ensures SubidsOf(SubidsContent(subids), got) == None
    decreases |subids|
  {
    var first, rest := Base128(subids[0]), SubidsContent(subids[1..]);
    assert SubidsContent(subids) == first + rest;
    if got < 16 {
      Base128Value(subids[0], rest);
      assert (first + rest)[|first|..] == rest;
      TooManySubids(subids[1..], got + 1);
    }
  }

  /** A value may have any known type; NULL is empty, and nothing else is. */
  lemma ValueLaw(p: seq<Byte>, pos: nat, t: Byte, c: seq<Byte>)
    requires |p| <= MAX_PACKET_SIZE && At(p, pos, Tlv(t, c))
    ensures ValueAt(p, pos)
            == if KnownType(t) && (t == 0x05 <==> c == []) then Parsed(pos + |Tlv(t, c)|) else Malformed
  {
    hide Header, HeadAt, GuardPasses, KnownType;
    ElementLaw(p, [], pos, t, c);
    assert KnownType(0x05) by { TypesKnown(0x05); }
  }

  lemma ReadableLaw(t: Byte, c: seq<Byte>)
    requires |Tlv(t, c)| <= MAX_PACKET_SIZE
    ensures Readable(Tlv(t, c)) <==> KnownType(t) && (t == 0x05 <==> c == [])
  {
    hide Header, ValueAt, KnownType;
    ValueLaw(Tlv(t, c), 0, t, c);
  }

  /** A binding is a name and a value behind a SEQUENCE header that announces anything but zero. */
  lemma BindingLaw(p: seq<Byte>, behind: seq<Byte>, pos: nat, t: Byte, n: nat, b: Binding)
    requires |p| <= MAX_PACKET_SIZE && n <= 0xFFFF && Faithful(b)
    requires At(p, pos, Header(t, n) + (OidTlv(b.oid.subids) + b.value))
    ensures BindingAt(p, behind, pos)
            == if t == 0x30 && n > 0 then
                 Parsed((b.oid, pos + |Header(t, n) + (OidTlv(b.oid.subids) + b.value)|))
               else Malformed
  {
    hide Header, OidTlv, HeadAt, OidAt, ValueAt, KnownType;
    AtSplit(p, pos, Header(t, n), OidTlv(b.oid.subids) + b.value);
    HeadLaw(p, pos, t, n);
    assert KnownType(0x30) by { TypesKnown(0x30); }
    if t == 0x30 {
      var next := pos + |Header(t, n)|;
      AtSplit(p, next, OidTlv(b.oid.subids), b.value);
      OidElement(p, behind, next, b.oid);
      ValueElement(p, next + |OidTlv(b.oid.subids)|, b.value);
    }
  }

  // ----- whole messages -----

  /** The fields of a message around its variable bindings, in the order of RFC 3416. The three
      lengths are those that its SEQUENCE, its PDU and its list announce. */
  function LooseOctets(n1: nat, v: Int32, c: seq<Byte>, t: Byte, n2: nat, id: Int32, a: Int32, b: Int32, n3: nat,
                       list: seq<Byte>): seq<Byte> {
    Header(0x30, n1) + (IntegerTlv(v) + (Tlv(0x04, c) + (Header(t, n2) + BodyOctets(id, a, b, n3, list))))
  }

  function BodyOctets(id: Int32, a: Int32, b: Int32, n3: nat, list: seq<Byte>): seq<Byte> {
    IntegerTlv(id) + (IntegerTlv(a) + (IntegerTlv(b) + (Header(0x30, n3) + list)))
  }

  function MessageOctets(v: Int32, c: seq<Byte>, t: Byte, id: Int32, a: Int32, b: Int32, list: seq<Byte>): seq<Byte> {
    Tlv(0x30, IntegerTlv(v) + (Tlv(0x04, c)
              + Tlv(t, IntegerTlv(id) + (IntegerTlv(a) + (IntegerTlv(b) + Tlv(0x30, list))))))
  }

  lemma {:induction false} TooManyBindings(p: seq<Byte>, behind: seq<Byte>, pos: nat, bs: seq<Binding>, got: nat)
    requires |p| <= MAX_PACKET_SIZE && got <= 16 < got + |bs| && AllFaithful(bs)
    requires At(p, pos, BindingsBytes(bs)) && pos + |BindingsBytes(bs)| == |p|
    ensures BindingsAt(p, behind, pos, got) == Malformed
    decreases |bs|
  {
    hide BindingBytes, BindingAt, Faithful, At;
    AtSplit(p, pos, BindingBytes(bs[0]), BindingsBytes(bs[1..]));
    assert |BindingBytes(bs[0])| > 0 by { BindingIsNotEmpty(bs[0]); }
    if got < 16 {
      BindingElement(p, behind, pos, bs[0]);
      TooManyBindings(p, behind, pos + |BindingBytes(bs[0])|, bs[1..], got + 1);
    }
  }

  lemma BindingIsNotEmpty(b: Binding)
    requires b.oid.Valid()
    ensures |BindingBytes(b)| > 0
  {
  }

  /** The list of bindings: at most 16 of them. */
  lemma ListLaw(p: seq<Byte>, behind: seq<Byte>, pos: nat, bs: seq<Binding>)
    requires |p| <= MAX_PACKET_SIZE && AllFaithful(bs)
    requires At(p, pos, BindingsBytes(bs)) && pos + |BindingsBytes(bs)| == |p|
    ensures BindingsAt(p, behind, pos, 0) == if |bs| <= 16 then Parsed((OidsOf(bs), |p|)) else Malformed
  {
    hide BindingsAt, BindingsBytes, AllFaithful, OidsOf, At;
    if |bs| <= 16 {
      BindingElements(p, behind, pos, bs, 0);
    } else {
      TooManyBindings(p, behind, pos, bs, 0);
    }
  }

  lemma BodyLaw(p: seq<Byte>, behind: seq<Byte>, pos: nat, v: Int32, s: seq<Byte>, t: Byte,
                id: Int32, a: Int32, b: Int32, n3: nat, bs: seq<Binding>)
    requires |p| <= MAX_PACKET_SIZE && n3 <= 0xFFFF && AllFaithful(bs)
    requires At(p, pos, BodyOctets(id, a, b, n3, BindingsBytes(bs)))
    requires pos + |BodyOctets(id, a, b, n3, BindingsBytes(bs))| == |p|
    ensures BodyAt(p, behind, pos, v, s, t)
            == if n3 == |BindingsBytes(bs)| && |bs| <= 16 then
                 Parsed((Message(v, s, t, id, a, b, OidsOf(bs)), |p|))
               else Malformed
  {
    hide Header, IntegerTlv, HeadAt, IntegerAt, BindingsAt, BindingsBytes, OidsOf, AllFaithful, At, KnownType;
    var list := BindingsBytes(bs);
    var second := IntegerTlv(b) + (Header(0x30, n3) + list);
    var first := IntegerTlv(a) + second;
    AtSplit(p, pos, IntegerTlv(id), first);
    IntegerElement(p, behind, pos, id);
    var at := pos + |IntegerTlv(id)|;
    AtSplit(p, at, IntegerTlv(a), second);
    IntegerElement(p, behind, at, a);
    at := at + |IntegerTlv(a)|;
    AtSplit(p, at, IntegerTlv(b), Header(0x30, n3) + list);
    IntegerElement(p, behind, at, b);
    at := at + |IntegerTlv(b)|;
    AtSplit(p, at, Header(0x30, n3), list);
    HeadLaw(p, at, 0x30, n3);
    assert KnownType(0x30) by { TypesKnown(0x30); }
    ListLaw(p, behind, at + |Header(0x30, n3)|, bs);
  }

  lemma VersionOctet(v: Int32)
    ensures var c := IntegerContent(v);
            (|c| == 1 && c[0] <= 1) <==> v == 0 || v == 1
    ensures v == 0 || v == 1 ==> IntegerContent(v) == [v]
  {
    IntegerRoundTrip(v);
    if |IntegerContent(v)| == 1 {
      OneOctetValue(IntegerContent(v)[0]);
      assert IntegerContent(v) == [IntegerContent(v)[0]];
      WrapSigned(v);
    }
    if v == 0 || v == 1 {
      assert BigEndian(v, 1) == BigEndian(v / 0x100, 0) + [v % 0x100];
    }
  }

  lemma PduLaw(p: seq<Byte>, behind: seq<Byte>, pos: nat, v: Int32, s: seq<Byte>, t: Byte, n2: nat,
               id: Int32, a: Int32, b: Int32, n3: nat, bs: seq<Binding>)
    requires |p| <= MAX_PACKET_SIZE && n2 <= 0xFFFF && n3 <= 0xFFFF && AllFaithful(bs)
    requires At(p, pos, Header(t, n2) + BodyOctets(id, a, b, n3, BindingsBytes(bs)))
    requires pos + |Header(t, n2) + BodyOctets(id, a, b, n3, BindingsBytes(bs))| == |p|
    ensures PduAt(p, behind, pos, v, s)
            == if KnownType(t) && n2 == |BodyOctets(id, a, b, n3, BindingsBytes(bs))|
                  && n3 == |BindingsBytes(bs)| && |bs| <= 16
               then Parsed((Message(v, s, t, id, a, b, OidsOf(bs)), |p|))
               else Malformed
  {
    hide Header, HeadAt, BodyAt, BodyOctets, BindingsBytes, OidsOf, AllFaithful, At, KnownType;
    var body := BodyOctets(id, a, b, n3, BindingsBytes(bs));
    AtSplit(p, pos, Header(t, n2), body);
    HeadLaw(p, pos, t, n2);
    BodyLaw(p, behind, pos + |Header(t, n2)|, v, s, t, id, a, b, n3, bs);
  }

  /** All a message has to be, and what is read from it: version 0 or 1, a community of 1 to 63
      octets, a known PDU type, announced lengths that reach exactly to the end of the packet, and
      at most 16 bindings. Everything else is refused. */
  lemma LooseMessageLaw(n1: nat, v: Int32, s: seq<Byte>, rest: seq<Byte>, t: Byte, n2: nat,
                        id: Int32, a: Int32, b: Int32, n3: nat, bs: seq<Binding>, behind: seq<Byte>)
    requires n1 <= 0xFFFF && n2 <= 0xFFFF && n3 <= 0xFFFF && AllFaithful(bs)
    requires 0 !in s && (rest == [] || rest[0] == 0)
    requires |LooseOctets(n1, v, s + rest, t, n2, id, a, b, n3, BindingsBytes(bs))| <= MAX_PACKET_SIZE
    ensures var list := BindingsBytes(bs);
            var body := BodyOctets(id, a, b, n3, list);
            var p := LooseOctets(n1, v, s + rest, t, n2, id, a, b, n3, list);
            ParseRequest(p, behind)
            == if && n1 == |IntegerTlv(v) + (Tlv(0x04, s + rest) + (Header(t, n2) + body))|
                  && (v == 0 || v == 1) && 0 < |s| && |s| + |rest| <= 63
                  && KnownType(t) && n2 == |body| && n3 == |list| && |bs| <= 16
               then Parsed(Message(v, s, t, id, a, b, OidsOf(bs)))
               else Malformed
  {
    hide Header, IntegerContent, HeadAt, VersionAt, CommunityAt, PduAt, BodyOctets, BindingsBytes, OidsOf,
         AllFaithful, At, KnownType;
    var body := BodyOctets(id, a, b, n3, BindingsBytes(bs));
    var tail := Header(t, n2) + body;
    var content := IntegerTlv(v) + (Tlv(0x04, s + rest) + tail);
    var p := LooseOctets(n1, v, s + rest, t, n2, id, a, b, n3, BindingsBytes(bs));
    AtAll(p);
    AtSplit(p, 0, Header(0x30, n1), content);
    HeadLaw(p, 0, 0x30, n1);
    assert KnownType(0x30) by { TypesKnown(0x30); }
    var at := |Header(0x30, n1)|;
    AtSplit(p, at, IntegerTlv(v), Tlv(0x04, s + rest) + tail);
    VersionLaw(p, behind, at, 0x02, IntegerContent(v));
    VersionOctet(v);
    at := at + |IntegerTlv(v)|;
    AtSplit(p, at, Tlv(0x04, s + rest), tail);
    CommunityLaw(p, behind, at, 0x04, s, rest);
    at := at + |Tlv(0x04, s + rest)|;
    PduLaw(p, behind, at, v, s, t, n2, id, a, b, n3, bs);
  }

  /** The same for messages with the right lengths. */
  lemma MessageLaw(v: Int32, s: seq<Byte>, t: Byte, id: Int32, a: Int32, b: Int32, bs: seq<Binding>, behind: seq<Byte>)
    requires AllFaithful(bs) && 0 !in s
    requires |MessageOctets(v, s, t, id, a, b, BindingsBytes(bs))| <= MAX_PACKET_SIZE
    ensures ParseRequest(MessageOctets(v, s, t, id, a, b, BindingsBytes(bs)), behind)
            == if (v == 0 || v == 1) && 1 <= |s| <= 63 && KnownType(t) && |bs| <= 16
               then Parsed(Message(v, s, t, id, a, b, OidsOf(bs)))
               else Malformed
  {
    hide Header, IntegerTlv, BindingsBytes, OidsOf, AllFaithful, KnownType, ParseRequest;
    var list := BindingsBytes(bs);
    var body := BodyOctets(id, a, b, |list|, list);
    var content := IntegerTlv(v) + (Tlv(0x04, s) + (Header(t, |body|) + body));
    assert s + [] == s;
    LooseMessageLaw(|content|, v, s, [], t, |body|, id, a, b, |list|, bs, behind);
  }

  /** The serialized tree of a message is its octets. */
  lemma OctetsOfTree(m: Message, bs: seq<Binding>)
    requires ValidBindings(bs)
    ensures Serialize(MessageTree(m, bs))
            == MessageOctets(m.version, m.community, m.pdu, m.id, m.nonRepeaters, m.maxRepetitions, BindingsBytes(bs))
  {
    hide Header, IntegerContent, BindingsBytes, MessageTree, Serialize;
    SerializeMessage(m, bs);
  }

  /** A name with a long subidentifier and integers of two octets, as X.690 writes them. */
  lemma LongForms()
    ensures OidTlv([1, 3, 6, 1, 8072]) == [0x06, 0x05, 0x2B, 0x06, 0x01, 0xBF, 0x08]
    ensures IntegerTlv(300) == [0x02, 0x02, 0x01, 0x2C] && IntegerTlv(-129) == [0x02, 0x02, 0xFF, 0x7F]
  {
    hide Header;
    LongSubids();
    assert OidContent([1, 3, 6, 1, 8072]) == [0x2B, 0x06, 0x01, 0xBF, 0x08] by {
      assert [1, 3, 6, 1, 8072][2..] == [6, 1, 8072];
    }
    HeaderForms(0x06, 5);
    HeaderForms(0x02, 2);
    assert BigEndian(300, 2) == BigEndian(1, 1) + [0x2C] && BigEndian(1, 1) == BigEndian(0, 0) + [0x01];
    assert BigEndian(-129, 2) == BigEndian(-1, 1) + [0x7F] && BigEndian(-1, 1) == BigEndian(-1, 0) + [0xFF];
  }

  lemma LongSubids()
    ensures SubidsContent([6, 1, 8072]) == [0x06, 0x01, 0xBF, 0x08]
  {
    assert [6, 1, 8072][1..] == [1, 8072] && [1, 8072][1..] == [8072] && [8072][1..] == [];
    assert Base128(8072) == Continued(63) + [0x08] && Continued(63) == [0xBF];
    assert SubidsContent([8072]) == [0xBF, 0x08] + SubidsContent([]);
    assert SubidsContent([1, 8072]) == [0x01] + [0xBF, 0x08];
  }

  /** A version 2c GETBULK for 1.3, octet for octet: no non-repeaters, 10 repetitions. */
  const BULK_FRAME: seq<Byte> := [0x30, 0x1A, 0x02, 0x01, 0x01, 0x04, 0x01, 0x70]
  const BULK_FIELDS: seq<Byte> := [0xA5, 0x12, 0x02, 0x01, 0x01, 0x02, 0x01, 0x00, 0x02, 0x01, 0x0A, 0x30, 0x07]
  const BULK_LIST: seq<Byte> := [0x30, 0x05, 0x06, 0x01, 0x2B, 0x05, 0x00]
  const BULK_PACKET: seq<Byte> := BULK_FRAME + (BULK_FIELDS + BULK_LIST)

  lemma BulkPacketIsRead(behind: seq<Byte>)
    ensures ParseRequest(BULK_PACKET, behind)
            == Parsed(Message(1, [0x70], 0xA5, 1, 0, 10, [Oid([1, 3], 3)]))
  {
    hide ParseRequest, Readable, OidOf, MessageOctets, BindingsBytes;
    var b := Binding(Oid([1, 3], 3), [0x05, 0x00]);
    BulkListOctets();
    BulkPacketOctets();
    TopNameOctets();
    NullOctets();
    assert Faithful(b) && AllFaithful([b]);
    MessageLaw(1, [0x70], 0xA5, 1, 0, 10, [b], behind);
    assert OidsOf([b]) == [b.oid];
  }

  lemma BulkListOctets()
    ensures BindingsBytes([Binding(Oid([1, 3], 3), [0x05, 0x00])]) == BULK_LIST
  {
    hide BindingsBytes;
    TopNameOctets();
    HeaderForms(0x30, 5);
    OneBindingOctets(Binding(Oid([1, 3], 3), [0x05, 0x00]));
  }

  lemma BulkPacketOctets()
    ensures MessageOctets(1, [0x70], 0xA5, 1, 0, 10, BULK_LIST) == BULK_PACKET
  {
    hide Header, IntegerTlv;
    SmallIntegers();
    HeaderForms(0x30, 7);
    HeaderForms(0xA5, 18);
    HeaderForms(0x04, 1);
    HeaderForms(0x30, 26);
    var pdu := Tlv(0xA5, IntegerTlv(1) + (IntegerTlv(0) + (IntegerTlv(10) + Tlv(0x30, BULK_LIST))));
    assert pdu == BULK_FIELDS + BULK_LIST;
    assert Tlv(0x04, [0x70]) == [0x04, 0x01, 0x70];
    assert IntegerTlv(1) + (Tlv(0x04, [0x70]) + pdu) == BULK_FRAME[2..] + pdu;
  }

  lemma SmallIntegers()
    ensures IntegerTlv(0) == [0x02, 0x01, 0x00] && IntegerTlv(1) == [0x02, 0x01, 0x01]
    ensures IntegerTlv(10) == [0x02, 0x01, 0x0A]
  {
    HeaderForms(0x02, 1);
    assert BigEndian(0, 1) == [0] && BigEndian(1, 1) == [1] && BigEndian(10, 1) == [10] by {
      assert BigEndian(0, 0) == [];
    }
  }

  lemma TopNameOctets()
    ensures OidTlv([1, 3]) == [0x06, 0x01, 0x2B] && Canonical([1, 3]) && Exact(Oid([1, 3], 3))
  {
    assert SubidsContent([]) == [];
    assert OidContent([1, 3]) == [0x2B];
    HeaderForms(0x06, 1);
  }

  lemma NullOctets()
    ensures Tlv(0x05, []) == [0x05, 0x00] && Readable([0x05, 0x00])
  {
    HeaderForms(0x05, 0);
    ReadableLaw(0x05, []);
  }

  lemma OneBindingOctets(b: Binding)
    requires b.oid.Valid()
    ensures BindingsBytes([b]) == BindingBytes(b)
  {
    hide BindingBytes;
    assert [b][1..] == [] && BindingBytes(b) + [] == BindingBytes(b);
  }
}
