/** Decoding a message gives back what was encoded. */
module RoundTrip {
  import opened Types
  import opened Machine
  import opened Ber
  import opened IntegerCodec
  import opened OidCodec
  import opened Messages

  predicate At(p: seq<Byte>, pos: nat, bytes: seq<Byte>) {
    pos + |bytes| <= |p| && p[pos..pos + |bytes|] == bytes
  }

  lemma AtSplit(p: seq<Byte>, pos: nat, a: seq<Byte>, b: seq<Byte>)
    requires At(p, pos, a + b)
    ensures At(p, pos, a) && At(p, pos + |a|, b)
  {
    var s := p[pos..pos + |a + b|];
    assert s[..|a|] == a && s[|a|..] == b;
    assert p[pos..pos + |a|] == s[..|a|];
    assert p[pos + |a|..pos + |a| + |b|] == s[|a|..];
  }

  lemma AtAll(p: seq<Byte>)
    ensures At(p, 0, p)
  {
  }

  lemma HeadRoundTrip(p: seq<Byte>, pos: nat, tag: Byte, n: nat)
    requires SupportedTag(tag) && n <= 0xFFFF && At(p, pos, Header(tag, n))
    ensures HeadAt(p, pos) == Parsed(Head(tag, n, pos + |Header(tag, n)|))
  {
    var h := p[pos..pos + |Header(tag, n)|];
    HeaderForms(tag, n);
    assert h[0] == p[pos] && h[1] == p[pos + 1];
    if n > 0x7F {
      assert h[2..] == p[pos + 2..pos + |h|];
    }
  }

  /** An element whose contents are all there is read whole. */
  lemma ElementRoundTrip(p: seq<Byte>, behind: seq<Byte>, pos: nat, tag: Byte, c: seq<Byte>)
    requires SupportedTag(tag) && |p| <= MAX_PACKET_SIZE && At(p, pos, Tlv(tag, c))
    ensures var next := pos + |Header(tag, |c|)|;
            && HeadAt(p, pos) == Parsed(Head(tag, |c|, next))
            && ContentAt(p, behind, next, |c|) == Parsed(c)
            && next + |c| == pos + |Tlv(tag, c)| <= |p|
  {
    AtSplit(p, pos, Header(tag, |c|), c);
    ContentInside(p, behind, pos + |Header(tag, |c|)|, |c|);
    HeadRoundTrip(p, pos, tag, |c|);
  }

  lemma IntegerElement(p: seq<Byte>, behind: seq<Byte>, pos: nat, v: Int32)
    requires |p| <= MAX_PACKET_SIZE && At(p, pos, IntegerTlv(v))
    ensures IntegerAt(p, behind, pos) == Parsed((v, pos + |IntegerTlv(v)|))
  {
    ElementRoundTrip(p, behind, pos, INTEGER, IntegerContent(v));
    IntegerRoundTrip(v);
    WrapSigned(v);
  }

  lemma VersionElement(p: seq<Byte>, behind: seq<Byte>, pos: nat, v: Int32)
    requires |p| <= MAX_PACKET_SIZE && At(p, pos, IntegerTlv(v))
    requires v == SNMP_VERSION_1 || v == SNMP_VERSION_2C
    ensures VersionAt(p, behind, pos) == Parsed((v, pos + |IntegerTlv(v)|))
  {
    ElementRoundTrip(p, behind, pos, INTEGER, IntegerContent(v));
    IntegerElement(p, behind, pos, v);
  }

  lemma {:induction false} CStringWhole(c: seq<Byte>)
    requires 0 !in c
    ensures CString(c) == c
  {
    if c != [] {
      CStringWhole(c[1..]);
    }
  }

  lemma CommunityElement(p: seq<Byte>, behind: seq<Byte>, pos: nat, c: seq<Byte>)
    requires |p| <= MAX_PACKET_SIZE && CommunityName(c) && At(p, pos, StringTlv(c))
    ensures CommunityAt(p, behind, pos) == Parsed((c, pos + |StringTlv(c)|))
  {
    ElementRoundTrip(p, behind, pos, OCTET_STRING, c);
    CStringWhole(c);
  }

  /** A value the decoder takes: one whole element, empty exactly if it is NULL. */
  predicate Readable(value: seq<Byte>) {
    ValueAt(value, 0) == Parsed(|value|)
  }

  lemma TlvIsReadable(tag: Byte, c: seq<Byte>)
    requires SupportedTag(tag) && (tag == NULL <==> c == []) && |Tlv(tag, c)| <= MAX_PACKET_SIZE
    ensures Readable(Tlv(tag, c))
  {
    ElementRoundTrip(Tlv(tag, c), [], 0, tag, c);
  }

  /** A header is read the same wherever it stands. */
  lemma HeadShift(p: seq<Byte>, pos: nat, value: seq<Byte>)
    requires At(p, pos, value) && HeadAt(value, 0).Parsed?
    ensures var h := HeadAt(value, 0).value;
            HeadAt(p, pos) == Parsed(Head(h.tag, h.length, pos + h.next))
  {
    hide SupportedTag;
    var s := p[pos..pos + |value|];
    assert s[0] == p[pos] && s[1] == p[pos + 1];
    SliceOfSlice(p, pos, value, 2, HeadAt(value, 0).value.next);
  }

  lemma SliceOfSlice(p: seq<Byte>, pos: nat, s: seq<Byte>, a: nat, b: nat)
    requires At(p, pos, s) && a <= b <= |s|
    ensures s[a..b] == p[pos + a..pos + b]
  {
    assert forall i :: 0 <= i < |s| ==> s[i] == p[pos..pos + |s|][i] == p[pos + i];
  }

  lemma ValueElement(p: seq<Byte>, pos: nat, value: seq<Byte>)
    requires |p| <= MAX_PACKET_SIZE && Readable(value) && At(p, pos, value)
    ensures ValueAt(p, pos) == Parsed(pos + |value|)
  {
    hide HeadAt;
    HeadShift(p, pos, value);
    var h := HeadAt(value, 0).value;
    GuardMeaning(pos + h.next, |p|, h.length);
  }

  lemma OidElement(p: seq<Byte>, behind: seq<Byte>, pos: nat, o: Oid)
    requires |p| <= MAX_PACKET_SIZE && Canonical(o.subids) && Exact(o) && At(p, pos, OidTlv(o.subids))
    ensures OidAt(p, behind, pos) == Parsed((o, pos + |OidTlv(o.subids)|))
  {
    hide Header, HeadAt, OidOf, OidContent, SupportedTag, GuardPasses;
    var c := OidContent(o.subids);
    TagOfOid();
    ElementRoundTrip(p, behind, pos, OID, c);
    OidRoundTrip(o.subids);
    RecordedIsWritten(c);
    ContentNotEmpty(o.subids);
  }

  lemma TagOfOid()
    ensures SupportedTag(OID)
  {
  }

  lemma ContentNotEmpty(subids: seq<UInt32>)
    requires |subids| >= 2
    ensures |OidContent(subids)| > 0
  {
  }

  lemma RecordedIsWritten(c: seq<Byte>)
    requires |c| <= 0xFFFF
    ensures DecodedLength(|c|) == |Tlv(OID, c)|
  {
    HeaderForms(OID, |c|);
  }

  predicate Faithful(b: Binding) {
    Canonical(b.oid.subids) && Exact(b.oid) && Readable(b.value)
  }

  predicate AllFaithful(bs: seq<Binding>): (r: bool)
    ensures r ==> ValidBindings(bs)
  {
    forall i :: 0 <= i < |bs| ==> Faithful(bs[i])
  }

  function OidsOf(bs: seq<Binding>): seq<Oid> {
    seq(|bs|, i requires 0 <= i < |bs| => bs[i].oid)
  }

  lemma BindingElement(p: seq<Byte>, behind: seq<Byte>, pos: nat, b: Binding)
    requires |p| <= MAX_PACKET_SIZE && Faithful(b) && At(p, pos, BindingBytes(b))
    ensures BindingAt(p, behind, pos) == Parsed((b.oid, pos + |BindingBytes(b)|))
  {
    hide Header, OidTlv, HeadAt, OidAt, ValueAt;
    var c := OidTlv(b.oid.subids) + b.value;
    AtSplit(p, pos, Header(SEQUENCE, |c|), c);
    HeadRoundTrip(p, pos, SEQUENCE, |c|);
    var next := pos + |Header(SEQUENCE, |c|)|;
    AtSplit(p, next, OidTlv(b.oid.subids), b.value);
    OidElement(p, behind, next, b.oid);
    ValueElement(p, next + |OidTlv(b.oid.subids)|, b.value);
  }

  lemma {:induction false} BindingElements(p: seq<Byte>, behind: seq<Byte>, pos: nat, bs: seq<Binding>, got: nat)
    requires |p| <= MAX_PACKET_SIZE && got + |bs| <= MAX_NR_OIDS && AllFaithful(bs)
    requires At(p, pos, BindingsBytes(bs)) && pos + |BindingsBytes(bs)| == |p|
    ensures BindingsAt(p, behind, pos, got) == Parsed((OidsOf(bs), |p|))
    decreases |bs|
  {
    hide BindingBytes, BindingAt, Faithful, At;
    if bs == [] {
      assert OidsOf(bs) == [];
    } else {
      AtSplit(p, pos, BindingBytes(bs[0]), BindingsBytes(bs[1..]));
      BindingElement(p, behind, pos, bs[0]);
      BindingElements(p, behind, pos + |BindingBytes(bs[0])|, bs[1..], got + 1);
      assert OidsOf(bs) == [bs[0].oid] + OidsOf(bs[1..]);
    }
  }

  predicate Sendable(m: Message) {
    && (m.version == SNMP_VERSION_1 || m.version == SNMP_VERSION_2C)
    && CommunityName(m.community)
    && SupportedTag(m.pdu)
  }

  lemma BodyRoundTrip(p: seq<Byte>, behind: seq<Byte>, pos: nat, m: Message, bs: seq<Binding>)
    requires |p| <= MAX_PACKET_SIZE && |bs| <= MAX_NR_OIDS && AllFaithful(bs)
    requires At(p, pos, PduBody(m, Tlv(SEQUENCE, BindingsBytes(bs))))
    requires pos + |PduBody(m, Tlv(SEQUENCE, BindingsBytes(bs)))| == |p|
    ensures BodyAt(p, behind, pos, m.version, m.community, m.pdu) == Parsed((m.(oids := OidsOf(bs)), |p|))
  {
    hide Header, IntegerTlv, HeadAt, IntegerAt, BindingsAt, BindingsBytes, OidsOf, AllFaithful, At;
    var list := BindingsBytes(bs);
    var second := IntegerTlv(m.maxRepetitions) + Tlv(SEQUENCE, list);
    var first := IntegerTlv(m.nonRepeaters) + second;
    AtSplit(p, pos, IntegerTlv(m.id), first);
    IntegerElement(p, behind, pos, m.id);
    var at := pos + |IntegerTlv(m.id)|;
    AtSplit(p, at, IntegerTlv(m.nonRepeaters), second);
    IntegerElement(p, behind, at, m.nonRepeaters);
    at := at + |IntegerTlv(m.nonRepeaters)|;
    AtSplit(p, at, IntegerTlv(m.maxRepetitions), Tlv(SEQUENCE, list));
    IntegerElement(p, behind, at, m.maxRepetitions);
    at := at + |IntegerTlv(m.maxRepetitions)|;
    AtSplit(p, at, Header(SEQUENCE, |list|), list);
    HeadRoundTrip(p, at, SEQUENCE, |list|);
    BindingElements(p, behind, at + |Header(SEQUENCE, |list|)|, bs, 0);
  }

  lemma PduRoundTrip(p: seq<Byte>, behind: seq<Byte>, pos: nat, m: Message, bs: seq<Binding>)
    requires |p| <= MAX_PACKET_SIZE && Sendable(m) && |bs| <= MAX_NR_OIDS && AllFaithful(bs)
    requires At(p, pos, Pdu(m, BindingsBytes(bs))) && pos + |Pdu(m, BindingsBytes(bs))| == |p|
    ensures PduAt(p, behind, pos, m.version, m.community) == Parsed((m.(oids := OidsOf(bs)), |p|))
  {
    hide Header, HeadAt, BodyAt, PduBody, BindingsBytes, OidsOf, AllFaithful, At;
    var body := PduBody(m, Tlv(SEQUENCE, BindingsBytes(bs)));
    AtSplit(p, pos, Header(m.pdu, |body|), body);
    HeadRoundTrip(p, pos, m.pdu, |body|);
    BodyRoundTrip(p, behind, pos + |Header(m.pdu, |body|)|, m, bs);
  }

  /** The whole message: version, community, PDU type, the three integers and the names,
      whatever lies behind it in the buffer. */
  lemma MessageRoundTrip(m: Message, bs: seq<Binding>, behind: seq<Byte>)
    requires Sendable(m) && |bs| <= MAX_NR_OIDS && AllFaithful(bs)
    requires |Serialize(MessageTree(m, bs))| <= MAX_PACKET_SIZE
    ensures ParseRequest(Serialize(MessageTree(m, bs)), behind) == Parsed(m.(oids := OidsOf(bs)))
  {
    hide Header, IntegerTlv, StringTlv, HeadAt, VersionAt, CommunityAt, PduAt, Pdu, BindingsBytes,
         OidsOf, AllFaithful, MessageTree, Serialize, At;
    SerializeMessage(m, bs);
    var pdu := Pdu(m, BindingsBytes(bs));
    var tail := StringTlv(m.community) + pdu;
    var body := IntegerTlv(m.version) + tail;
    var p := Tlv(SEQUENCE, body);
    var at := |Header(SEQUENCE, |body|)|;
    AtAll(p);
    AtSplit(p, 0, Header(SEQUENCE, |body|), body);
    HeadRoundTrip(p, 0, SEQUENCE, |body|);
    AtSplit(p, at, IntegerTlv(m.version), tail);
    VersionElement(p, behind, at, m.version);
    at := at + |IntegerTlv(m.version)|;
    AtSplit(p, at, StringTlv(m.community), pdu);
    CommunityElement(p, behind, at, m.community);
    PduRoundTrip(p, behind, at + |StringTlv(m.community)|, m, bs);
  }

  /** The length of a binding's own SEQUENCE is read but not used: a name and a value are taken
      to be a binding under any announced length above zero. */
  lemma BindingLengthIgnored(b: Binding, announced: nat, behind: seq<Byte>)
    requires Faithful(b) && 0 < announced <= 0xFFFF
    requires |Header(SEQUENCE, announced) + (OidTlv(b.oid.subids) + b.value)| <= MAX_PACKET_SIZE
    ensures var p := Header(SEQUENCE, announced) + (OidTlv(b.oid.subids) + b.value);
            && BindingAt(p, behind, 0) == Parsed((b.oid, |p|))
            && (p == BindingBytes(b) <==> announced == |OidTlv(b.oid.subids) + b.value|)
  {
    hide Header, OidTlv, HeadAt, OidAt, ValueAt;
    var c := OidTlv(b.oid.subids) + b.value;
    var p := Header(SEQUENCE, announced) + c;
    AtSplit(p, 0, Header(SEQUENCE, announced), c);
    HeadRoundTrip(p, 0, SEQUENCE, announced);
    var next := |Header(SEQUENCE, announced)|;
    AtSplit(p, next, OidTlv(b.oid.subids), b.value);
    OidElement(p, behind, next, b.oid);
    ValueElement(p, next + |OidTlv(b.oid.subids)|, b.value);
    if p == BindingBytes(b) {
      HeadRoundTrip(p, 0, SEQUENCE, |c|);
    }
  }
}
