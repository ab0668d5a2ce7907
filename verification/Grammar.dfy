/** The language of requests the decoder accepts, and of those on which it runs off its buffer,
    described without a cursor: by the pieces a packet can be put together from. */
module Grammar {
  import opened Types
  import opened Machine
  import opened Ber
  import opened OidCodec
  import opened Messages
  import opened RoundTrip

  /** `h` announces `n` octets of contents: in the short form, with one or two length octets,
      shortest or not, or as 0x80, which the agent takes for zero. */
  predicate Announces(h: seq<Byte>, tag: Byte, n: nat) {
    && SupportedTag(tag)
    && n <= 0xFFFF
    && ((n < 0x80 && h == [tag, n])
        || (n == 0 && h == [tag, 0x80])
        || (n < 0x100 && h == [tag, 0x81, n])
        || h == [tag, 0x82, n / 0x100, n % 0x100])
  }

  datatype Element = Element(head: seq<Byte>, tag: Byte, content: seq<Byte>) {
    predicate Valid() {
      Announces(head, tag, |content|)
    }

    function Bytes(): seq<Byte> {
      head + content
    }
  }

  predicate IsInteger(e: Element, v: Int32) {
    e.Valid() && e.tag == INTEGER && e.content != [] && v == ToSigned(Wrap(SignedValue(e.content)))
  }

  /** The announced length of a binding has to be there, and need not be right. Its value comes
      with its own announced length. */
  datatype LooseBinding = LooseBinding(head: seq<Byte>, announced: nat, name: Element,
                                       valueHead: seq<Byte>, valueTag: Byte, valueLength: nat, value: seq<Byte>) {
    predicate Sound() {
      && Announces(head, SEQUENCE, announced) && announced > 0
      && name.Valid() && name.tag == OID && OidOf(name.content).Some?
      && Announces(valueHead, valueTag, valueLength) && (valueTag == NULL <==> valueLength == 0)
    }

    function Name(): Oid
      requires Sound()
    {
      Oid(OidOf(name.content).value, DecodedLength(|name.content|))
    }

    predicate Names(o: Oid) {
      Sound() && o == Name()
    }

    function Bytes(): seq<Byte> {
      head + (name.Bytes() + (valueHead + value))
    }

    predicate Closed() {
      |value| == valueLength
    }

    /** More octets are announced than the guard can tell from an empty value. */
    predicate Open(size: nat) {
      valueLength > size + 1
    }
  }

  function ListBytes(bs: seq<LooseBinding>): seq<Byte> {
    if bs == [] then [] else bs[0].Bytes() + ListBytes(bs[1..])
  }

  /** Values are as long as announced, except that the last one may be open and then has any
      octets there are. */
  predicate NameAll(bs: seq<LooseBinding>, oids: seq<Oid>, size: nat) {
    && |bs| == |oids|
    && forall i :: 0 <= i < |bs| ==>
         bs[i].Names(oids[i]) && (bs[i].Closed() || (i == |bs| - 1 && bs[i].Open(size)))
  }

  /** By how much the end the decoder reckons lies behind the last octet. */
  function Overshoot(bs: seq<LooseBinding>): int {
    if bs == [] then 0 else bs[|bs| - 1].valueLength - |bs[|bs| - 1].value|
  }

  /** The pieces behind the PDU header. */
  datatype LooseBody = LooseBody(id: Element, first: Element, second: Element,
                                 listHead: seq<Byte>, bindings: seq<LooseBinding>) {
    function Bytes(): seq<Byte> {
      id.Bytes() + (first.Bytes() + (second.Bytes() + (listHead + ListBytes(bindings))))
    }

    /** In a packet of `size` octets. */
    predicate Says(m: Message, size: nat) {
      && IsInteger(id, m.id) && IsInteger(first, m.nonRepeaters) && IsInteger(second, m.maxRepetitions)
      && Announces(listHead, SEQUENCE, |ListBytes(bindings)|)
      && |m.oids| <= MAX_NR_OIDS && NameAll(bindings, m.oids, size)
    }
  }

  /** The pieces in front of that, around any body. */
  datatype Frame = Frame(head: seq<Byte>, version: Element, community: Element, pduHead: seq<Byte>) {
    function Content(body: seq<Byte>): seq<Byte> {
      version.Bytes() + (community.Bytes() + (pduHead + body))
    }

    function Bytes(body: seq<Byte>): seq<Byte> {
      head + Content(body)
    }

    predicate Says(body: seq<Byte>, v: Int32, c: seq<Byte>, pdu: Byte) {
      && Announces(head, SEQUENCE, |Content(body)|)
      && IsInteger(version, v) && |version.content| == 1
      && (v == SNMP_VERSION_1 || v == SNMP_VERSION_2C)
      && community.Valid() && community.tag == OCTET_STRING && |community.content| < MAX_STRING_SIZE
      && c == CString(community.content) != []
      && Announces(pduHead, pdu, |body|)
    }
  }

  datatype LooseMessage = LooseMessage(frame: Frame, body: LooseBody) {
    function Bytes(): seq<Byte> {
      frame.Bytes(body.Bytes())
    }

    predicate Says(m: Message) {
      && frame.Says(body.Bytes(), m.version, m.community, m.pdu)
      && body.Says(m, |Bytes()|)
    }

    predicate Closed() {
      forall i :: 0 <= i < |body.bindings| ==> body.bindings[i].Closed()
    }
  }

  // ----- what is put together from the pieces is accepted -----

  lemma HeadAccepted(p: seq<Byte>, pos: nat, h: seq<Byte>, tag: Byte, n: nat)
    requires Announces(h, tag, n) && At(p, pos, h)
    ensures HeadAt(p, pos) == Parsed(Head(tag, n, pos + |h|))
  {
    hide SupportedTag;
    var s := p[pos..pos + |h|];
    assert s[0] == p[pos] && s[1] == p[pos + 1];
    if |h| > 2 {
      assert s[2..] == p[pos + 2..pos + |h|] == h[2..];
    } else if h[1] == 0x80 {
      assert p[pos + 2..pos + 2] == [];
    }
  }

  lemma ElementAccepted(p: seq<Byte>, behind: seq<Byte>, pos: nat, e: Element)
    requires |p| <= MAX_PACKET_SIZE && e.Valid() && At(p, pos, e.Bytes())
    ensures var next := pos + |e.head|;
            && HeadAt(p, pos) == Parsed(Head(e.tag, |e.content|, next))
            && ContentAt(p, behind, next, |e.content|) == Parsed(e.content)
            && next + |e.content| == pos + |e.Bytes()| <= |p|
  {
    AtSplit(p, pos, e.head, e.content);
    HeadAccepted(p, pos, e.head, e.tag, |e.content|);
    ContentInside(p, behind, pos + |e.head|, |e.content|);
  }

  lemma IntegerAccepted(p: seq<Byte>, behind: seq<Byte>, pos: nat, e: Element, v: Int32)
    requires |p| <= MAX_PACKET_SIZE && IsInteger(e, v) && At(p, pos, e.Bytes())
    ensures IntegerAt(p, behind, pos) == Parsed((v, pos + |e.Bytes()|))
  {
    hide Announces, HeadAt, ContentAt, Wrap, SignedValue;
    ElementAccepted(p, behind, pos, e);
  }

  lemma NameAccepted(p: seq<Byte>, behind: seq<Byte>, pos: nat, e: Element, o: Oid)
    requires |p| <= MAX_PACKET_SIZE && At(p, pos, e.Bytes())
    requires e.Valid() && e.tag == OID
    requires OidOf(e.content) == Some(o.subids) && o.encodedLength == DecodedLength(|e.content|)
    ensures OidAt(p, behind, pos) == Parsed((o, pos + |e.Bytes()|))
  {
    hide Announces, HeadAt, GuardPasses, DecodedLength;
    ElementAccepted(p, behind, pos, e);
    OidNotEmpty(e.content);
  }

  lemma OidNotEmpty(c: seq<Byte>)
    requires OidOf(c).Some?
    ensures c != []
  {
  }

  /** A value is accepted if it is as long as announced, or open. */
  lemma ValueAccepted(p: seq<Byte>, pos: nat, b: LooseBinding, o: Oid)
    requires |p| <= MAX_PACKET_SIZE && b.Names(o) && At(p, pos, b.valueHead + b.value)
    requires b.Closed() || b.Open(|p|)
    ensures ValueAt(p, pos) == Parsed(pos + |b.valueHead| + b.valueLength)
  {
    hide Announces, HeadAt, OidOf;
    AtSplit(p, pos, b.valueHead, b.value);
    HeadAccepted(p, pos, b.valueHead, b.valueTag, b.valueLength);
    Announced(b.valueHead, b.valueTag, b.valueLength);
    GuardMeaning(pos + |b.valueHead|, |p|, b.valueLength);
  }

  lemma Announced(h: seq<Byte>, tag: Byte, n: nat)
    requires Announces(h, tag, n)
    ensures SupportedTag(tag) && n <= 0xFFFF && 2 <= |h| <= 4
  {
  }

  lemma BindingAccepted(p: seq<Byte>, behind: seq<Byte>, pos: nat, b: LooseBinding, o: Oid)
    requires |p| <= MAX_PACKET_SIZE && b.Names(o) && At(p, pos, b.Bytes())
    requires b.Closed() || b.Open(|p|)
    ensures BindingAt(p, behind, pos) == Parsed((o, pos + |b.Bytes()| - |b.value| + b.valueLength))
  {
    hide Announces, HeadAt, OidOf, OidAt, ValueAt, At;
    AtSplit(p, pos, b.head, b.name.Bytes() + (b.valueHead + b.value));
    HeadAccepted(p, pos, b.head, SEQUENCE, b.announced);
    var at := pos + |b.head|;
    AtSplit(p, at, b.name.Bytes(), b.valueHead + b.value);
    NameAccepted(p, behind, at, b.name, o);
    ValueAccepted(p, at + |b.name.Bytes()|, b, o);
  }

  lemma {:induction false} ValueIsInList(bs: seq<LooseBinding>)
    requires bs != []
    ensures |bs[|bs| - 1].value| <= |ListBytes(bs)|
  {
    if |bs| > 1 {
      ValueIsInList(bs[1..]);
    }
  }

  lemma BindingNotEmpty(b: LooseBinding, o: Oid)
    requires b.Names(o)
    ensures |b.Bytes()| > |b.value|
  {
    hide OidOf;
  }

  lemma {:induction false} BindingsAccepted(p: seq<Byte>, behind: seq<Byte>, pos: nat, bs: seq<LooseBinding>,
                                            oids: seq<Oid>, got: nat)
    requires |p| <= MAX_PACKET_SIZE && NameAll(bs, oids, |p|) && got + |oids| <= MAX_NR_OIDS
    requires At(p, pos, ListBytes(bs)) && pos + |ListBytes(bs)| == |p|
    ensures |p| + Overshoot(bs) >= 0
    ensures BindingsAt(p, behind, pos, got) == Parsed((oids, |p| + Overshoot(bs)))
    decreases |bs|
  {
    hide BindingAt, At, LooseBinding.Names, LooseBinding.Bytes;
    if bs == [] {
      assert BindingsAt(p, behind, |p|, got) == Parsed(([], |p|));
    } else {
      var b := bs[0];
      AtSplit(p, pos, b.Bytes(), ListBytes(bs[1..]));
      BindingAccepted(p, behind, pos, b, oids[0]);
      BindingNotEmpty(b, oids[0]);
      var next := pos + |b.Bytes()| - |b.value| + b.valueLength;
      assert oids == [oids[0]] + oids[1..];
      if |bs| == 1 {
        assert next == |p| + Overshoot(bs) >= |p| by { ValueIsInList(bs); }
        assert BindingsAt(p, behind, next, got + 1) == Parsed(([], next));
        assert [oids[0]] + [] == oids;
      } else {
        BindingsAccepted(p, behind, next, bs[1..], oids[1..], got + 1);
      }
    }
  }

  lemma BodyAccepted(p: seq<Byte>, behind: seq<Byte>, pos: nat, d: LooseBody, m: Message)
    requires |p| <= MAX_PACKET_SIZE && d.Says(m, |p|)
    requires At(p, pos, d.Bytes()) && pos + |d.Bytes()| == |p|
    ensures |p| + Overshoot(d.bindings) >= 0
    ensures BodyAt(p, behind, pos, m.version, m.community, m.pdu) == Parsed((m, |p| + Overshoot(d.bindings)))
  {
    hide Announces, IsInteger, HeadAt, IntegerAt, BindingsAt, NameAll, ListBytes, At, Overshoot;
    var list := ListBytes(d.bindings);
    var second := d.second.Bytes() + (d.listHead + list);
    var first := d.first.Bytes() + second;
    AtSplit(p, pos, d.id.Bytes(), first);
    IntegerAccepted(p, behind, pos, d.id, m.id);
    var at := pos + |d.id.Bytes()|;
    AtSplit(p, at, d.first.Bytes(), second);
    IntegerAccepted(p, behind, at, d.first, m.nonRepeaters);
    at := at + |d.first.Bytes()|;
    AtSplit(p, at, d.second.Bytes(), d.listHead + list);
    IntegerAccepted(p, behind, at, d.second, m.maxRepetitions);
    at := at + |d.second.Bytes()|;
    AtSplit(p, at, d.listHead, list);
    HeadAccepted(p, at, d.listHead, SEQUENCE, |list|);
    BindingsAccepted(p, behind, at + |d.listHead|, d.bindings, m.oids, 0);
  }

  lemma VersionAccepted(p: seq<Byte>, behind: seq<Byte>, pos: nat, e: Element, v: Int32)
    requires |p| <= MAX_PACKET_SIZE && IsInteger(e, v) && |e.content| == 1 && At(p, pos, e.Bytes())
    requires v == SNMP_VERSION_1 || v == SNMP_VERSION_2C
    ensures VersionAt(p, behind, pos) == Parsed((v, pos + |e.Bytes()|))
  {
    hide Announces, HeadAt, ContentAt, IntegerAt, SignedValue, Wrap;
    ElementAccepted(p, behind, pos, e);
    IntegerAccepted(p, behind, pos, e, v);
  }

  lemma CommunityAccepted(p: seq<Byte>, behind: seq<Byte>, pos: nat, e: Element)
    requires |p| <= MAX_PACKET_SIZE && e.Valid() && e.tag == OCTET_STRING && |e.content| < MAX_STRING_SIZE
    requires CString(e.content) != [] && At(p, pos, e.Bytes())
    ensures CommunityAt(p, behind, pos) == Parsed((CString(e.content), pos + |e.Bytes()|))
  {
    hide Announces, HeadAt, ContentAt, CString;
    ElementAccepted(p, behind, pos, e);
  }

  /** With the frame in order, everything depends on the body. */
  lemma FrameAccepted(f: Frame, body: seq<Byte>, behind: seq<Byte>, v: Int32, c: seq<Byte>, pdu: Byte)
    requires f.Says(body, v, c, pdu) && |f.Bytes(body)| <= MAX_PACKET_SIZE
    ensures var p := f.Bytes(body);
            var pos := |p| - |body|;
            pos >= 0 && At(p, pos, body) && RequestAt(p, behind) == BodyAt(p, behind, pos, v, c, pdu)
  {
    hide Announces, HeadAt, BodyAt, VersionAt, CommunityAt, IsInteger, CString, At;
    var p := f.Bytes(body);
    var tail := f.pduHead + body;
    AtAll(p);
    AtSplit(p, 0, f.head, f.Content(body));
    HeadAccepted(p, 0, f.head, SEQUENCE, |f.Content(body)|);
    var at := |f.head|;
    AtSplit(p, at, f.version.Bytes(), f.community.Bytes() + tail);
    VersionAccepted(p, behind, at, f.version, v);
    at := at + |f.version.Bytes()|;
    AtSplit(p, at, f.community.Bytes(), tail);
    CommunityAccepted(p, behind, at, f.community);
    at := at + |f.community.Bytes()|;
    AtSplit(p, at, f.pduHead, body);
    HeadAccepted(p, at, f.pduHead, pdu, |body|);
  }

  /** What is put together is accepted, whatever lies behind it in the buffer; an open value
      takes the decoder past the end of the packet. */
  lemma MessageAccepted(d: LooseMessage, m: Message, behind: seq<Byte>)
    requires d.Says(m) && |d.Bytes()| <= MAX_PACKET_SIZE
    ensures var p := d.Bytes();
            |p| + Overshoot(d.body.bindings) >= 0
            && RequestAt(p, behind) == Parsed((m, |p| + Overshoot(d.body.bindings)))
    ensures Overshoot(d.body.bindings) == 0 <==> d.Closed()
  {
    hide Announces, BodyAt, RequestAt, At, Frame.Says;
    var p, body := d.Bytes(), d.body.Bytes();
    FrameAccepted(d.frame, body, behind, m.version, m.community, m.pdu);
    BodyAccepted(p, behind, |p| - |body|, d.body, m);
    if d.body.bindings != [] {
      var last := d.body.bindings[|d.body.bindings| - 1];
      ValueIsInList(d.body.bindings);
      assert last.Closed() || last.Open(|p|);
    }
  }

  // ----- what is accepted comes apart into the pieces -----

  lemma HeadComesApart(p: seq<Byte>, pos: nat)
    requires HeadAt(p, pos).Parsed?
    ensures var h := HeadAt(p, pos).value;
            Announces(p[pos..h.next], h.tag, h.length)
  {
    hide SupportedTag;
    var h := HeadAt(p, pos).value;
    var s := p[pos..h.next];
    if p[pos + 1] == 0x81 {
      assert s == [h.tag, 0x81, p[pos + 2]] && p[pos + 2..h.next] == [p[pos + 2]];
    } else if p[pos + 1] == 0x82 {
      assert s == [h.tag, 0x82, p[pos + 2], p[pos + 3]] && p[pos + 2..h.next] == [p[pos + 2], p[pos + 3]];
      assert h.length == p[pos + 2] as int * 0x100 + p[pos + 3];
      assert h.length / 0x100 == p[pos + 2] && h.length % 0x100 == p[pos + 3];
    } else {
      assert s == [h.tag, p[pos + 1]];
    }
  }

  function ElementOf(p: seq<Byte>, pos: nat): Element
    requires HeadAt(p, pos).Parsed? && HeadAt(p, pos).value.next + HeadAt(p, pos).value.length <= |p|
  {
    var h := HeadAt(p, pos).value;
    Element(p[pos..h.next], h.tag, p[h.next..h.next + h.length])
  }

  lemma ElementComesApart(p: seq<Byte>, behind: seq<Byte>, pos: nat)
    requires |p| <= MAX_PACKET_SIZE && HeadAt(p, pos).Parsed?
    requires HeadAt(p, pos).value.next + HeadAt(p, pos).value.length <= |p|
    ensures var h := HeadAt(p, pos).value;
            var e := ElementOf(p, pos);
            && e.Valid() && e.tag == h.tag && |e.content| == h.length
            && e.Bytes() == p[pos..h.next + h.length]
            && ContentAt(p, behind, h.next, h.length) == Parsed(e.content)
  {
    hide Announces, HeadAt, ContentAt;
    HeadComesApart(p, pos);
    ContentInside(p, behind, HeadAt(p, pos).value.next, HeadAt(p, pos).value.length);
  }

  lemma IntegerComesApart(p: seq<Byte>, behind: seq<Byte>, pos: nat) returns (e: Element)
    requires |p| <= MAX_PACKET_SIZE
    requires IntegerAt(p, behind, pos).Parsed? && IntegerAt(p, behind, pos).value.1 <= |p|
    ensures var r := IntegerAt(p, behind, pos).value;
            IsInteger(e, r.0) && e.Bytes() == p[pos..r.1]
    ensures HeadAt(p, pos).Parsed? && |e.content| == HeadAt(p, pos).value.length
  {
    hide Announces, HeadAt, ContentAt, Wrap, SignedValue;
    ElementComesApart(p, behind, pos);
    e := ElementOf(p, pos);
  }

  lemma Join(p: seq<Byte>, a: nat, b: nat, c: nat)
    requires a <= b <= c <= |p|
    ensures p[a..b] + p[b..c] == p[a..c]
  {
  }

  lemma NameComesApart(p: seq<Byte>, behind: seq<Byte>, pos: nat)
    requires |p| <= MAX_PACKET_SIZE
    requires OidAt(p, behind, pos).Parsed? && OidAt(p, behind, pos).value.1 <= |p|
    ensures HeadAt(p, pos).Parsed? && HeadAt(p, pos).value.next + HeadAt(p, pos).value.length <= |p|
    ensures var r := OidAt(p, behind, pos).value;
            var e := ElementOf(p, pos);
            && e.Valid() && e.tag == OID && e.Bytes() == p[pos..r.1]
            && OidOf(e.content) == Some(r.0.subids) && r.0.encodedLength == DecodedLength(|e.content|)
  {
    hide Announces, HeadAt, OidOf, GuardPasses, DecodedLength;
    ElementComesApart(p, behind, pos);
  }

  /** The end of a binding, which no octet lies behind. */
  function Within(p: seq<Byte>, end: nat): nat {
    if end <= |p| then end else |p|
  }

  lemma BindingComesApart(p: seq<Byte>, behind: seq<Byte>, pos: nat) returns (b: LooseBinding)
    requires |p| <= MAX_PACKET_SIZE && BindingAt(p, behind, pos).Parsed?
    ensures var r := BindingAt(p, behind, pos).value;
            && b.Names(r.0) && pos < Within(p, r.1) && b.Bytes() == p[pos..Within(p, r.1)]
            && if r.1 <= |p| then b.Closed() else b.Open(|p|)
  {
    hide Announces, HeadAt, OidOf, OidAt;
    var h := HeadAt(p, pos).value;
    var o := OidAt(p, behind, h.next).value;
    var v := HeadAt(p, o.1).value;
    var r := BindingAt(p, behind, pos).value;
    var end := Within(p, r.1);
    HeadComesApart(p, pos);
    NameComesApart(p, behind, h.next);
    HeadComesApart(p, o.1);
    GuardMeaning(v.next, |p|, v.length);
    b := LooseBinding(p[pos..h.next], h.length, ElementOf(p, h.next), p[o.1..v.next], v.tag, v.length, p[v.next..end]);
    Join(p, o.1, v.next, end);
    Join(p, h.next, o.1, end);
    Join(p, pos, h.next, end);
  }

  lemma ListOfOne(b: LooseBinding)
    ensures ListBytes([b]) == b.Bytes()
  {
    hide LooseBinding.Bytes;
    assert [b][1..] == [] && b.Bytes() + [] == b.Bytes();
  }

  lemma NoNames(size: nat)
    ensures NameAll([], [], size) && ListBytes([]) == []
  {
  }

  lemma NameAllLast(b: LooseBinding, o: Oid, size: nat)
    requires b.Names(o) && b.Open(size)
    ensures NameAll([b], [o], size) && ListBytes([b]) == b.Bytes()
  {
    hide LooseBinding.Names, LooseBinding.Bytes;
    ListOfOne(b);
  }

  lemma NameAllCons(b: LooseBinding, o: Oid, bs: seq<LooseBinding>, oids: seq<Oid>, size: nat)
    requires b.Names(o) && b.Closed() && NameAll(bs, oids, size)
    ensures NameAll([b] + bs, [o] + oids, size) && ListBytes([b] + bs) == b.Bytes() + ListBytes(bs)
  {
    hide LooseBinding.Names, LooseBinding.Bytes;
    assert ([b] + bs)[1..] == bs;
  }

  lemma {:induction false} BindingsComeApart(p: seq<Byte>, behind: seq<Byte>, pos: nat, got: nat)
    returns (bs: seq<LooseBinding>)
    requires |p| <= MAX_PACKET_SIZE && BindingsAt(p, behind, pos, got).Parsed? && pos <= |p|
    ensures NameAll(bs, BindingsAt(p, behind, pos, got).value.0, |p|) && ListBytes(bs) == p[pos..]
    decreases |p| - pos
  {
    hide BindingAt, NameAll, ListBytes, LooseBinding.Names, LooseBinding.Bytes;
    NoNames(|p|);
    if pos == |p| {
      bs := [];
      assert p[pos..] == [];
    } else {
      var r := BindingAt(p, behind, pos).value;
      var b := BindingComesApart(p, behind, pos);
      assert p[pos..] == p[pos..|p|];
      if r.1 > |p| {
        bs := [b];
        NameAllLast(b, r.0, |p|);
        assert BindingsAt(p, behind, r.1, got + 1) == Parsed(([], r.1)) && [r.0] + [] == [r.0];
      } else {
        var rest := BindingsComeApart(p, behind, r.1, got + 1);
        bs := [b] + rest;
        NameAllCons(b, r.0, rest, BindingsAt(p, behind, r.1, got + 1).value.0, |p|);
        assert p[r.1..] == p[r.1..|p|];
        Join(p, pos, r.1, |p|);
      }
    }
  }

  lemma BodyComesApart(p: seq<Byte>, behind: seq<Byte>, pos: nat, v: Int32, c: seq<Byte>, pdu: Byte)
    returns (d: LooseBody)
    requires |p| <= MAX_PACKET_SIZE && BodyAt(p, behind, pos, v, c, pdu).Parsed? && pos <= |p|
    ensures d.Says(BodyAt(p, behind, pos, v, c, pdu).value.0, |p|)
    ensures d.Bytes() == p[pos..]
  {
    hide Announces, IsInteger, HeadAt, IntegerAt, BindingsAt, NameAll, ListBytes;
    var id := IntegerAt(p, behind, pos).value;
    var first := IntegerAt(p, behind, id.1).value;
    var second := IntegerAt(p, behind, first.1).value;
    var list := HeadAt(p, second.1).value;
    var a := IntegerComesApart(p, behind, pos);
    var b := IntegerComesApart(p, behind, id.1);
    var e := IntegerComesApart(p, behind, first.1);
    HeadComesApart(p, second.1);
    var bs := BindingsComeApart(p, behind, list.next, 0);
    d := LooseBody(a, b, e, p[second.1..list.next], bs);
    assert p[list.next..] == p[list.next..|p|] && p[pos..] == p[pos..|p|];
    Join(p, second.1, list.next, |p|);
    Join(p, first.1, second.1, |p|);
    Join(p, id.1, first.1, |p|);
    Join(p, pos, id.1, |p|);
  }

  /** A packet that is not refused has a frame in order. */
  lemma FrameComesApart(p: seq<Byte>, behind: seq<Byte>)
    returns (f: Frame, pos: nat, v: Int32, c: seq<Byte>, pdu: Byte)
    requires |p| + |behind| == MAX_PACKET_SIZE && !RequestAt(p, behind).Malformed?
    ensures pos <= |p| && f.Says(p[pos..], v, c, pdu) && f.Bytes(p[pos..]) == p
    ensures RequestAt(p, behind) == BodyAt(p, behind, pos, v, c, pdu)
  {
    hide Announces, HeadAt, IntegerAt, BodyAt, CString, Wrap, SignedValue;
    HeadNeverOverruns(p, 0);
    VersionStaysInside(p, behind, HeadAt(p, 0).value.next);
    var h := HeadAt(p, 0).value;
    var ver := VersionAt(p, behind, h.next).value;
    CommunityStaysInside(p, behind, ver.1);
    var com := CommunityAt(p, behind, ver.1).value;
    HeadNeverOverruns(p, com.1);
    var g := HeadAt(p, com.1).value;
    v, c, pdu, pos := ver.0, com.0, g.tag, g.next;
    HeadComesApart(p, 0);
    var version := IntegerComesApart(p, behind, h.next);
    ElementComesApart(p, behind, ver.1);
    HeadComesApart(p, com.1);
    f := Frame(p[0..h.next], version, ElementOf(p, ver.1), p[com.1..pos]);
    assert p[pos..] == p[pos..|p|];
    Join(p, com.1, pos, |p|);
    Join(p, ver.1, com.1, |p|);
    Join(p, h.next, ver.1, |p|);
    Join(p, 0, h.next, |p|);
    assert p[0..|p|] == p;
  }

  lemma HeadNeverOverruns(p: seq<Byte>, pos: nat)
    ensures HeadAt(p, pos) != Overrun
  {
  }

  lemma VersionStaysInside(p: seq<Byte>, behind: seq<Byte>, pos: nat)
    requires |p| <= MAX_PACKET_SIZE
    ensures VersionAt(p, behind, pos) != Overrun
    ensures VersionAt(p, behind, pos).Parsed? ==> VersionAt(p, behind, pos).value.1 <= |p|
  {
    hide Wrap, SignedValue, SupportedTag;
  }

  /** A community is too short to be read beyond the buffer, however the guard stands. */
  lemma CommunityStaysInside(p: seq<Byte>, behind: seq<Byte>, pos: nat)
    requires |p| + |behind| == MAX_PACKET_SIZE
    ensures CommunityAt(p, behind, pos) != Overrun
  {
    hide CString, SupportedTag;
  }

  lemma MessageComesApart(p: seq<Byte>, behind: seq<Byte>) returns (d: LooseMessage)
    requires |p| + |behind| == MAX_PACKET_SIZE && ParseRequest(p, behind).Parsed?
    ensures d.Says(ParseRequest(p, behind).value) && d.Bytes() == p
  {
    hide Frame.Says, Frame.Bytes, LooseBody.Says, LooseBody.Bytes, RequestAt, BodyAt;
    var f, pos, v, c, pdu := FrameComesApart(p, behind);
    var body := BodyComesApart(p, behind, pos, v, c, pdu);
    BodyFields(p, behind, pos, v, c, pdu);
    d := LooseMessage(f, body);
  }

  lemma BodyFields(p: seq<Byte>, behind: seq<Byte>, pos: nat, v: Int32, c: seq<Byte>, pdu: Byte)
    requires BodyAt(p, behind, pos, v, c, pdu).Parsed?
    ensures BodyAt(p, behind, pos, v, c, pdu).value.0.pdu == pdu
  {
    hide IntegerAt, HeadAt, BindingsAt;
  }

  /** The decoder reads `m` from a packet exactly if the packet is put together from pieces
      that say `m`: nothing else is accepted, all of it is, and what lies behind the packet in
      the buffer does not matter. */
  lemma AcceptedLanguage(p: seq<Byte>, behind: seq<Byte>, m: Message)
    requires |p| + |behind| == MAX_PACKET_SIZE
    ensures ParseRequest(p, behind) == Parsed(m) <==> exists d: LooseMessage :: d.Says(m) && d.Bytes() == p
  {
    hide RequestAt;
    if ParseRequest(p, behind) == Parsed(m) {
      var d := MessageComesApart(p, behind);
      assert d.Says(m) && d.Bytes() == p;
    }
    forall d: LooseMessage | d.Says(m) && d.Bytes() == p
      ensures ParseRequest(p, behind) == Parsed(m)
    {
      MessageAccepted(d, m, behind);
    }
  }

  /** The decoder is done exactly at the end of an accepted packet unless the last value is an
      open one. */
  lemma EndsWithPacket(p: seq<Byte>, behind: seq<Byte>)
    requires |p| + |behind| == MAX_PACKET_SIZE && RequestAt(p, behind).Parsed?
    ensures RequestAt(p, behind).value.1 == |p|
            <==> exists d: LooseMessage :: d.Says(RequestAt(p, behind).value.0) && d.Bytes() == p && d.Closed()
  {
    hide RequestAt, LooseMessage.Says, LooseMessage.Bytes, LooseMessage.Closed;
    var m := RequestAt(p, behind).value.0;
    var d := MessageComesApart(p, behind);
    MessageAccepted(d, m, behind);
    assert RequestAt(p, behind).value.1 == |p| ==> d.Says(m) && d.Bytes() == p && d.Closed();
    forall e: LooseMessage | e.Says(m) && e.Bytes() == p && e.Closed()
      ensures RequestAt(p, behind).value.1 == |p|
    {
      MessageAccepted(e, m, behind);
    }
  }

  // ----- a small packet with an open value -----

  /** INTEGER `n`. */
  function Digit(n: Byte): Element {
    Element([0x02, 0x01], INTEGER, [n])
  }

  lemma DigitIs(n: Byte)
    requires n < 0x80
    ensures IsInteger(Digit(n), n)
  {
    var c: seq<Byte> := [n];
    assert c[..0] == [] && Accumulate(0, []) == 0;
    assert SignedValue(c) == Accumulate(0, c[..0]) * 0x100 + c[0];
  }

  /** A frame around a GET with the community "p". */
  function SmallFrame(version: Byte, size: Byte, pduSize: Byte): Frame {
    Frame([0x30, size], Digit(version), Element([0x04, 0x01], OCTET_STRING, [0x70]), [0xA0, pduSize])
  }

  lemma SmallFrameSays(version: Byte, body: seq<Byte>, size: Byte, pduSize: Byte)
    requires version < 2 && |body| == pduSize && size as int == |body| + 8 < 0x80
    ensures SmallFrame(version, size, pduSize).Says(body, version, [0x70], SNMP_GET)
    ensures SmallFrame(version, size, pduSize).Bytes(body)
            == [0x30, size, 0x02, 0x01, version, 0x04, 0x01, 0x70, 0xA0, pduSize] + body
  {
    hide SignedValue;
    DigitIs(version);
    assert CString([]) == [];
    assert CString([0x70]) == [0x70];
  }

  /** A version 2c GET for 1.3 whose value announces 4096 octets and has six: its frame, its
      fields, its binding. */
  const OPEN_FRAME: seq<Byte> := [0x30, 0x22, 0x02, 0x01, 0x01, 0x04, 0x01, 0x70, 0xA0, 0x1A]
  const OPEN_FIELDS: seq<Byte> := [0x02, 0x01, 0x01, 0x02, 0x01, 0x00, 0x02, 0x01, 0x00, 0x30, 0x0F]
  const OPEN_NAME: seq<Byte> := [0x30, 0x0D, 0x06, 0x01, 0x2B, 0x04, 0x82, 0x10, 0x00, 0x09, 0x09, 0x09, 0x09, 0x09, 0x09]
  const OPEN_VALUE: seq<Byte> := OPEN_FRAME + (OPEN_FIELDS + OPEN_NAME)

  lemma OneThree()
    ensures OidOf([0x2B]) == Some([1, 3])
  {
    assert [0x2B][1..] == [];
    assert [1, 3] + [] == [1, 3];
  }

  const OPEN_BINDING := LooseBinding([0x30, 0x0D], 0x0D, Element([0x06, 0x01], OID, [0x2B]),
                                     [0x04, 0x82, 0x10, 0x00], OCTET_STRING, 0x1000,
                                     [0x09, 0x09, 0x09, 0x09, 0x09, 0x09])

  const OPEN_BODY := LooseBody(Digit(1), Digit(0), Digit(0), [0x30, 0x0F], [OPEN_BINDING])

  lemma OpenBindingBytes()
    ensures OPEN_BINDING.Bytes() == OPEN_NAME
    ensures ListBytes([OPEN_BINDING]) == OPEN_BINDING.Bytes()
  {
    hide ListBytes;
    ListOfOne(OPEN_BINDING);
  }

  lemma OpenBodyBytes()
    ensures |ListBytes([OPEN_BINDING])| == 15
    ensures OPEN_BODY.Bytes() == OPEN_FIELDS + OPEN_NAME
  {
    hide LooseBinding.Bytes, ListBytes;
    OpenBindingBytes();
  }

  lemma OpenBindingNames()
    ensures OPEN_BINDING.Names(Oid([1, 3], 3))
  {
    hide OidOf;
    OneThree();
  }

  /** It is accepted, and the decoder is done 4090 octets behind its end. */
  lemma OpenValueAccepted(behind: seq<Byte>)
    ensures RequestAt(OPEN_VALUE, behind)
            == Parsed((Message(SNMP_VERSION_2C, [0x70], SNMP_GET, 1, 0, 0, [Oid([1, 3], 3)]), |OPEN_VALUE| + 4090))
  {
    hide RequestAt, Frame.Says, Frame.Bytes, IsInteger, LooseBinding.Names, LooseBinding.Bytes, LooseBody.Bytes, ListBytes;
    var m := Message(SNMP_VERSION_2C, [0x70], SNMP_GET, 1, 0, 0, [Oid([1, 3], 3)]);
    OpenBindingNames();
    OpenBodyBytes();
    DigitIs(1);
    DigitIs(0);
    var d := LooseMessage(SmallFrame(1, 34, 26), OPEN_BODY);
    SmallFrameSays(1, OPEN_BODY.Bytes(), 34, 26);
    assert d.Bytes() == OPEN_VALUE;
    MessageAccepted(d, m, behind);
  }
}
