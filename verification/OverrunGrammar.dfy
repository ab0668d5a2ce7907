/** The packets on which the decoder reads beyond the buffer that holds them: well-formed up to
    the head of an integer or a name that announces more than there is. */
module OverrunGrammar {
  import opened Types
  import opened Machine
  import opened Ber
  import opened OidCodec
  import opened Messages
  import opened RoundTrip
  import opened Grammar

  predicate AllIntegers(es: seq<Element>) {
    forall i :: 0 <= i < |es| ==> es[i].Valid() && es[i].tag == INTEGER && es[i].content != []
  }

  function ElementsBytes(es: seq<Element>): seq<Byte> {
    if es == [] then [] else es[0].Bytes() + ElementsBytes(es[1..])
  }

  predicate AllSound(bs: seq<LooseBinding>) {
    forall i :: 0 <= i < |bs| ==> bs[i].Sound() && bs[i].Closed()
  }

  /** Where the fatal head stands: among the integer fields, or in the name of a binding. */
  datatype Place =
    | Field
    | Name(listHead: seq<Byte>, bindings: seq<LooseBinding>, bindingHead: seq<Byte>, announced: nat)

  /** The pieces behind the PDU header: complete fields, the fatal head `last` that announces
      `length` octets, and what the packet has behind that head. */
  datatype CutBody = CutBody(fields: seq<Element>, place: Place, last: seq<Byte>, length: nat, rest: seq<Byte>) {
    function Tail(): seq<Byte> {
      match place
      case Field => last + rest
      case Name(_, bindings, bindingHead, _) => ListBytes(bindings) + (bindingHead + (last + rest))
    }

    function Bytes(): seq<Byte> {
      ElementsBytes(fields) + (if place.Field? then Tail() else place.listHead + Tail())
    }

    /** In a packet of `size` octets with `behind` behind it: the guard takes the announced
        length for a fitting one, and the buffer ends before the contents do. */
    predicate RunsOn(size: nat, behind: seq<Byte>) {
      && AllIntegers(fields)
      && length > size + 1 && length > |rest| + |behind|
      && match place
         case Field => |fields| < 3 && Announces(last, INTEGER, length)
         case Name(listHead, bindings, bindingHead, announced) =>
           && |fields| == 3 && Announces(listHead, SEQUENCE, |Tail()|)
           && |bindings| < MAX_NR_OIDS && AllSound(bindings)
           && Announces(bindingHead, SEQUENCE, announced) && announced > 0
           && Announces(last, OID, length)
    }

    /** An integer is read to the end of the buffer; a name unless it is refused before. */
    predicate Overruns(size: nat, behind: seq<Byte>) {
      RunsOn(size, behind) && (place.Name? ==> !GivesUp(rest + behind))
    }
  }

  datatype CutMessage = CutMessage(frame: Frame, version: Int32, community: seq<Byte>, pdu: Byte, body: CutBody) {
    function Bytes(): seq<Byte> {
      frame.Bytes(body.Bytes())
    }

    predicate Framed() {
      frame.Says(body.Bytes(), version, community, pdu)
    }

    predicate Overruns(behind: seq<Byte>) {
      Framed() && body.Overruns(|Bytes()|, behind)
    }
  }

  // ----- the fatal heads -----

  lemma IntegerOverrun(p: seq<Byte>, behind: seq<Byte>, pos: nat)
    requires |p| <= MAX_PACKET_SIZE
    ensures IntegerAt(p, behind, pos) == Overrun
            <==> && HeadAt(p, pos).Parsed?
                 && var h := HeadAt(p, pos).value;
                    h.tag == INTEGER && h.length > |p| + 1 && h.next + h.length > |p| + |behind|
  {
    hide HeadAt, GuardPasses, SignedValue, Wrap;
    HeadNeverOverruns(p, pos);
    if HeadAt(p, pos).Parsed? {
      GuardMeaning(HeadAt(p, pos).value.next, |p|, HeadAt(p, pos).value.length);
    }
  }

  lemma NameOverrun(p: seq<Byte>, behind: seq<Byte>, pos: nat)
    requires |p| <= MAX_PACKET_SIZE
    ensures OidAt(p, behind, pos) == Overrun
            <==> && HeadAt(p, pos).Parsed?
                 && var h := HeadAt(p, pos).value;
                    && h.tag == OID && h.length > |p| + 1 && h.next + h.length > |p| + |behind|
                    && !GivesUp(p[h.next..] + behind)
    ensures HeadAt(p, pos).Parsed? ==>
              var h := HeadAt(p, pos).value;
              h.tag == OID && h.length > |p| + 1 && h.next + h.length > |p| + |behind| && GivesUp(p[h.next..] + behind)
              ==> OidAt(p, behind, pos) == Malformed
  {
    hide HeadAt, GuardPasses, OidOf, GivesUp, DecodedLength;
    HeadNeverOverruns(p, pos);
    if HeadAt(p, pos).Parsed? {
      var h := HeadAt(p, pos).value;
      GuardMeaning(h.next, |p|, h.length);
      assert (p + behind)[h.next..] == p[h.next..] + behind;
    }
  }

  // ----- integer fields -----

  /** The position after `n` integers. */
  function FieldsAt(p: seq<Byte>, behind: seq<Byte>, pos: nat, n: nat): (r: Parse<nat>)
    ensures r.Parsed? ==> r.value >= pos
    decreases n
  {
    if n == 0 then Parsed(pos)
    else
      var f :- IntegerAt(p, behind, pos);
      FieldsAt(p, behind, f.1, n - 1)
  }

  /** A body overruns in one of its three fields, or in the list behind them. */
  lemma BodyFails(p: seq<Byte>, behind: seq<Byte>, pos: nat, v: Int32, c: seq<Byte>, pdu: Byte)
    ensures var r, f := BodyAt(p, behind, pos, v, c, pdu), FieldsAt(p, behind, pos, 3);
            && (f.Overrun? ==> r == Overrun)
            && (f.Malformed? ==> r == Malformed)
            && (f.Parsed? ==>
                  match HeadAt(p, f.value)
                  case Parsed(list) =>
                    if list.tag != SEQUENCE || list.length != |p| - list.next then r == Malformed
                    else BindingsAt(p, behind, list.next, 0).Parsed? || r == BindingsAt(p, behind, list.next, 0).PropagateFailure()
                  case _ => r == Malformed)
    ensures BodyAt(p, behind, pos, v, c, pdu).Overrun? && FieldsAt(p, behind, pos, 3).Parsed? ==>
              var h := HeadAt(p, FieldsAt(p, behind, pos, 3).value);
              h.Parsed? && BindingsAt(p, behind, h.value.next, 0) == Overrun
  {
    hide IntegerAt, HeadAt, BindingsAt;
    var f := IntegerAt(p, behind, pos);
    if f.Parsed? {
      var g := IntegerAt(p, behind, f.value.1);
      if g.Parsed? {
        var h := IntegerAt(p, behind, g.value.1);
        if h.Parsed? {
          assert FieldsAt(p, behind, g.value.1, 1) == FieldsAt(p, behind, h.value.1, 0) == Parsed(h.value.1);
          HeadNeverOverruns(p, h.value.1);
        }
      }
    }
  }

  lemma {:induction false} FieldsRunOn(p: seq<Byte>, behind: seq<Byte>, pos: nat, es: seq<Element>, n: nat)
    requires |p| <= MAX_PACKET_SIZE && AllIntegers(es) && |es| <= n && At(p, pos, ElementsBytes(es))
    ensures FieldsAt(p, behind, pos, n) == FieldsAt(p, behind, pos + |ElementsBytes(es)|, n - |es|)
    decreases n
  {
    hide IntegerAt, At, Announces;
    if es != [] {
      AtSplit(p, pos, es[0].Bytes(), ElementsBytes(es[1..]));
      IntegerAccepted(p, behind, pos, es[0], ToSigned(Wrap(SignedValue(es[0].content))));
      FieldsRunOn(p, behind, pos + |es[0].Bytes()|, es[1..], n - 1);
    }
  }

  lemma FieldNeedsHead(p: seq<Byte>, behind: seq<Byte>, pos: nat)
    ensures !IntegerAt(p, behind, pos).Malformed? ==> pos + 2 <= |p|
  {
    hide ContentAt, SupportedTag, SignedValue;
  }

  lemma NoElements()
    ensures AllIntegers([]) && ElementsBytes([]) == []
  {
  }

  lemma ElementsCons(e: Element, rest: seq<Element>)
    requires e.Valid() && e.tag == INTEGER && e.content != [] && AllIntegers(rest)
    ensures AllIntegers([e] + rest) && ElementsBytes([e] + rest) == e.Bytes() + ElementsBytes(rest)
  {
    hide Announces, Element.Bytes;
    assert ([e] + rest)[1..] == rest;
  }

  lemma {:induction false} FieldsComeApart(p: seq<Byte>, behind: seq<Byte>, pos: nat, n: nat)
    returns (es: seq<Element>)
    requires |p| <= MAX_PACKET_SIZE && pos <= |p| && n <= 3
    requires var r := FieldsAt(p, behind, pos, n); r.Overrun? || (r.Parsed? && r.value <= |p|)
    ensures AllIntegers(es) && |es| <= n && At(p, pos, ElementsBytes(es))
    ensures var at := pos + |ElementsBytes(es)|;
            match FieldsAt(p, behind, pos, n)
            case Overrun => |es| < n && IntegerAt(p, behind, at) == Overrun
            case Parsed(end) => |es| == n && at == end
            case _ => false
    decreases n
  {
    hide IntegerAt, Announces, SignedValue, ElementsBytes, AllIntegers, Element.Bytes;
    NoElements();
    if n == 0 || IntegerAt(p, behind, pos).Overrun? {
      es := [];
    } else {
      var next := IntegerAt(p, behind, pos).value.1;
      if n > 1 {
        FieldNeedsHead(p, behind, next);
      }
      var e := IntegerComesApart(p, behind, pos);
      var rest := FieldsComeApart(p, behind, next, n - 1);
      es := [e] + rest;
      ElementsCons(e, rest);
      assert p[pos..next] + p[next..next + |ElementsBytes(rest)|] == p[pos..next + |ElementsBytes(rest)|];
    }
  }

  // ----- bindings -----

  lemma {:induction false} BindingsRunOn(p: seq<Byte>, behind: seq<Byte>, pos: nat, bs: seq<LooseBinding>, got: nat)
    requires |p| <= MAX_PACKET_SIZE && AllSound(bs) && got + |bs| < MAX_NR_OIDS
    requires At(p, pos, ListBytes(bs)) && !BindingsAt(p, behind, pos + |ListBytes(bs)|, got + |bs|).Parsed?
    ensures BindingsAt(p, behind, pos, got) == BindingsAt(p, behind, pos + |ListBytes(bs)|, got + |bs|)
    decreases |bs|
  {
    hide BindingAt, At, LooseBinding.Sound, LooseBinding.Bytes, LooseBinding.Name;
    if bs != [] {
      AtSplit(p, pos, bs[0].Bytes(), ListBytes(bs[1..]));
      BindingAccepted(p, behind, pos, bs[0], bs[0].Name());
      BindingNotEmpty(bs[0], bs[0].Name());
      PastTheStart(p, pos, bs[0].Bytes());
      BindingsRunOn(p, behind, pos + |bs[0].Bytes()|, bs[1..], got + 1);
    }
  }

  lemma PastTheStart(p: seq<Byte>, pos: nat, bytes: seq<Byte>)
    requires At(p, pos, bytes) && bytes != []
    ensures pos < |p|
  {
  }

  lemma BindingOverrun(p: seq<Byte>, behind: seq<Byte>, pos: nat)
    ensures BindingAt(p, behind, pos) == Overrun
            <==> && HeadAt(p, pos).Parsed?
                 && var h := HeadAt(p, pos).value;
                    h.tag == SEQUENCE && h.length > 0 && OidAt(p, behind, h.next) == Overrun
  {
    hide HeadAt, OidAt, ValueAt;
    HeadNeverOverruns(p, pos);
  }

  lemma {:induction false} BindingsComeToOverrun(p: seq<Byte>, behind: seq<Byte>, pos: nat, got: nat)
    returns (bs: seq<LooseBinding>)
    requires |p| <= MAX_PACKET_SIZE && BindingsAt(p, behind, pos, got) == Overrun
    ensures AllSound(bs) && got + |bs| < MAX_NR_OIDS && At(p, pos, ListBytes(bs))
    ensures BindingAt(p, behind, pos + |ListBytes(bs)|) == Overrun
    decreases |p| - pos
  {
    hide BindingAt, LooseBinding.Sound, LooseBinding.Bytes, LooseBinding.Name;
    if BindingAt(p, behind, pos).Overrun? {
      bs := [];
    } else {
      var next := BindingAt(p, behind, pos).value.1;
      var b := BindingComesApart(p, behind, pos);
      var rest := BindingsComeToOverrun(p, behind, next, got + 1);
      bs := [b] + rest;
      assert bs[1..] == rest;
      assert p[pos..next] + p[next..next + |ListBytes(rest)|] == p[pos..next + |ListBytes(rest)|];
    }
  }

  // ----- what is put together overruns -----

  lemma FieldOverruns(p: seq<Byte>, behind: seq<Byte>, pos: nat, d: CutBody, v: Int32, c: seq<Byte>, pdu: Byte)
    requires |p| <= MAX_PACKET_SIZE && d.RunsOn(|p|, behind) && d.place.Field?
    requires At(p, pos, d.Bytes()) && pos + |d.Bytes()| == |p|
    ensures BodyAt(p, behind, pos, v, c, pdu) == Overrun
  {
    hide Announces, AllIntegers, IntegerAt, FieldsAt, ElementsBytes, BodyAt, At, HeadAt;
    var at := pos + |ElementsBytes(d.fields)|;
    AtSplit(p, pos, ElementsBytes(d.fields), d.last + d.rest);
    FieldsRunOn(p, behind, pos, d.fields, 3);
    AtSplit(p, at, d.last, d.rest);
    HeadAccepted(p, at, d.last, INTEGER, d.length);
    IntegerOverrun(p, behind, at);
    FirstFieldOverruns(p, behind, at, 3 - |d.fields|);
    BodyFails(p, behind, pos, v, c, pdu);
  }

  lemma FirstFieldOverruns(p: seq<Byte>, behind: seq<Byte>, pos: nat, n: nat)
    requires n > 0 && IntegerAt(p, behind, pos) == Overrun
    ensures FieldsAt(p, behind, pos, n) == Overrun
  {
  }

  /** A name with this place in a packet is refused or read beyond the buffer, which depends on
      the octets left behind the packet. */
  lemma NameOverruns(p: seq<Byte>, behind: seq<Byte>, pos: nat, d: CutBody, v: Int32, c: seq<Byte>, pdu: Byte)
    requires |p| <= MAX_PACKET_SIZE && d.RunsOn(|p|, behind) && d.place.Name?
    requires At(p, pos, d.Bytes()) && pos + |d.Bytes()| == |p|
    ensures BodyAt(p, behind, pos, v, c, pdu) == if GivesUp(d.rest + behind) then Malformed else Overrun
  {
    hide Announces, AllIntegers, AllSound, BodyAt, BindingsAt, At, HeadAt, GivesUp, CutBody.Tail, FieldsAt,
         ElementsBytes;
    var at := pos + |ElementsBytes(d.fields)|;
    AtSplit(p, pos, ElementsBytes(d.fields), d.place.listHead + d.Tail());
    FieldsRunOn(p, behind, pos, d.fields, 3);
    assert FieldsAt(p, behind, at, 0) == Parsed(at) by { NoFields(p, behind, at); }
    AtSplit(p, at, d.place.listHead, d.Tail());
    HeadAccepted(p, at, d.place.listHead, SEQUENCE, |d.Tail()|);
    ListFate(p, behind, at + |d.place.listHead|, d);
    BodyFails(p, behind, pos, v, c, pdu);
  }

  lemma NoFields(p: seq<Byte>, behind: seq<Byte>, pos: nat)
    ensures FieldsAt(p, behind, pos, 0) == Parsed(pos)
  {
  }

  lemma ListFate(p: seq<Byte>, behind: seq<Byte>, pos: nat, d: CutBody)
    requires |p| <= MAX_PACKET_SIZE && d.RunsOn(|p|, behind) && d.place.Name?
    requires At(p, pos, d.Tail()) && pos + |d.Tail()| == |p|
    ensures BindingsAt(p, behind, pos, 0) == if GivesUp(d.rest + behind) then Malformed else Overrun
  {
    hide Announces, AllIntegers, AllSound, BindingAt, BindingsAt, At, GivesUp;
    var list, name := ListBytes(d.place.bindings), d.last + d.rest;
    AtSplit(p, pos, list, d.place.bindingHead + name);
    var last := pos + |list|;
    AtSplit(p, last, d.place.bindingHead, name);
    BindingFate(p, behind, last, d);
    BindingsFate(p, behind, last, |d.place.bindings|);
    BindingsRunOn(p, behind, pos, d.place.bindings, 0);
  }

  lemma BindingFate(p: seq<Byte>, behind: seq<Byte>, pos: nat, d: CutBody)
    requires |p| <= MAX_PACKET_SIZE && d.RunsOn(|p|, behind) && d.place.Name?
    requires At(p, pos, d.place.bindingHead) && At(p, pos + |d.place.bindingHead|, d.last + d.rest)
    requires pos + |d.place.bindingHead + (d.last + d.rest)| == |p|
    ensures pos < |p|
    ensures BindingAt(p, behind, pos) == if GivesUp(d.rest + behind) then Malformed else Overrun
  {
    hide Announces, AllIntegers, AllSound, HeadAt, OidAt, GivesUp, At;
    Announced(d.place.bindingHead, SEQUENCE, d.place.announced);
    HeadAccepted(p, pos, d.place.bindingHead, SEQUENCE, d.place.announced);
    var at := pos + |d.place.bindingHead|;
    AtSplit(p, at, d.last, d.rest);
    HeadAccepted(p, at, d.last, OID, d.length);
    RestIs(p, at + |d.last|, d.rest);
    NameOverrun(p, behind, at);
  }

  lemma RestIs(p: seq<Byte>, pos: nat, rest: seq<Byte>)
    requires At(p, pos, rest) && pos + |rest| == |p|
    ensures p[pos..] == rest
  {
  }

  lemma BindingsFate(p: seq<Byte>, behind: seq<Byte>, pos: nat, got: nat)
    requires pos < |p| && got < MAX_NR_OIDS && !BindingAt(p, behind, pos).Parsed?
    ensures BindingsAt(p, behind, pos, got) == BindingAt(p, behind, pos).PropagateFailure()
  {
    hide BindingAt;
  }

  lemma CutOverruns(d: CutMessage, behind: seq<Byte>)
    requires d.Framed() && d.body.RunsOn(|d.Bytes()|, behind) && |d.Bytes()| <= MAX_PACKET_SIZE
    ensures RequestAt(d.Bytes(), behind)
            == if d.body.place.Name? && GivesUp(d.body.rest + behind) then Malformed else Overrun
  {
    hide RequestAt, BodyAt, At, Frame.Says, Frame.Bytes, CutBody.RunsOn, CutBody.Bytes, GivesUp;
    var p, body := d.Bytes(), d.body.Bytes();
    FrameAccepted(d.frame, body, behind, d.version, d.community, d.pdu);
    if d.body.place.Field? {
      FieldOverruns(p, behind, |p| - |body|, d.body, d.version, d.community, d.pdu);
    } else {
      NameOverruns(p, behind, |p| - |body|, d.body, d.version, d.community, d.pdu);
    }
  }

  // ----- what overruns comes apart into the pieces -----

  lemma FieldComesApart(p: seq<Byte>, behind: seq<Byte>, pos: nat) returns (d: CutBody)
    requires |p| <= MAX_PACKET_SIZE && pos <= |p| && FieldsAt(p, behind, pos, 3) == Overrun
    ensures d.Overruns(|p|, behind) && d.Bytes() == p[pos..]
  {
    hide Announces, AllIntegers, IntegerAt, HeadAt, FieldsAt, ElementsBytes;
    var fields := FieldsComeApart(p, behind, pos, 3);
    var at := pos + |ElementsBytes(fields)|;
    IntegerOverrun(p, behind, at);
    HeadComesApart(p, at);
    var h := HeadAt(p, at).value;
    d := CutBody(fields, Field, p[at..h.next], h.length, p[h.next..]);
    Tails(p, at, h.next);
    Tails(p, pos, at);
  }

  lemma Tails(p: seq<Byte>, a: nat, b: nat)
    requires a <= b <= |p|
    ensures p[a..b] + p[b..] == p[a..]
  {
  }

  /** The list up to the fatal name, as a body without its fields and list header. */
  lemma ListComesApart(p: seq<Byte>, behind: seq<Byte>, pos: nat) returns (d: CutBody)
    requires |p| <= MAX_PACKET_SIZE && pos <= |p| && BindingsAt(p, behind, pos, 0) == Overrun
    ensures d.place.Name? && d.Tail() == p[pos..]
    ensures |d.place.bindings| < MAX_NR_OIDS && AllSound(d.place.bindings)
    ensures Announces(d.place.bindingHead, SEQUENCE, d.place.announced) && d.place.announced > 0
    ensures Announces(d.last, OID, d.length) && !GivesUp(d.rest + behind)
    ensures d.length > |p| + 1 && d.length > |d.rest| + |behind|
  {
    hide Announces, AllSound, BindingAt, BindingsAt, OidAt, HeadAt, ListBytes, GivesUp;
    var bs := BindingsComeToOverrun(p, behind, pos, 0);
    var last := pos + |ListBytes(bs)|;
    BindingOverrun(p, behind, last);
    HeadComesApart(p, last);
    var b := HeadAt(p, last).value;
    NameOverrun(p, behind, b.next);
    HeadComesApart(p, b.next);
    var h := HeadAt(p, b.next).value;
    d := CutBody([], Name([], bs, p[last..b.next], b.length), p[b.next..h.next], h.length, p[h.next..]);
    Tails(p, b.next, h.next);
    Tails(p, last, b.next);
    Tails(p, pos, last);
  }

  lemma NameComesApart(p: seq<Byte>, behind: seq<Byte>, pos: nat, list: Head) returns (d: CutBody)
    requires |p| <= MAX_PACKET_SIZE && pos <= |p|
    requires FieldsAt(p, behind, pos, 3).Parsed? && HeadAt(p, FieldsAt(p, behind, pos, 3).value) == Parsed(list)
    requires list.tag == SEQUENCE && list.length == |p| - list.next
    requires BindingsAt(p, behind, list.next, 0) == Overrun
    ensures d.Overruns(|p|, behind) && d.Bytes() == p[pos..]
  {
    hide Announces, AllIntegers, AllSound, BindingsAt, HeadAt, FieldsAt, ElementsBytes, ListBytes, GivesUp;
    var at := FieldsAt(p, behind, pos, 3).value;
    HeadComesApart(p, at);
    var fields := FieldsComeApart(p, behind, pos, 3);
    var l := ListComesApart(p, behind, list.next);
    d := l.(fields := fields, place := l.place.(listHead := p[at..list.next]));
    assert d.Tail() == l.Tail();
    Tails(p, at, list.next);
    Tails(p, pos, at);
  }

  lemma CutComesApart(p: seq<Byte>, behind: seq<Byte>) returns (d: CutMessage)
    requires |p| + |behind| == MAX_PACKET_SIZE && ParseRequest(p, behind) == Overrun
    ensures d.Overruns(behind) && d.Bytes() == p
  {
    hide RequestAt, BodyAt, FieldsAt, BindingsAt, HeadAt, Frame.Says, Frame.Bytes, CutBody.Overruns, CutBody.Bytes;
    var f, pos, v, c, pdu := FrameComesApart(p, behind);
    BodyFails(p, behind, pos, v, c, pdu);
    var body;
    if FieldsAt(p, behind, pos, 3).Overrun? {
      body := FieldComesApart(p, behind, pos);
    } else {
      body := NameComesApart(p, behind, pos, HeadAt(p, FieldsAt(p, behind, pos, 3).value).value);
    }
    d := CutMessage(f, v, c, pdu, body);
  }

  /** The decoder reads beyond the buffer exactly if the packet is well-formed up to the head of
      an integer field or a name that announces at least two octets more than the packet has, and
      more than the buffer has left; for a name, unless too many subidentifiers or a wrong first
      octet end it before. In all other cases a packet is accepted or refused. */
  lemma OverrunLanguage(p: seq<Byte>, behind: seq<Byte>)
    requires |p| + |behind| == MAX_PACKET_SIZE
    ensures ParseRequest(p, behind) == Overrun <==> exists d: CutMessage :: d.Overruns(behind) && d.Bytes() == p
  {
    hide RequestAt, CutBody.RunsOn, GivesUp;
    if ParseRequest(p, behind) == Overrun {
      var d := CutComesApart(p, behind);
      assert d.Overruns(behind) && d.Bytes() == p;
    }
    forall d: CutMessage | d.Overruns(behind) && d.Bytes() == p
      ensures ParseRequest(p, behind) == Overrun
    {
      CutOverruns(d, behind);
    }
  }

  /** What an earlier packet has left behind an accepted one never changes how it is read. */
  lemma AcceptedForAllBuffers(p: seq<Byte>, behind: seq<Byte>, other: seq<Byte>)
    requires |p| + |behind| == |p| + |other| == MAX_PACKET_SIZE && ParseRequest(p, behind).Parsed?
    ensures ParseRequest(p, other) == ParseRequest(p, behind)
  {
    hide RequestAt, LooseMessage.Says, LooseMessage.Bytes;
    var d := MessageComesApart(p, behind);
    MessageAccepted(d, ParseRequest(p, behind).value, other);
    assert RequestAt(p, other).Parsed? && RequestAt(p, other).value.0 == ParseRequest(p, behind).value;
  }

  // ----- the three cases on small packets -----

  /** SEQUENCE, version 1, community "p", GET, and then the head of an integer of `n` octets. */
  function BareInteger(n: nat): seq<Byte>
    requires n <= 0xFFFF
  {
    [0x30, 0x0C, 0x02, 0x01, 0x00, 0x04, 0x01, 0x70, 0xA0, 0x04, 0x02, 0x82, n / 0x100, n % 0x100]
  }

  /** An integer of 2^16 - 1 octets is read beyond the buffer, whatever lies behind the packet. */
  lemma IntegerBeyondBuffer(behind: seq<Byte>)
    requires |BareInteger(0xFFFF)| + |behind| == MAX_PACKET_SIZE
    ensures ParseRequest(BareInteger(0xFFFF), behind) == Overrun
  {
    hide RequestAt, Frame.Says;
    var body := CutBody([], Field, [0x02, 0x82, 0xFF, 0xFF], 0xFFFF, []);
    SmallFrameSays(0, body.Bytes(), 12, 4);
    var d := CutMessage(SmallFrame(0, 12, 4), SNMP_VERSION_1, [0x70], SNMP_GET, body);
    assert d.Bytes() == BareInteger(0xFFFF);
    CutOverruns(d, behind);
  }

  /** One of 512 octets is read behind the packet but within the buffer, and the request is
      refused because nothing follows. */
  lemma IntegerWithinBuffer(behind: seq<Byte>)
    requires |BareInteger(0x200)| + |behind| == MAX_PACKET_SIZE
    ensures ParseRequest(BareInteger(0x200), behind) == Malformed
  {
    hide RequestAt, BodyAt, Frame.Says, SignedValue, Wrap;
    var p, head := BareInteger(0x200), [0x02, 0x82, 0x02, 0x00];
    SmallFrameSays(0, head, 12, 4);
    assert SmallFrame(0, 12, 4).Bytes(head) == p;
    FrameAccepted(SmallFrame(0, 12, 4), head, behind, SNMP_VERSION_1, [0x70], SNMP_GET);
    assert p[10..] == head;
    HeadAccepted(p, 10, head, INTEGER, 0x200);
    LaterFieldsFail(p, behind, 10);
    BodyFails(p, behind, 10, SNMP_VERSION_1, [0x70], SNMP_GET);
  }

  /** Nothing is read from a position behind the packet. */
  lemma LaterFieldsFail(p: seq<Byte>, behind: seq<Byte>, pos: nat)
    requires IntegerAt(p, behind, pos) == Malformed
             || (IntegerAt(p, behind, pos).Parsed? && IntegerAt(p, behind, pos).value.1 > |p|)
    ensures FieldsAt(p, behind, pos, 3) == Malformed
  {
    if IntegerAt(p, behind, pos).Parsed? {
      FieldNeedsHead(p, behind, IntegerAt(p, behind, pos).value.1);
    }
  }

  /** Three integers, a list, a binding, and then the head of a name of 4096 octets. */
  const BARE_NAME: seq<Byte> :=
    [0x30, 0x19, 0x02, 0x01, 0x00, 0x04, 0x01, 0x70, 0xA0, 0x11, 0x02, 0x01, 0x00, 0x02, 0x01, 0x00, 0x02, 0x01, 0x00,
     0x30, 0x06, 0x30, 0x01, 0x06, 0x82, 0x10, 0x00]

  const BARE_NAME_BODY := CutBody([Digit(0), Digit(0), Digit(0)], Name([0x30, 0x06], [], [0x30, 0x01], 1),
                                  [0x06, 0x82, 0x10, 0x00], 0x1000, [])

  lemma BareNameBytes()
    ensures BARE_NAME_BODY.Bytes() == BARE_NAME[10..]
    ensures |BARE_NAME_BODY.Tail()| == 6 && |BARE_NAME_BODY.Bytes()| == 17
  {
    ThreeElements(Digit(0));
    assert ListBytes([]) == [];
    assert BARE_NAME_BODY.Tail() == [0x30, 0x01, 0x06, 0x82, 0x10, 0x00];
    assert ElementsBytes([Digit(0), Digit(0), Digit(0)]) == [0x02, 0x01, 0x00, 0x02, 0x01, 0x00, 0x02, 0x01, 0x00];
  }

  /** What becomes of it depends on the octets that an earlier packet has left in the buffer. */
  lemma NameDependsOnBuffer(behind: seq<Byte>)
    requires |BARE_NAME| + |behind| == MAX_PACKET_SIZE
    ensures ParseRequest(BARE_NAME, behind) == if GivesUp(behind) then Malformed else Overrun
  {
    hide RequestAt, Frame.Says, Frame.Bytes, CutBody.Bytes, GivesUp;
    DigitIs(0);
    BareNameBytes();
    SmallFrameSays(0, BARE_NAME_BODY.Bytes(), 25, 17);
    var d := CutMessage(SmallFrame(0, 25, 17), SNMP_VERSION_1, [0x70], SNMP_GET, BARE_NAME_BODY);
    assert d.Bytes() == BARE_NAME[..10] + BARE_NAME[10..] == BARE_NAME;
    assert [] + behind == behind;
    CutOverruns(d, behind);
  }

  lemma ThreeElements(e: Element)
    ensures ElementsBytes([e, e, e]) == e.Bytes() + e.Bytes() + e.Bytes()
  {
    assert [e, e, e][1..] == [e, e] && [e, e][1..] == [e] && [e][1..] == [];
    assert ElementsBytes([e]) == e.Bytes() + [];
  }
}
